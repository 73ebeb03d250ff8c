# blocklang-installer, modelled in Dafny

The installer is the agent that runs on an application server for the
Block Lang platform. It registers the server with the platform, downloads
a Spring Boot jar and a JDK archive into a `softwares/` cache, copies and
expands them into `prod/`, launches the jar, and stops it again by finding
the process that listens on its port. Its records live in TOML files: the
installer registry, the md5 record of downloads, and the single-installer
`config.toml`.

This project models the installer's bookkeeping and decision logic as
pure functions over immutable data, and proves what that logic promises:

- Module `InstallerConfig` is the installer registry. It covers add,
  update by port, lookup by port, remove by token, filtered remove-all,
  and the empty default when the file is missing or unreadable.
- Module `DownloadConfig` is the md5 record of downloads: put, get and
  remove on the (name, version) key.
- Module `Process` parses the first `netstat` line into a process id and
  builds the `taskkill` and `kill -9` command lines.
- Module `HttpClient` is the application download. Module
  `LegacyDownload` is the older software download. Both cover the cache
  path, cache hits, the request URL, and the mapping from HTTP outcome to
  result.
- Module `Zip` expands an archive: the working-copy rule of `unzip_to`,
  and the entry loop of `unzip_file`.
- Module `Commands` covers `register`, `start` (staging) and `stop`.
- Module `Net` picks the host's network identity and formats the MAC text.

Shared modules:

- `Ints` holds `u32` and bytes.
- `Wrappers` holds `Option`, `Result` and `Exit`. `Exit` is a value or a
  panic: every `unwrap`, `expect`, `assert!`, `unimplemented!` and
  out-of-range index of the Rust code becomes `Panics`.
- `Toml` says whether a stored file was missing, unparsable or parsed.
- `Text` holds number text, join, trim, split and ASCII uppercase.
- `Seqs` holds first-match search, removal at an index, and order-keeping
  filtering.
- `FileSystem` is a map from component paths to directories and files,
  with the atomic operations the code calls. Each operation either
  succeeds or fails with an `IoError`. An `Effect` carries the filesystem
  as it was when the first step failed.
- `Http` holds an abstract reply: a transport error, or a status and a
  body together with whether the body arrived in full. A `Fetch` records the URL requested, if any.

The filesystem, the HTTP reply, the list of network adapters, the
`netstat` output, the zip decoder and the target operating system are
parameters. Nothing of the outside world is consulted.

### Notes on the code

- `findstr` matches substrings, so a query for port 80 also selects a
  line about port 8080 (`Process.GetIdMatchesLongerPort`).
- Both downloads take any file already at the saved path as a finished
  download. A body that breaks off part-way leaves the bytes that arrived
  in that file, and every later call returns it as cached
  (`HttpClient.DownloadLeavesTruncated`,
  `LegacyDownload.DownloadLeavesTruncated`).
- The source files are historical variants that do not agree with one
  another. Each is modelled on its own terms:
  - `src/command.rs` calls `register_installer` with two arguments;
    `src/http/client.rs` declares four.
  - `src/installer_config.rs` `unwrap`s an `InstallerInfo.url` that
    `src/http/client.rs` declares as a plain string. The registry's
    `InstallerInfo` therefore has an optional url.
  - `config::save` reads field names (`token`, `software_name`) that the
    client's `InstallerInfo` does not have. `Commands.Registration` takes
    the shape `config::save` reads.
- `config::ROOT_PATH_APP`, read by `src/http/client.rs`, is not defined
  in `src/config.rs`. It is the parameter `HttpClient.Host.root`.
  `start` looks for the cached files under `softwares/`. The download
  therefore fills the cache that `start` reads only when that root is
  `softwares`, which `Commands.StageCopiesAfterFailedDownload` assumes.
  `Commands.Asks` asks about the path the client actually saves to.
  Some properties of `start` also need that root not to be `prod`,
  so that a download cannot create a production path.
- Paths are sequences of components, the way Rust's `Path` compares them.
  Names are assumed not to contain `/` and not to be `.` or `..`.
- A UDP line of `netstat -ano` has four columns, so the fifth word that
  `get_id` reads does not exist there and it panics
  (`Process.GetIdPanicsOnUdpLine`).

## Model

| member | source | states |
|---|---|---|
| InstallerConfig.Load | src/installer_config.rs:55-75 | A parsed file is taken as it is. A missing or unparsable file becomes an empty registry whose server token is the host's MAC. Without a network interface it panics. |
| InstallerConfig.Add | src/installer_config.rs:77-91 | Panics exactly when the url is missing. Otherwise exactly one record is appended: earlier records are unchanged, it carries all nine fields of the input, and the port is not checked against existing records. |
| InstallerConfig.Update | src/installer_config.rs:94-107 | A port with no record leaves the registry unchanged. Otherwise the first record on the port takes every field but the port from the input, and every other record is unchanged. Panics exactly when that record exists and the url is missing. |
| InstallerConfig.GetByPort | src/installer_config.rs:111-119 | `None` exactly when no record is on the port. Otherwise the first record on the port. |
| InstallerConfig.RemoveByInstallerToken | src/installer_config.rs:121-132 | An absent token changes nothing. Otherwise only the first record with the token is removed, and the records before and after it are kept in place. |
| InstallerConfig.RemoveAllKeepsRejected | src/installer_config.rs:137-146 | `remove_all(f)` keeps exactly the records `f` rejects, in their original relative order, and keeps the server token. |
| InstallerConfig.RemoveAllExtremes | src/installer_config.rs:137-146 | A filter that accepts everything empties the registry. One that accepts nothing leaves it unchanged. |
| InstallerConfig.AddThenGetByPort | src/installer_config.rs:77-119 | After `add`, a lookup of the new port finds the new record. If an earlier record already uses that port, the lookup still returns the earlier record. |
| InstallerConfig.UpdateThenGetByPort | src/installer_config.rs:94-119 | After `update` on a registered port, a lookup of the port returns the refreshed record. |
| InstallerConfig.AddThenRemoveByToken | src/installer_config.rs:77-132 | With a fresh token, `remove_by_installer_token` undoes `add`. |
| DownloadConfig.Load | src/download_config.rs:38-58 | A parsed file is taken as it is. A missing or unparsable one gives an empty file list. |
| DownloadConfig.Put | src/download_config.rs:60-78 | The first record with the key, if there is one, is removed, and the new record is appended last. With no such record the new one is simply appended. Records with other keys are unchanged and stay in their relative order. |
| DownloadConfig.Get | src/download_config.rs:80-84 | `None` exactly when no record matches both name and version. Otherwise the first record with that name and version. |
| DownloadConfig.Remove | src/download_config.rs:86-96 | An absent key is a no-op. Otherwise exactly the first record with the key is removed, and every other record stays in order. |
| DownloadConfig.RemoveLeavesNone | src/download_config.rs:86-96 | With at most one record per key, `remove` leaves none for the key and keeps keys unique. |
| DownloadConfig.PutKeepsKeysUnique | src/download_config.rs:67-75 | `put` keeps "at most one record per key". Afterwards exactly one record has the key: the last one, with the new md5. |
| DownloadConfig.PutThenGet | src/download_config.rs:60-84 | `get` after `put` on the same key yields the new md5. |
| DownloadConfig.PutThenRemove | src/download_config.rs:60-96 | `put` then `remove` on a key leaves exactly the records with other keys, in order. |
| DownloadConfig.PutOnDuplicateKeys | src/download_config.rs:67-83 | In a file that already holds two records for one key, `put` replaces only the first, so `get` still returns the older md5. |
| Process.NetstatCommand | src/util/process.rs:8-9 | The command is `cmd` with `/C` and `netstat -ano \| findstr <port>`. Its last word reads back as the port. |
| Process.NetstatSelectsMentions | src/util/process.rs:8-9 | The text that `findstr` searches for, the last word of the netstat command, is the text whose lines `get_id` reads. |
| Process.ParseFirstLine | src/util/process.rs:14-25 | `None` exactly when the line trims to empty. Otherwise the pid is the fifth non-empty word after splitting on whitespace and control characters, read as a `u32`. Fewer than five words, or a non-numeric fifth word, panics. |
| Process.GetId | src/util/process.rs:5-31 | Panics on any target but Windows. On Windows it returns `None` exactly when no output line contains the port's text. Otherwise its result is that of parsing the first such line, with its line break. |
| Process.WordsOfLine | src/util/process.rs:19-23 | Splitting a netstat line with its `\r\n` ending gives back the words the line was made of. |
| Process.GetIdReadsFifthWord | src/util/process.rs:14-25 | When the first line containing the port has the pid as its fifth word, `get_id` returns that pid. |
| Process.GetIdMatchesLongerPort | src/util/process.rs:8-9 | A query for port 80 returns the pid from a line about port 8080. |
| Process.GetIdPanicsOnUdpLine | src/util/process.rs:19-24 | A four-column UDP line containing the port makes `get_id` panic. |
| Process.Kill | src/util/process.rs:34-50 | Fails exactly on a target other than Windows or Linux, or when the command cannot be spawned. On Windows it runs `cmd /C taskkill /F /PID <pid>`, and on Linux `sh -c kill -9 <pid>`. The command line reads back as the pid. |
| Process.EndsWithNumber | src/util/process.rs:38 | A command line made of a prefix, a space and a number's decimal text reads back as that number. |
| HttpClient.Download | src/http/client.rs:143-203 | A cache directory that cannot be created panics, with no request. No request is made exactly when the file already exists. The request URL is the `/apps` query. A `Some` result is the text of `<root>/<name>/<version>/<file>`, and that file exists. `None` is returned exactly when a request was made and the reply was not 200. After a request answered 200, the file holds the bytes received, and the call panics exactly when the body broke off part-way. Every existing entry is kept, and every added path is a prefix of `<root>/<name>/<version>/<file>`. Without a request, only missing directories on the way to `<root>/<name>/<version>` are added, and when those directories already exist the filesystem is unchanged. |
| HttpClient.DownloadWritesBody | src/http/client.rs:183-189 | Status 200 on a fresh path writes exactly the body there and returns its path. |
| HttpClient.DownloadLeavesTruncated | src/http/client.rs:152-188 | A 200 reply whose body breaks off on a fresh path panics and leaves a file holding the bytes received. A later call with any reply makes no request and returns that file's path. |
| HttpClient.DownloadAddsDirs | src/http/client.rs:150-188 | Apart from the saved file, every path a download adds is a directory. |
| HttpClient.DownloadIsCached | src/http/client.rs:156-160 | After a call that returned a path, a second call with any reply makes no request and changes nothing. |
| HttpClient.DownloadedTextNamesFile | src/http/client.rs:147-154 | The returned text, split at `/`, gives root, name, version and file name. |
| HttpClient.DownloadUrlFields | src/http/client.rs:168-173 | The URL, split at `&`, gives `<url>/apps?appName=<n>`, `version=<v>`, `targetOs=<os>` and `arch=<arch>`. |
| LegacyDownload.Prepare | src/lib.rs:45-58 | Fails exactly when the directory cannot be created. Otherwise the directory exists, existing entries are kept, and an existing file is returned as its path. |
| LegacyDownload.Download | src/lib.rs:41-78 | Never panics. No request is made exactly when the directory fails or the file exists. The URL is the `/softwares` query. `Err` is returned exactly on a directory failure, a transport error, or a success status whose body broke off part-way. A success status writes the bytes received, including after such a break. Any `Ok` carries the path text. |
| LegacyDownload.DownloadOkWithoutFile | src/lib.rs:73-77 | A 404 on a fresh path returns `Ok` with the path while no file exists there. |
| LegacyDownload.DownloadChecked | src/lib.rs:41-78 | The corrected variant. A non-success status is an `Err`, and an `Ok` path always exists and holds the received body. |
| LegacyDownload.DownloadLeavesTruncated | src/lib.rs:50-77 | A success status whose body breaks off on a fresh path is a transport error that leaves a file holding the bytes received. A later call with any reply makes no request and returns that file's path as `Ok`. |
| LegacyDownload.CheckedAgreesOnSuccess | src/lib.rs:66-72 | The corrected variant differs from the original only on non-success statuses. |
| LegacyDownload.CheckedIsCached | src/lib.rs:54-58 | After an `Ok`, a second call makes no request and changes nothing. |
| Zip.Create | src/util/zip.rs:59-69 | A directory entry creates its directory. A file entry creates missing parents and then holds exactly the entry's contents. Nothing outside the entry's path and its parents changes. |
| Zip.ExtractEntry | src/util/zip.rs:55-79 | A damaged entry fails with nothing changed. Otherwise the entry is written at `parent/name`, and a present unix mode is set on it. |
| Zip.ExtractAll | src/util/zip.rs:55-80 | Paths that are not some entry's output are unchanged. Existing directories and files stay. After success every directory entry is a directory. |
| Zip.ExtractAllConcat | src/util/zip.rs:55-80 | Expanding `a + b` is expanding `a` and, if that succeeded, then `b`. |
| Zip.ExtractAllStopsAtFirstError | src/util/zip.rs:47-83 | A failed expansion stopped at some entry `k`: the entries before it succeeded, and the filesystem is what entry `k` left, with nothing cleaned up. |
| Zip.ExtractAllLastWriter | src/util/zip.rs:61-68 | After success, a file entry that no later entry overwrites holds exactly its contents. |
| Zip.UnzipFile | src/util/zip.rs:47-53 | A missing, empty-named or undecodable archive fails with nothing changed. Otherwise its entries are expanded into the archive's own directory. |
| Zip.UnzipTo | src/util/zip.rs:18-42 | A source without a file name panics. When the working copy `target/basename(source)` is the source, the archive is expanded in place and kept. Otherwise the target directory is created, the archive copied and the copy expanded. A failing step returns its error, with the earlier steps' effects kept. After a failed expansion the copy is still in the target directory. After a successful one the copy is removed, with nothing else changed by the removal, and the result is `Ok`. |
| Zip.UnzipKeepsFiles | src/util/zip.rs:18-42 | Expanding an archive never removes a file or turns it into a directory, except the working copy. |
| Zip.UnzipInPlaceKeepsArchive | src/util/zip.rs:24-41 | In place, nothing is copied or deleted, and the archive is still there afterwards. |
| Zip.UnzipElsewhere | src/util/zip.rs:27-39 | Into another directory, the source is untouched, the copy is gone afterwards, and each file entry that is last at its path is in the target directory. |
| Zip.UnzipElsewhereSucceeds | src/util/zip.rs:27-39 | Once the copy is made and expansion succeeds, deleting the copy cannot fail. |
| Commands.EnsureCached | src/command.rs:42-46 | A cached file makes no request and no change. Otherwise it is downloaded, and only a panic of the download propagates. Every existing entry is kept, and paths are added only under the download root. |
| Commands.CachedElsewhere | src/command.rs:42-46 | A download never creates a path outside its own root. |
| Commands.EnsureProdJar | src/command.rs:48-56 | An existing production jar is left alone. Otherwise its directory is created and the cached jar copied. On success the production jar exists, and it is a file when it was absent before. Every existing entry is kept. |
| Commands.EnsureProdJdk | src/command.rs:70-79 | An existing JDK directory is left alone. Otherwise the cached archive is expanded into its parent, and any failure panics. |
| Commands.StageJar | src/command.rs:36-56 | The jar's GET is sent exactly when its download asks. With the jar cached and in production, nothing changes. It panics exactly when the jar's download panics. Otherwise it leaves the filesystem that copying the jar into production left, and succeeds exactly when that copy does. Its only error is a copy error. A success leaves the production jar in place, and a file there when it was absent, unless the download root is `prod`. Every existing entry is kept. |
| Commands.StageJdk | src/command.rs:58-79 | The JDK's GET is sent exactly when its download asks. It never returns an error, only panics. A panic of the archive's download is a panic here. Otherwise it leaves the filesystem that expanding the archive left, and returns exactly when that expansion returns. With the archive cached and the JDK in production, nothing changes. With the archive cached and the JDK directory absent, the result is the filesystem the archive's expansion leaves, and it succeeds exactly when the expansion does. When the JDK directory was absent and the download root is not `prod`, a success leaves the filesystem expanded from the downloaded archive. |
| Commands.StageJdkKeepsFiles | src/command.rs:58-79 | The JDK half keeps every file except the archive's working copy. |
| Commands.Stage | src/command.rs:36-83 | At most two downloads are requested. A success launches `prod/<name>/<version>/<file>` with `prod/<jdk>/<jdk version>/jdk-<jdk version>`. When every path exists, it makes no request and no change. The JDK half runs only after a successful jar half, on the filesystem the jar half left. |
| Commands.StageRequests | src/command.rs:38-68 | The jar's GET comes first, exactly when its download asks on the original filesystem. Otherwise the only possible GET is the JDK's. After a successful jar half, the JDK's GET follows exactly when its download asks on the filesystem the jar half left. |
| Commands.StageLeavesJar | src/command.rs:47-79 | After a successful `start`, a production jar that was absent is a file. The exceptions are a working copy of the JDK archive with the same path, and a download root of `prod`. |
| Commands.StageExpandsJdk | src/command.rs:58-79 | When the JDK directory is absent, a successful `start` leaves the filesystem that expanding the cached archive produced. When everything else is in place, `start` succeeds exactly when that expansion does. |
| Commands.StageJarFresh | src/command.rs:36-56 | With the download root `softwares` and only directories on disk, above the file level, a full 200 reply gives one GET and a success. Afterwards the disk holds the cached and the production jar and otherwise only such directories. |
| Commands.StageJdkFresh | src/command.rs:58-79 | On such a disk, which may also hold the two jars, a full 200 reply for an archive with no entries gives one GET and a success. |
| Commands.StageLaunches | src/command.rs:36-83 | When the jar half succeeds and the JDK half returns, `start` launches the production jar and JDK, and its GETs are the jar half's followed by the JDK half's. |
| Commands.StageFreshSucceeds | src/command.rs:36-83 | A fresh `start`: with the download root `softwares`, only directories above the file level on disk, full 200 replies, a JDK archive with no entries and a cache path that differs from the jar's, `start` sends the jar's GET and then the JDK's, and launches the production jar and JDK. |
| Commands.StageCopiesAfterFailedDownload | src/command.rs:43-56 | A failed jar download is ignored: staging goes on to copy the missing jar and returns that copy's error. |
| Commands.Start | src/command.rs:24-30 | As written, `start` never stages. It makes no request and no change. An unreadable file is an error, and every readable one panics. |
| Commands.StartFixed | src/command.rs:24-83 | With the assertion corrected, an empty or missing list panics and otherwise the first installer is staged. |
| Commands.Stop | src/command.rs:89-95 | As written, `stop` never looks for the process: it errs on an unreadable file and panics otherwise. |
| Commands.StopFixed | src/command.rs:89-108 | With the assertion corrected, `stop` succeeds with nothing to kill exactly when `get_id` finds no process on the first installer's port. A panic of `get_id` propagates. When `get_id` finds a pid, `stop` panics exactly when `kill` does, and otherwise it returns `kill`'s command for that pid. |
| Commands.Register | src/command.rs:10-17 | A failed registration is an error. Without a network interface it panics. Otherwise the saved configuration holds exactly one installer, with the registration's fields and the MAC as server token. |
| Commands.StartAfterRegister | src/command.rs:10-30 | On the configuration that `register` saves, `start` as written panics, while the corrected `start` stages the registered jar and JDK paths. |
| Commands.StopAfterRegister | src/command.rs:10-17 | On the configuration that `register` saves, `stop` as written panics. The corrected `stop` looks up the registered port. When a process is found there, it runs `taskkill /F /PID <pid>`, or panics if that cannot be spawned. |
| Net.SelectAdapter | src/util/net.rs:18-29 | `None` exactly when no adapter is up and either Ethernet or 802.11. Otherwise the first up Ethernet adapter, or, if there is none, the first up 802.11 one. |
| Net.WindowsAddressOfSelected | src/util/net.rs:15-42 | The Windows address is the selected adapter's second IP and the MAC text of its physical address. Fewer than two addresses, or a missing physical address, panics. |
| Net.MacTextRoundTrip | src/util/net.rs:33-39 | The MAC text has no lowercase letters. It splits at `:` into one group of one or two hex digits per byte, so it has `len - 1` separators, and it reads back to the bytes. |
| Net.UnixAddressOfFirstCandidate | src/util/net.rs:51-73 | Off Windows, the interface chosen is the first non-loopback IPv4 one. Without one the result is `None`. The MAC is the looked-up text uppercased, and a failed lookup panics. |
| FileSystem.CreateDirAllExisting | src/util/zip.rs:29 | `create_dir_all` on a path whose every prefix is already a directory succeeds and changes nothing. |
| FileSystem.CreateDirAllAddsDirs | src/util/zip.rs:29 | Every entry `create_dir_all` adds is a non-root directory. |

## Left out

- `src/main.rs`: the command-line dispatch and interactive prompts are not part of this model.
- `src/jar.rs`: launching `java`. `Commands.Stage` returns the jar and JDK paths it would launch.
- `src/config.rs`: `save_to` and `read` are TOML file I/O. Reading is the `Stored` parameter, and `Commands.Register` returns the configuration it would write.
- `src/util.rs` and `src/util/os.rs`: a superseded copy of the network code, and compile-time constants. The target OS and architecture are parameters.
- `tests/cli.rs`: runs the built binary.
- `register_installer`, `unregister_installer` and `request_installers` in `src/http/client.rs`: network and JSON calls. The platform's answer is a parameter of `Commands.Register`.
- TOML (de)serialisation and `save`: a parsed file is a value, and saving writes back the state each operation returns.
- Zip decoding, `sanitized_name` and streaming: an archive is a list of decoded entries produced by the `decode` parameter, and an undecodable archive is `None`.
- The spawning of `netstat`, `taskkill` and `kill`: the `netstat` output is a parameter already split into lines, and a spawn failure is the `spawns` flag.
- The printed progress messages.
- The `FnMut` side effects a `remove_all` filter may perform: the filter is a pure function.
- Zip.ExtractEntry: modelled for a unix target, where a recorded unix mode is applied to the written entry. On a Windows build the `#[cfg(unix)]` block is compiled out and the mode is ignored, which the model does not represent. `Zip.ExtractAll`, `Zip.UnzipFile`, `Zip.UnzipTo` and `Commands.EnsureProdJdk` inherit this.
- Error kinds: the filesystem reports `NotFound`, `NotADirectory`, `IsADirectory` and `InvalidArchive` only. Writing over an existing file replaces it, and copying onto an existing file overwrites it, as Rust's `File::create` and `fs::copy` do, so no "already exists" error arises. Permissions, full disks and failing writes are not modelled. A body that breaks off is modelled as a reply flag, not as a write error.
- Unicode: uppercase is ASCII only, which is enough for hexadecimal MAC text. Whitespace is the full Unicode White_Space set, and control characters are general category Cc.
- InstallerConfig.Load, Commands.Register: the interface lookup is the parameter `iface`. It is assumed not to panic itself; the `expect` and `unwrap` calls inside `get_interface_address` are not modelled.
- InstallerConfig.RemoveAll: has no contract of its own. `InstallerConfig.RemoveAllKeepsRejected` states it.
- Net.WindowsInterfaceAddress: stated by `Net.WindowsAddressOfSelected` rather than its own contract.
- Net.UnixInterfaceAddress: stated by `Net.UnixAddressOfFirstCandidate` rather than its own contract.
- `mac_address`'s own `Display` format: the looked-up MAC text is a parameter.

## Findings

| source | as written | input that shows it | evidently intended | confidence | as-written member | corrected member |
|---|---|---|---|---|---|---|
| src/command.rs:27 | `assert!(installers.len() < 1, …)` fails whenever an installer is registered. The `get(0).unwrap()` that follows fails when none is. | The configuration `register` saves, with one installer: `start` panics with "no installer found". | Assert `len() >= 1`, as the message says, and stage the first installer. | high (not executed) | Commands.Start, Commands.StartAfterRegister | Commands.StartFixed |
| src/command.rs:92 | The same inverted assertion in `stop`. | The configuration `register` saves: `stop` panics before looking for the process. | Assert `len() >= 1` and kill the process on the first installer's port. | high (not executed) | Commands.Stop, Commands.StopAfterRegister | Commands.StopFixed |
| src/lib.rs:73-77 | A non-success status only prints, then returns `Ok(path)` for a file that was never written. | A 404 reply on a fresh path: `Ok("softwares/<n>/<v>/<f>")`, and nothing exists there. | Report the status as an error, so that every `Ok` path exists. | medium (not executed) | LegacyDownload.Download, LegacyDownload.DownloadOkWithoutFile | LegacyDownload.DownloadChecked |
