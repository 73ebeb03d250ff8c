/** `download` of `src/http/client.rs`: the application download into
    `<root>/<name>/<version>/<file>`, skipped when that path exists. */
module HttpClient {
  import opened Ints
  import opened Wrappers
  import opened Text
  import opened FileSystem
  import opened Http

  /** What the function reads besides its arguments: the server URL
      (`config::URL`), the download root (`config::ROOT_PATH_APP`) and the
      host's target OS and architecture (`os::get_os_info`). */
  datatype Host = Host(url: string, root: string, targetOs: string, targetArch: string)

  function SavedDir(host: Host, name: string, version: string): Path {
    [host.root, name, version]
  }

  function SavedFile(host: Host, name: string, version: string, fileName: string): Path {
    SavedDir(host, name, version) + [fileName]
  }

  /** The URL of the GET. */
  function DownloadUrl(host: Host, name: string, version: string): string {
    host.url + "/apps?appName=" + name + "&version=" + version
      + "&targetOs=" + host.targetOs + "&arch=" + host.targetArch
  }

  /** `download`. A directory that cannot be created panics (`expect`);
      an existing file (or directory) at the saved path is returned as it
      is without a request; otherwise the GET is sent and only status 200
      gives a file, written with the body (a failing write panics,
      `unwrap`). A body that breaks off part-way panics too, after the
      bytes that arrived were written: the truncated file stays. Status 404, any other status and a transport error give
      `None` and leave the created directories behind. */
  function Download(fs: Fs, host: Host, name: string, version: string, fileName: string, reply: Reply): (r: Fetch<Option<string>>)
    ensures CreateDirAll(fs, SavedDir(host, name, version)).Err? ==> r.exit.Panics? && r.fs == fs && r.request.None?
    ensures r.request.None? <==> CreateDirAll(fs, SavedDir(host, name, version)).Err? || Exists(fs, SavedFile(host, name, version, fileName))
    ensures r.request.Some? ==> r.request.value == DownloadUrl(host, name, version)
    ensures r.exit.Returns? && r.exit.value.Some? ==> r.exit.value.value == PathText(SavedFile(host, name, version, fileName))
    ensures r.exit.Returns? && r.exit.value.Some? ==> Exists(r.fs, SavedFile(host, name, version, fileName))
    ensures r.request.Some? && reply.Response? && reply.status == 200 ==>
      && IsFile(r.fs, SavedFile(host, name, version, fileName)) && r.fs[SavedFile(host, name, version, fileName)].data == reply.body
      && (r.exit.Panics? <==> !reply.complete)
    ensures r.exit == Returns(None) <==> r.request.Some? && !(reply.Response? && reply.status == 200)
    ensures Keeps(fs, r.fs)
    ensures r.request.None? ==> forall q | q in r.fs && q !in fs :: q <= SavedDir(host, name, version)
    ensures r.request.None? && (forall i | 0 <= i <= 3 :: IsDir(fs, SavedDir(host, name, version)[..i])) ==> r.fs == fs
    ensures forall q | q in r.fs && q !in fs :: q <= SavedFile(host, name, version, fileName)
  {
    var dir := SavedDir(host, name, version);
    var p := SavedFile(host, name, version, fileName);
    assert (forall i | 0 <= i <= |dir| :: IsDir(fs, dir[..i])) ==> CreateDirAll(fs, dir) == Ok(fs) by {
      if forall i | 0 <= i <= |dir| :: IsDir(fs, dir[..i]) {
        CreateDirAllExisting(fs, dir);
      }
    }
    match CreateDirAll(fs, dir)
    case Err(_) => Fetch(fs, Panics("cannot create the download directory"), None)
    case Ok(fs1) =>
      var text := PathText(p);
      if Exists(fs1, p) then
        assert Exists(fs, p) by { assert !(p <= dir); }
        Fetch(fs1, Returns(Some(text)), None)
      else
        assert !Exists(fs, p) && IsDir(fs1, p[..|p| - 1]) by { assert p[..|p| - 1] == dir[..|dir|]; }
        var url := DownloadUrl(host, name, version);
        match reply
        case TransportError => Fetch(fs1, Returns(None), Some(url))
        case Response(status, body, complete) =>
          if status == 200 then
            match WriteFile(fs1, p, body)
            case Err(_) => Fetch(fs1, Panics("cannot create the downloaded file"), Some(url))
            case Ok(fs2) =>
              if complete then Fetch(fs2, Returns(Some(text)), Some(url))
              else Fetch(fs2, Panics("the download broke off"), Some(url))
          else Fetch(fs1, Returns(None), Some(url))
  }

  /** Besides the saved file, a download adds directories only. */
  lemma DownloadAddsDirs(fs: Fs, host: Host, name: string, version: string, fileName: string, reply: Reply)
    ensures var r := Download(fs, host, name, version, fileName, reply);
      forall q | q in r.fs && q !in fs && q != SavedFile(host, name, version, fileName) :: r.fs[q].Dir?
  {
    var dir := SavedDir(host, name, version);
    match CreateDirAll(fs, dir)
    case Err(_) =>
    case Ok(fs1) =>
      CreateDirAllAddsDirs(fs, dir);
      var p := SavedFile(host, name, version, fileName);
      var fs2 := Download(fs, host, name, version, fileName, reply).fs;
      DownloadFsSteps(fs, host, name, version, fileName, reply);
      forall q | q in fs2 && q !in fs && q != p
        ensures fs2[q].Dir?
      {
        assert q in fs1 && fs2[q] == fs1[q];
      }
  }

  /** The files after a download, by the step that made them. */
  lemma DownloadFsSteps(fs: Fs, host: Host, name: string, version: string, fileName: string, reply: Reply)
    requires CreateDirAll(fs, SavedDir(host, name, version)).Ok?
    ensures var fs1, p := CreateDirAll(fs, SavedDir(host, name, version)).value, SavedFile(host, name, version, fileName);
      var fs2 := Download(fs, host, name, version, fileName, reply).fs;
      fs2.Keys <= fs1.Keys + {p} && KeepsExcept(fs1, fs2, p)
  {
  }

  /** Status 200 on a fresh path writes exactly the body there; apart from
      the directories on the way, nothing else changes. */
  lemma DownloadWritesBody(fs: Fs, host: Host, name: string, version: string, fileName: string, body: seq<byte>)
    requires CreateDirAll(fs, SavedDir(host, name, version)).Ok?
    requires !Exists(fs, SavedFile(host, name, version, fileName))
    ensures var p, r := SavedFile(host, name, version, fileName), Download(fs, host, name, version, fileName, Response(200, body, true));
      && r.exit == Returns(Some(PathText(p)))
      && IsFile(r.fs, p) && r.fs[p].data == body
      && Keeps(fs, r.fs)
      && forall q | q in r.fs && q !in fs :: q <= p
  {
    var p := SavedFile(host, name, version, fileName);
    var fs1 := CreateDirAll(fs, SavedDir(host, name, version)).value;
    assert p[..|p| - 1] == SavedDir(host, name, version);
  }

  /** A body that breaks off part-way panics but leaves the bytes that
      arrived in the saved file; the next call takes that truncated file
      for a finished download and returns its path without a request. */
  lemma DownloadLeavesTruncated(fs: Fs, host: Host, name: string, version: string, fileName: string, part: seq<byte>, reply': Reply)
    requires CreateDirAll(fs, SavedDir(host, name, version)).Ok?
    requires !Exists(fs, SavedFile(host, name, version, fileName))
    ensures var p, r := SavedFile(host, name, version, fileName), Download(fs, host, name, version, fileName, Response(200, part, false));
      && r.exit.Panics?
      && IsFile(r.fs, p) && r.fs[p].data == part
      && Download(r.fs, host, name, version, fileName, reply') == Fetch(r.fs, Returns(Some(PathText(p))), None)
  {
    var r := Download(fs, host, name, version, fileName, Response(200, part, false));
    var dir := SavedDir(host, name, version);
    var p := SavedFile(host, name, version, fileName);
    var fs1 := CreateDirAll(fs, dir).value;
    assert p[..|p| - 1] == dir;
    forall i | 0 <= i <= |dir|
      ensures IsDir(r.fs, dir[..i])
    {
      assert dir[..i] != p;
    }
    CreateDirAllExisting(r.fs, dir);
  }

  /** Once a download has produced a path, calling again with the same
      arguments returns the same path, sends no request and changes
      nothing, whatever the server would answer. */
  lemma DownloadIsCached(fs: Fs, host: Host, name: string, version: string, fileName: string, reply: Reply, reply': Reply)
    requires Download(fs, host, name, version, fileName, reply).exit.Returns?
    requires Download(fs, host, name, version, fileName, reply).exit.value.Some?
    ensures var r := Download(fs, host, name, version, fileName, reply);
      Download(r.fs, host, name, version, fileName, reply') == Fetch(r.fs, r.exit, None)
  {
    var r := Download(fs, host, name, version, fileName, reply);
    var dir := SavedDir(host, name, version);
    var p := SavedFile(host, name, version, fileName);
    var fs1 := CreateDirAll(fs, dir).value;
    assert forall i | 0 <= i <= |dir| :: IsDir(fs1, dir[..i]);
    forall i | 0 <= i <= |dir|
      ensures IsDir(r.fs, dir[..i])
    {
      assert dir[..i] != p;
    }
    CreateDirAllExisting(r.fs, dir);
  }

  /** The returned text names the downloaded file: split at '/', it gives
      the saved path back, provided no name holds a '/'. */
  lemma DownloadedTextNamesFile(fs: Fs, host: Host, name: string, version: string, fileName: string, reply: Reply)
    requires forall k | 0 <= k < 4 :: NoSeparator([host.root, name, version, fileName][k], IsSlash)
    requires Download(fs, host, name, version, fileName, reply).exit.Returns?
    requires Download(fs, host, name, version, fileName, reply).exit.value.Some?
    ensures var r := Download(fs, host, name, version, fileName, reply);
      Exists(r.fs, SplitBy(r.exit.value.value, IsSlash))
  {
    var p := SavedFile(host, name, version, fileName);
    assert p == [host.root, name, version, fileName];
    PathTextComponents(p);
  }

  predicate IsAmpersand(c: char) {
    c == '&'
  }

  /** Split at '&', the URL gives one field per query parameter, each value
      under its own key, provided no value holds a '&'. */
  lemma DownloadUrlFields(host: Host, name: string, version: string)
    requires NoSeparator(host.url, IsAmpersand) && NoSeparator(name, IsAmpersand) && NoSeparator(version, IsAmpersand)
    requires NoSeparator(host.targetOs, IsAmpersand) && NoSeparator(host.targetArch, IsAmpersand)
    ensures SplitBy(DownloadUrl(host, name, version), IsAmpersand)
      == [host.url + "/apps?appName=" + name, "version=" + version, "targetOs=" + host.targetOs, "arch=" + host.targetArch]
  {
    var fields := [host.url + "/apps?appName=" + name, "version=" + version, "targetOs=" + host.targetOs, "arch=" + host.targetArch];
    NoSeparatorConcat(host.url, "/apps?appName=", IsAmpersand);
    NoSeparatorConcat(host.url + "/apps?appName=", name, IsAmpersand);
    NoSeparatorConcat("version=", version, IsAmpersand);
    NoSeparatorConcat("targetOs=", host.targetOs, IsAmpersand);
    NoSeparatorConcat("arch=", host.targetArch, IsAmpersand);
    JoinCons(fields[2], fields[3..], "&");
    JoinCons(fields[1], fields[2..], "&");
    JoinCons(fields[0], fields[1..], "&");
    assert [fields[0]] + fields[1..] == fields;
    assert [fields[1]] + fields[2..] == fields[1..];
    assert [fields[2]] + fields[3..] == fields[2..];
    assert Join(fields, "&") == DownloadUrl(host, name, version);
    SplitByJoin(fields, '&', IsAmpersand);
  }
}
