/** `download` of `src/lib.rs`, the older variant: the software download
    into `softwares/<name>/<version>/<file>`, skipped when that path exists,
    with every failure returned as an error instead of a panic. */
module LegacyDownload {
  import opened Ints
  import opened Wrappers
  import opened FileSystem
  import opened Http

  const ROOT_PATH_SOFTWARE: string := "softwares"

  /** Why the download failed: the filesystem, the transport, or (in the
      corrected variant only) a status that is not a success. */
  datatype Failure = Io(error: IoError) | Transport | Status(status: nat)

  function SavedDir(name: string, version: string): Path {
    [ROOT_PATH_SOFTWARE, name, version]
  }

  function SavedFile(name: string, version: string, fileName: string): Path {
    SavedDir(name, version) + [fileName]
  }

  function DownloadUrl(url: string, name: string, version: string): string {
    url + "/softwares?name=" + name + "&version=" + version
  }

  /** What both variants do up to the request: create the directory (an
      error is returned), and stop with the path when it exists. `None`
      means the request is to be sent, on `fs1`. */
  function Prepare(fs: Fs, name: string, version: string, fileName: string): (r: Result<(Fs, Option<string>), Failure>)
    ensures r.Err? <==> CreateDirAll(fs, SavedDir(name, version)).Err?
    ensures r.Ok? ==> Keeps(fs, r.value.0) && IsDir(r.value.0, SavedDir(name, version))
    ensures r.Ok? ==> (r.value.1.Some? <==> Exists(fs, SavedFile(name, version, fileName)))
    ensures r.Ok? && r.value.1.None? ==> !Exists(r.value.0, SavedFile(name, version, fileName))
    ensures r.Ok? && r.value.1.Some? ==> r.value.1.value == PathText(SavedFile(name, version, fileName))
  {
    var dir := SavedDir(name, version);
    var p := SavedFile(name, version, fileName);
    match CreateDirAll(fs, dir)
    case Err(e) => Err(Io(e))
    case Ok(fs1) =>
      assert dir[..|dir|] == dir && !(p <= dir);
      if Exists(fs1, p) then Ok((fs1, Some(PathText(p)))) else Ok((fs1, None))
  }

  /** `download` as written: after the GET, a success status writes the
      body and any other status writes nothing, and both return
      `Ok(path)`. A body that breaks off part-way is a transport error,
      returned after the bytes that arrived were written. */
  function Download(fs: Fs, url: string, name: string, version: string, fileName: string, reply: Reply): (r: Fetch<Result<string, Failure>>)
    ensures r.exit.Returns?
    ensures r.request.None? <==> CreateDirAll(fs, SavedDir(name, version)).Err? || Exists(fs, SavedFile(name, version, fileName))
    ensures r.request.Some? ==> r.request.value == DownloadUrl(url, name, version)
    ensures r.exit.value.Ok? ==> r.exit.value.value == PathText(SavedFile(name, version, fileName))
    ensures r.exit.value.Err? <==>
      || CreateDirAll(fs, SavedDir(name, version)).Err?
      || (r.request.Some? && (reply.TransportError? || (IsSuccess(reply.status) && !reply.complete)))
    ensures r.request.Some? && reply.Response? && IsSuccess(reply.status) ==>
      IsFile(r.fs, SavedFile(name, version, fileName)) && r.fs[SavedFile(name, version, fileName)].data == reply.body
    ensures r.request.Some? && reply.Response? && IsSuccess(reply.status) && !reply.complete ==> r.exit == Returns(Err(Transport))
    ensures Keeps(fs, r.fs)
  {
    match Prepare(fs, name, version, fileName)
    case Err(e) => Fetch(fs, Returns(Err(e)), None)
    case Ok((fs1, Some(text))) => Fetch(fs1, Returns(Ok(text)), None)
    case Ok((fs1, None)) =>
      var p := SavedFile(name, version, fileName);
      var text := PathText(p);
      var req := Some(DownloadUrl(url, name, version));
      assert p[..|p| - 1] == SavedDir(name, version);
      match reply
      case TransportError => Fetch(fs1, Returns(Err(Transport)), req)
      case Response(status, body, complete) =>
        if IsSuccess(status) then
          match WriteFile(fs1, p, body)
          case Err(e) => Fetch(fs1, Returns(Err(Io(e))), req)
          case Ok(fs2) => if complete then Fetch(fs2, Returns(Ok(text)), req) else Fetch(fs2, Returns(Err(Transport)), req)
        else Fetch(fs1, Returns(Ok(text)), req)
  }

  /** As written, a 404 on a fresh path still returns `Ok` with the path,
      although nothing exists there. */
  lemma DownloadOkWithoutFile(fs: Fs, url: string, name: string, version: string, fileName: string)
    requires CreateDirAll(fs, SavedDir(name, version)).Ok?
    requires !Exists(fs, SavedFile(name, version, fileName))
    ensures var r := Download(fs, url, name, version, fileName, Response(404, [], true));
      && r.exit == Returns(Ok(PathText(SavedFile(name, version, fileName))))
      && !Exists(r.fs, SavedFile(name, version, fileName))
  {
  }

  /** `download` with the status checked: a status that is not a success is
      an error, so `Ok(path)` always names a path that exists. */
  function DownloadChecked(fs: Fs, url: string, name: string, version: string, fileName: string, reply: Reply): (r: Fetch<Result<string, Failure>>)
    ensures r.exit.Returns?
    ensures r.request.None? <==> CreateDirAll(fs, SavedDir(name, version)).Err? || Exists(fs, SavedFile(name, version, fileName))
    ensures r.request.Some? ==> r.request.value == DownloadUrl(url, name, version)
    ensures r.exit.value.Ok? ==> r.exit.value.value == PathText(SavedFile(name, version, fileName))
    ensures r.exit.value.Ok? ==> Exists(r.fs, SavedFile(name, version, fileName))
    ensures r.exit.value.Ok? && r.request.Some? ==> reply.Response? && reply.complete && IsFile(r.fs, SavedFile(name, version, fileName)) && r.fs[SavedFile(name, version, fileName)].data == reply.body
    ensures r.request.Some? && reply.Response? && !IsSuccess(reply.status) ==> r.exit == Returns(Err(Status(reply.status)))
    ensures Keeps(fs, r.fs)
  {
    match Prepare(fs, name, version, fileName)
    case Err(e) => Fetch(fs, Returns(Err(e)), None)
    case Ok((fs1, Some(text))) => Fetch(fs1, Returns(Ok(text)), None)
    case Ok((fs1, None)) =>
      var p := SavedFile(name, version, fileName);
      var req := Some(DownloadUrl(url, name, version));
      assert p[..|p| - 1] == SavedDir(name, version);
      match reply
      case TransportError => Fetch(fs1, Returns(Err(Transport)), req)
      case Response(status, body, complete) =>
        if IsSuccess(status) then
          match WriteFile(fs1, p, body)
          case Err(e) => Fetch(fs1, Returns(Err(Io(e))), req)
          case Ok(fs2) => if complete then Fetch(fs2, Returns(Ok(PathText(p))), req) else Fetch(fs2, Returns(Err(Transport)), req)
        else Fetch(fs1, Returns(Err(Status(status))), req)
  }

  /** The corrected variant differs from the original only on statuses that
      are not a success. */
  lemma CheckedAgreesOnSuccess(fs: Fs, url: string, name: string, version: string, fileName: string, reply: Reply)
    requires !(reply.Response? && !IsSuccess(reply.status))
    ensures DownloadChecked(fs, url, name, version, fileName, reply) == Download(fs, url, name, version, fileName, reply)
  {
  }

  /** A body that breaks off part-way is an error, but the bytes that
      arrived stay in the saved file, and the next call returns that
      truncated file's path as a finished download, without a request. */
  lemma DownloadLeavesTruncated(fs: Fs, url: string, name: string, version: string, fileName: string, status: nat, part: seq<byte>, reply': Reply)
    requires IsSuccess(status)
    requires CreateDirAll(fs, SavedDir(name, version)).Ok?
    requires !Exists(fs, SavedFile(name, version, fileName))
    ensures var p, r := SavedFile(name, version, fileName), Download(fs, url, name, version, fileName, Response(status, part, false));
      && r.exit == Returns(Err(Transport))
      && IsFile(r.fs, p) && r.fs[p].data == part
      && Download(r.fs, url, name, version, fileName, reply') == Fetch(r.fs, Returns(Ok(PathText(p))), None)
  {
    var r := Download(fs, url, name, version, fileName, Response(status, part, false));
    var dir := SavedDir(name, version);
    forall i | 0 <= i <= |dir|
      ensures IsDir(r.fs, dir[..i])
    {
      assert dir[..i] != SavedFile(name, version, fileName);
    }
    CreateDirAllExisting(r.fs, dir);
  }

  /** Once a download has returned a path that exists, calling again
      returns it without a request and changes nothing. */
  lemma CheckedIsCached(fs: Fs, url: string, name: string, version: string, fileName: string, reply: Reply, reply': Reply)
    requires DownloadChecked(fs, url, name, version, fileName, reply).exit.value.Ok?
    ensures var r := DownloadChecked(fs, url, name, version, fileName, reply);
      DownloadChecked(r.fs, url, name, version, fileName, reply') == Fetch(r.fs, r.exit, None)
  {
    var r := DownloadChecked(fs, url, name, version, fileName, reply);
    var dir := SavedDir(name, version);
    var fs1 := CreateDirAll(fs, dir).value;
    forall i | 0 <= i <= |dir|
      ensures IsDir(r.fs, dir[..i])
    {
      assert dir[..i] != SavedFile(name, version, fileName);
    }
    CreateDirAllExisting(r.fs, dir);
  }
}
