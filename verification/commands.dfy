/** `src/command.rs`: the `register`, `start` and `stop` commands over the
    single-installer `config.toml` of `src/config.rs`. Reading that file is
    a parameter (`Stored`); launching the jar is left to the caller, which
    receives the paths `start` would launch. */
module Commands {
  import opened Ints
  import opened Wrappers
  import opened Toml
  import opened FileSystem
  import opened Http
  import HttpClient
  import Zip
  import Process
  import Net
  import Text

  const ROOT_PATH_SOFTWARE: string := "softwares"
  const ROOT_PATH_PROD: string := "prod"

  /** One installer of `config.toml` (`config::InstallerConfig`). */
  datatype ConfigInstaller = ConfigInstaller(
    url: string, token: string, serverToken: string,
    softwareName: string, softwareVersion: string, softwareFileName: string,
    softwareRunPort: u32,
    jdkName: string, jdkVersion: string, jdkFileName: string)

  /** `config::Config`. */
  datatype Config = Config(installers: Option<seq<ConfigInstaller>>)

  /** What the platform answers to a registration, in the shape
      `config::save` reads it. */
  datatype Registration = Registration(
    url: string, token: string,
    softwareName: string, softwareVersion: string, softwareFileName: string,
    softwareRunPort: u32,
    jdkName: string, jdkVersion: string, jdkFileName: string)

  /** The errors a command returns (`?`) rather than panics on. */
  datatype CommandError = ConfigUnreadable | Io(error: IoError) | RegisterFailed

  /** The jar and the JDK directory `start` hands to the launcher. */
  datatype Launch = Launch(jar: Path, jdk: Path)

  /** A run of `start`: the filesystem it leaves, how it ended, and the
      download URLs it requested, in order. */
  datatype Staging = Staging(fs: Fs, exit: Exit<Result<Launch, CommandError>>, requests: seq<string>)

  function AppCache(inst: ConfigInstaller): Path {
    [ROOT_PATH_SOFTWARE, inst.softwareName, inst.softwareVersion, inst.softwareFileName]
  }

  function AppProd(inst: ConfigInstaller): Path {
    [ROOT_PATH_PROD, inst.softwareName, inst.softwareVersion, inst.softwareFileName]
  }

  function JdkCache(inst: ConfigInstaller): Path {
    [ROOT_PATH_SOFTWARE, inst.jdkName, inst.jdkVersion, inst.jdkFileName]
  }

  /** The JDK expands into a directory named after its version. */
  function JdkProd(inst: ConfigInstaller): Path {
    [ROOT_PATH_PROD, inst.jdkName, inst.jdkVersion, "jdk-" + inst.jdkVersion]
  }

  function Requested(request: Option<string>): seq<string> {
    if request.Some? then [request.value] else []
  }

  /** A download step of `start`: `client::download` is called only when
      the cache path is absent, and its result is ignored; only its panic
      propagates. */
  function EnsureCached(fs: Fs, host: HttpClient.Host, cache: Path, reply: Reply): (r: Fetch<()>)
    requires |cache| == 4
    ensures Exists(fs, cache) ==> r == Fetch(fs, Returns(()), None)
    ensures !Exists(fs, cache) ==>
      var d := HttpClient.Download(fs, host, cache[1], cache[2], cache[3], reply);
      r.fs == d.fs && r.request == d.request && r.exit.Panics? == d.exit.Panics?
    ensures Keeps(fs, r.fs)
    ensures forall q | q in r.fs && q !in fs :: q <= HttpClient.SavedFile(host, cache[1], cache[2], cache[3])
  {
    if Exists(fs, cache) then Fetch(fs, Returns(()), None)
    else
      var d := HttpClient.Download(fs, host, cache[1], cache[2], cache[3], reply);
      match d.exit
      case Panics(m) => Fetch(d.fs, Panics(m), d.request)
      case Returns(_) => Fetch(d.fs, Returns(()), d.request)
  }

  /** A download adds paths under its own root only. */
  lemma CachedElsewhere(fs: Fs, host: HttpClient.Host, cache: Path, reply: Reply, p: Path)
    requires |cache| == 4 && 0 < |p| && p[0] != host.root && p !in fs
    ensures p !in EnsureCached(fs, host, cache, reply).fs
  {
    assert !(p <= HttpClient.SavedFile(host, cache[1], cache[2], cache[3]));
  }

  /** The jar step of `start`: when the production jar is absent, its
      parent is created and the cached jar copied there; errors are
      returned. */
  function EnsureProdJar(fs: Fs, cache: Path, prod: Path): (r: Effect<()>)
    requires |prod| == 4
    ensures Exists(fs, prod) ==> r == Effect(fs, Ok(()))
    ensures !Exists(fs, prod) && CreateDirAll(fs, prod[..3]).Err? ==> r.fs == fs && r.result.Err?
    ensures !Exists(fs, prod) && CreateDirAll(fs, prod[..3]).Ok? ==>
      var fs1 := CreateDirAll(fs, prod[..3]).value;
      r == Step(fs1, CopyFile(fs1, cache, prod))
    ensures r.result.Ok? ==> Exists(r.fs, prod)
    ensures r.result.Ok? && !Exists(fs, prod) ==> IsFile(r.fs, prod)
    ensures Keeps(fs, r.fs)
  {
    if Exists(fs, prod) then Effect(fs, Ok(()))
    else match CreateDirAll(fs, prod[..3])
      case Err(e) => Effect(fs, Err(e))
      case Ok(fs1) =>
        assert prod[..|prod| - 1] == prod[..3];
        Step(fs1, CopyFile(fs1, cache, prod))
  }

  /** The JDK step of `start`: when the JDK directory is absent, the cached
      archive is expanded into its parent; any error panics (`expect`). */
  function EnsureProdJdk(fs: Fs, decode: seq<byte> -> Option<seq<Zip.Entry>>, cache: Path, prod: Path): (r: Run<()>)
    requires |cache| == 4 && |prod| == 4
    ensures Exists(fs, prod) ==> r == Run(fs, Returns(()))
    ensures !Exists(fs, prod) ==>
      var u := Zip.UnzipTo(fs, decode, cache, prod[..3]);
      r.fs == u.fs && (r.exit.Returns? <==> u.exit.Returns? && u.exit.value.Ok?)
  {
    if Exists(fs, prod) then Run(fs, Returns(()))
    else
      var u := Zip.UnzipTo(fs, decode, cache, prod[..3]);
      match u.exit
      case Panics(m) => Run(u.fs, Panics(m))
      case Returns(Err(_)) => Run(u.fs, Panics("error while unzipping the JDK"))
      case Returns(Ok(_)) => Run(u.fs, Returns(()))
  }

  /** How far one half of `start` got: the filesystem it left, how it
      ended and the GETs it sent. */
  datatype Prepared = Prepared(fs: Fs, exit: Exit<Result<(), CommandError>>, requests: seq<string>)

  /** Whether the download of the cached file `cache` sends its GET: the
      cache path is absent, and so is the path the client saves to, whose
      directory can be created. */
  predicate Asks(fs: Fs, host: HttpClient.Host, cache: Path)
    requires |cache| == 4
  {
    && !Exists(fs, cache)
    && CreateDirAll(fs, HttpClient.SavedDir(host, cache[1], cache[2])).Ok?
    && !Exists(fs, HttpClient.SavedFile(host, cache[1], cache[2], cache[3]))
  }

  /** The jar half of `start`: the jar is downloaded if not cached, then
      copied to production if not there. A copy error is returned; a
      download that cannot create its directory panics. */
  function StageJar(fs: Fs, host: HttpClient.Host, inst: ConfigInstaller, appReply: Reply): (r: Prepared)
    ensures r.requests == if Asks(fs, host, AppCache(inst)) then [HttpClient.DownloadUrl(host, inst.softwareName, inst.softwareVersion)] else []
    ensures Exists(fs, AppCache(inst)) && Exists(fs, AppProd(inst)) ==> r == Prepared(fs, Returns(Ok(())), [])
    ensures r.exit.Returns? && r.exit.value.Err? ==> r.exit.value.error.Io?
    ensures var app := EnsureCached(fs, host, AppCache(inst), appReply);
      && (r.exit.Panics? <==> app.exit.Panics?)
      && (app.exit.Returns? ==>
            var jar := EnsureProdJar(app.fs, AppCache(inst), AppProd(inst));
            r.fs == jar.fs && (r.exit == Returns(Ok(())) <==> jar.result.Ok?))
    ensures r.exit == Returns(Ok(())) ==> Exists(r.fs, AppProd(inst))
    ensures r.exit == Returns(Ok(())) && !Exists(fs, AppProd(inst)) && host.root != ROOT_PATH_PROD ==> IsFile(r.fs, AppProd(inst))
    ensures Keeps(fs, r.fs)
  {
    var app := EnsureCached(fs, host, AppCache(inst), appReply);
    var asked := Requested(app.request);
    if app.exit.Panics? then Prepared(app.fs, Panics(app.exit.reason), asked)
    else
      var jar := EnsureProdJar(app.fs, AppCache(inst), AppProd(inst));
      if jar.result.Err? then Prepared(jar.fs, Returns(Err(Io(jar.result.error))), asked)
      else Prepared(jar.fs, Returns(Ok(())), asked)
  }

  /** The JDK half of `start`: the JDK archive is downloaded if not cached,
      then expanded if the JDK directory is not there. Every failure here
      panics, so this half never returns an error. */
  function StageJdk(fs: Fs, host: HttpClient.Host, inst: ConfigInstaller, jdkReply: Reply,
                    decode: seq<byte> -> Option<seq<Zip.Entry>>): (r: Prepared)
    ensures r.requests == if Asks(fs, host, JdkCache(inst)) then [HttpClient.DownloadUrl(host, inst.jdkName, inst.jdkVersion)] else []
    ensures r.exit.Returns? ==> r.exit.value == Ok(())
    ensures var cached := EnsureCached(fs, host, JdkCache(inst), jdkReply);
      && (cached.exit.Panics? ==> r.exit.Panics?)
      && (cached.exit.Returns? ==>
            var unzipped := EnsureProdJdk(cached.fs, decode, JdkCache(inst), JdkProd(inst));
            r.fs == unzipped.fs && (r.exit.Returns? <==> unzipped.exit.Returns?))
    ensures Exists(fs, JdkCache(inst)) && Exists(fs, JdkProd(inst)) ==> r == Prepared(fs, Returns(Ok(())), [])
    ensures Exists(fs, JdkCache(inst)) && !Exists(fs, JdkProd(inst)) ==>
      var u := Zip.UnzipTo(fs, decode, JdkCache(inst), JdkProd(inst)[..3]);
      r.fs == u.fs && (r.exit.Returns? <==> u.exit.Returns? && u.exit.value.Ok?)
    ensures r.exit.Returns? && !Exists(fs, JdkProd(inst)) && host.root != ROOT_PATH_PROD ==>
      var cached := EnsureCached(fs, host, JdkCache(inst), jdkReply);
      r.fs == Zip.UnzipTo(cached.fs, decode, JdkCache(inst), JdkProd(inst)[..3]).fs
  {
    var cached := EnsureCached(fs, host, JdkCache(inst), jdkReply);
    var asked := Requested(cached.request);
    if cached.exit.Panics? then Prepared(cached.fs, Panics(cached.exit.reason), asked)
    else
      var unzipped := EnsureProdJdk(cached.fs, decode, JdkCache(inst), JdkProd(inst));
      assert !Exists(fs, JdkProd(inst)) && host.root != ROOT_PATH_PROD ==> !Exists(cached.fs, JdkProd(inst)) by {
        if !Exists(fs, JdkProd(inst)) && host.root != ROOT_PATH_PROD {
          CachedElsewhere(fs, host, JdkCache(inst), jdkReply, JdkProd(inst));
        }
      }
      match unzipped.exit
      case Panics(m) => Prepared(unzipped.fs, Panics(m), asked)
      case Returns(_) => Prepared(unzipped.fs, Returns(Ok(())), asked)
  }

  /** The JDK half keeps every file, except possibly the working copy of
      the archive, which it deletes after expanding it. */
  lemma StageJdkKeepsFiles(fs: Fs, host: HttpClient.Host, inst: ConfigInstaller, jdkReply: Reply,
                           decode: seq<byte> -> Option<seq<Zip.Entry>>, q: Path)
    requires IsFile(fs, q) && q != Zip.WorkingCopy(JdkCache(inst), JdkProd(inst)[..3])
    ensures IsFile(StageJdk(fs, host, inst, jdkReply, decode).fs, q)
  {
    var cached := EnsureCached(fs, host, JdkCache(inst), jdkReply);
    if cached.exit.Returns? && !Exists(cached.fs, JdkProd(inst)) {
      Zip.UnzipKeepsFiles(cached.fs, decode, JdkCache(inst), JdkProd(inst)[..3], q);
    }
  }

  /** Everything `start` does for one installer once it has it: the jar
      half, then, if it succeeded, the JDK half on the filesystem the jar
      half left; then the production jar and JDK directory are launched. */
  function Stage(fs: Fs, host: HttpClient.Host, inst: ConfigInstaller, appReply: Reply, jdkReply: Reply,
                 decode: seq<byte> -> Option<seq<Zip.Entry>>): (r: Staging)
    ensures |r.requests| <= 2
    ensures r.exit.Returns? && r.exit.value.Ok? ==> r.exit.value.value == Launch(AppProd(inst), JdkProd(inst))
    ensures Exists(fs, AppCache(inst)) && Exists(fs, JdkCache(inst)) ==> r.requests == []
    ensures Exists(fs, AppCache(inst)) && Exists(fs, AppProd(inst)) && Exists(fs, JdkCache(inst)) && Exists(fs, JdkProd(inst)) ==>
      r == Staging(fs, Returns(Ok(Launch(AppProd(inst), JdkProd(inst)))), [])
    ensures var jar := StageJar(fs, host, inst, appReply);
      && (jar.exit != Returns(Ok(())) ==> r.fs == jar.fs && r.requests == jar.requests && (r.exit.Panics? <==> jar.exit.Panics?))
      && (jar.exit == Returns(Ok(())) ==>
            var jdk := StageJdk(jar.fs, host, inst, jdkReply, decode);
            r.fs == jdk.fs && r.requests == jar.requests + jdk.requests && (r.exit.Returns? <==> jdk.exit.Returns?))
  {
    var jar := StageJar(fs, host, inst, appReply);
    match jar.exit
    case Panics(m) => Staging(jar.fs, Panics(m), jar.requests)
    case Returns(Err(e)) => Staging(jar.fs, Returns(Err(e)), jar.requests)
    case Returns(Ok(_)) =>
      var jdk := StageJdk(jar.fs, host, inst, jdkReply, decode);
      assert Exists(fs, JdkCache(inst)) ==> Exists(jar.fs, JdkCache(inst));
      var asked := jar.requests + jdk.requests;
      match jdk.exit
      case Panics(m) => Staging(jdk.fs, Panics(m), asked)
      case Returns(_) => Staging(jdk.fs, Returns(Ok(Launch(AppProd(inst), JdkProd(inst)))), asked)
  }

  /** The GETs `start` sends: the jar's first, exactly when its download
      asks on the original filesystem; then the JDK's, exactly when its
      download asks on the filesystem the jar half left. */
  lemma StageRequests(fs: Fs, host: HttpClient.Host, inst: ConfigInstaller, appReply: Reply, jdkReply: Reply,
                      decode: seq<byte> -> Option<seq<Zip.Entry>>)
    ensures var r, jar := Stage(fs, host, inst, appReply, jdkReply, decode), StageJar(fs, host, inst, appReply);
      var appUrl, jdkUrl := HttpClient.DownloadUrl(host, inst.softwareName, inst.softwareVersion), HttpClient.DownloadUrl(host, inst.jdkName, inst.jdkVersion);
      && (Asks(fs, host, AppCache(inst)) ==> 0 < |r.requests| && r.requests[0] == appUrl)
      && (!Asks(fs, host, AppCache(inst)) ==> |r.requests| <= 1 && forall i | 0 <= i < |r.requests| :: r.requests[i] == jdkUrl)
      && (jar.exit != Returns(Ok(())) ==> r.requests == jar.requests)
      && (jar.exit == Returns(Ok(())) ==> r.requests == jar.requests + if Asks(jar.fs, host, JdkCache(inst)) then [jdkUrl] else [])
  {
  }

  /** After a successful `start`, a production jar that was absent is a
      file, unless the JDK's working copy has the very same path and is
      removed after expansion, or the download root is the production
      root itself. */
  lemma StageLeavesJar(fs: Fs, host: HttpClient.Host, inst: ConfigInstaller, appReply: Reply, jdkReply: Reply,
                       decode: seq<byte> -> Option<seq<Zip.Entry>>)
    ensures var r := Stage(fs, host, inst, appReply, jdkReply, decode);
      r.exit.Returns? && r.exit.value.Ok? && !Exists(fs, AppProd(inst)) && host.root != ROOT_PATH_PROD
      && AppProd(inst) != Zip.WorkingCopy(JdkCache(inst), JdkProd(inst)[..3]) ==>
        IsFile(r.fs, AppProd(inst))
  {
    var jar := StageJar(fs, host, inst, appReply);
    if jar.exit == Returns(Ok(())) && !Exists(fs, AppProd(inst)) && host.root != ROOT_PATH_PROD
       && AppProd(inst) != Zip.WorkingCopy(JdkCache(inst), JdkProd(inst)[..3]) {
      StageJdkKeepsFiles(jar.fs, host, inst, jdkReply, decode, AppProd(inst));
    }
  }

  /** When the JDK directory is missing, the filesystem `start` leaves is
      the one the archive's expansion produced from the cached archive. */
  lemma StageExpandsJdk(fs: Fs, host: HttpClient.Host, inst: ConfigInstaller, appReply: Reply, jdkReply: Reply,
                        decode: seq<byte> -> Option<seq<Zip.Entry>>)
    ensures var r, jar := Stage(fs, host, inst, appReply, jdkReply, decode), StageJar(fs, host, inst, appReply);
      && (r.exit.Returns? && r.exit.value.Ok? && !Exists(jar.fs, JdkProd(inst)) && host.root != ROOT_PATH_PROD ==>
            r.fs == Zip.UnzipTo(EnsureCached(jar.fs, host, JdkCache(inst), jdkReply).fs, decode, JdkCache(inst), JdkProd(inst)[..3]).fs)
      && (Exists(fs, AppCache(inst)) && Exists(fs, AppProd(inst)) && Exists(fs, JdkCache(inst)) && !Exists(fs, JdkProd(inst)) ==>
            var u := Zip.UnzipTo(fs, decode, JdkCache(inst), JdkProd(inst)[..3]);
            r.fs == u.fs && (r.exit.Returns? <==> u.exit.Returns? && u.exit.value.Ok?))
  {
  }

  /** Every path of `fs` in `files` is a file, and every other one is a
      directory less than four components deep, so no file stands in the
      way of the directories `start` creates. */
  predicate DirsBesides(fs: Fs, files: set<Path>) {
    forall q | q in fs :: if q in files then fs[q].File? else |q| < 4 && fs[q].Dir?
  }

  /** Creating directories less than four deep succeeds and keeps the
      filesystem bare outside the same files. */
  lemma CreateAmongDirs(fs: Fs, p: Path, files: set<Path>)
    requires DirsBesides(fs, files) && |p| < 4
    requires forall f | f in files :: |f| == 4
    ensures CreateDirAll(fs, p).Ok?
    ensures DirsBesides(CreateDirAll(fs, p).value, files)
  {
    forall i | 1 <= i <= |p|
      ensures !IsFile(fs, p[..i])
    {
      assert |p[..i]| < 4;
    }
    var r := CreateDirAll(fs, p).value;
    CreateDirAllAddsDirs(fs, p);
    forall q | q in r
      ensures if q in files then r[q].File? else |q| < 4 && r[q].Dir?
    {
      if q !in fs {
        assert q <= p;
      }
    }
  }

  /** A download into a bare filesystem with a full 200 reply adds only
      its saved file besides directories. */
  lemma CachedAmongDirs(fs: Fs, host: HttpClient.Host, cache: Path, body: seq<byte>, files: set<Path>)
    requires |cache| == 4 && DirsBesides(fs, files) && forall f | f in files :: |f| == 4
    ensures DirsBesides(EnsureCached(fs, host, cache, Response(200, body, true)).fs, files + {HttpClient.SavedFile(host, cache[1], cache[2], cache[3])})
  {
    var c := EnsureCached(fs, host, cache, Response(200, body, true));
    var d := HttpClient.Download(fs, host, cache[1], cache[2], cache[3], Response(200, body, true));
    var saved := HttpClient.SavedFile(host, cache[1], cache[2], cache[3]);
    HttpClient.DownloadAddsDirs(fs, host, cache[1], cache[2], cache[3], Response(200, body, true));
    forall q | q in c.fs
      ensures if q in files + {saved} then c.fs[q].File? else |q| < 4 && c.fs[q].Dir?
    {
      if q !in fs {
        assert q <= saved;
        if q == saved {
          assert !Exists(fs, cache) && d.request.Some?;
        }
      }
    }
  }

  /** A copy adds only its destination. */
  lemma CopyAmongDirs(fs: Fs, from: Path, to: Path, files: set<Path>)
    requires DirsBesides(fs, files) && CopyFile(fs, from, to).Ok?
    ensures DirsBesides(CopyFile(fs, from, to).value, files + {to})
  {
  }

  /** A download on a bare filesystem sends its GET and, on a full 200
      reply, saves the body, adding only that file besides directories. */
  lemma CachedFresh(fs: Fs, host: HttpClient.Host, cache: Path, body: seq<byte>, files: set<Path>)
    requires |cache| == 4 && host.root == cache[0]
    requires DirsBesides(fs, files) && (forall f | f in files :: |f| == 4) && cache !in files
    ensures Asks(fs, host, cache)
    ensures var r := EnsureCached(fs, host, cache, Response(200, body, true));
      && r.exit.Returns? && r.request.Some? && IsFile(r.fs, cache) && r.fs[cache].data == body
      && DirsBesides(r.fs, files + {cache})
  {
    assert HttpClient.SavedFile(host, cache[1], cache[2], cache[3]) == cache;
    CreateAmongDirs(fs, HttpClient.SavedDir(host, cache[1], cache[2]), files);
    CachedAmongDirs(fs, host, cache, body, files);
  }

  /** Copying the cached jar to an absent production path on a bare
      filesystem succeeds. */
  lemma CopiedFresh(fs: Fs, cache: Path, prod: Path, files: set<Path>)
    requires |prod| == 4 && IsFile(fs, cache) && prod !in fs && prod !in files
    requires DirsBesides(fs, files) && (forall f | f in files :: |f| == 4)
    ensures var r := EnsureProdJar(fs, cache, prod);
      r.result.Ok? && DirsBesides(r.fs, files + {prod})
  {
    CreateAmongDirs(fs, prod[..3], files);
    var fs1 := CreateDirAll(fs, prod[..3]).value;
    assert prod !in fs1;
    CopyAmongDirs(fs1, cache, prod, files);
  }

  /** The jar half on a filesystem of bare directories: a full 200 reply
      is saved and copied to production, after one GET. */
  lemma StageJarFresh(fs: Fs, host: HttpClient.Host, inst: ConfigInstaller, jar: seq<byte>)
    requires host.root == ROOT_PATH_SOFTWARE
    requires DirsBesides(fs, {})
    ensures var r := StageJar(fs, host, inst, Response(200, jar, true));
      && r.exit == Returns(Ok(()))
      && r.requests == [HttpClient.DownloadUrl(host, inst.softwareName, inst.softwareVersion)]
      && DirsBesides(r.fs, {AppCache(inst), AppProd(inst)})
  {
    var appCache, appProd := AppCache(inst), AppProd(inst);
    JarCachedFresh(fs, host, inst, jar);
    var app := EnsureCached(fs, host, appCache, Response(200, jar, true));
    CopiedFresh(app.fs, appCache, appProd, {appCache});
    assert {appCache} + {appProd} == {appCache, appProd};
  }

  /** The jar's download on such a filesystem: one GET, the cached jar
      written, and still no production jar. */
  lemma JarCachedFresh(fs: Fs, host: HttpClient.Host, inst: ConfigInstaller, jar: seq<byte>)
    requires host.root == ROOT_PATH_SOFTWARE
    requires DirsBesides(fs, {})
    ensures Asks(fs, host, AppCache(inst))
    ensures var app := EnsureCached(fs, host, AppCache(inst), Response(200, jar, true));
      && app.exit.Returns? && IsFile(app.fs, AppCache(inst))
      && AppProd(inst) !in app.fs && DirsBesides(app.fs, {AppCache(inst)})
  {
    var appCache := AppCache(inst);
    CachedFresh(fs, host, appCache, jar, {});
    assert {} + {appCache} == {appCache};
  }

  /** Expanding an archive with no entries from a bare filesystem into an
      absent directory succeeds. */
  lemma UnzipFresh(fs: Fs, decode: seq<byte> -> Option<seq<Zip.Entry>>, cache: Path, prod: Path, files: set<Path>)
    requires |cache| == 4 && |prod| == 4 && cache[0] != prod[0]
    requires IsFile(fs, cache) && decode(fs[cache].data) == Some([])
    requires DirsBesides(fs, files) && (forall f | f in files :: |f| == 4)
    ensures EnsureProdJdk(fs, decode, cache, prod).exit.Returns?
  {
    if !Exists(fs, prod) {
      var target := Zip.WorkingCopy(cache, prod[..3]);
      CreateAmongDirs(fs, prod[..3], files);
      var made := CreateDirAll(fs, prod[..3]).value;
      assert |target| == 4 && target[..3] == prod[..3];
      assert !IsDir(made, target);
      var fs2 := CopyFile(made, cache, target).value;
      assert fs2[target].data == fs[cache].data;
      assert Zip.UnzipFile(fs2, decode, target) == Effect(fs2, Ok(()));
    }
  }

  /** The JDK half after that: a full 200 reply for an archive with no
      entries is saved and expanded, after one GET. */
  lemma StageJdkFresh(fs: Fs, host: HttpClient.Host, inst: ConfigInstaller, jdk: seq<byte>,
                      decode: seq<byte> -> Option<seq<Zip.Entry>>)
    requires host.root == ROOT_PATH_SOFTWARE
    requires DirsBesides(fs, {AppCache(inst), AppProd(inst)})
    requires AppCache(inst) != JdkCache(inst)
    requires decode(jdk) == Some([])
    ensures var r := StageJdk(fs, host, inst, Response(200, jdk, true), decode);
      r.exit == Returns(Ok(())) && r.requests == [HttpClient.DownloadUrl(host, inst.jdkName, inst.jdkVersion)]
  {
    var files := {AppCache(inst), AppProd(inst)};
    CachedFresh(fs, host, JdkCache(inst), jdk, files);
    var cached := EnsureCached(fs, host, JdkCache(inst), Response(200, jdk, true));
    UnzipFresh(cached.fs, decode, JdkCache(inst), JdkProd(inst), files + {JdkCache(inst)});
  }

  /** When both halves succeed, `start` launches the production jar and
      JDK; the JDK half never turns into an error. */
  lemma StageLaunches(fs: Fs, host: HttpClient.Host, inst: ConfigInstaller, appReply: Reply, jdkReply: Reply,
                      decode: seq<byte> -> Option<seq<Zip.Entry>>)
    requires StageJar(fs, host, inst, appReply).exit == Returns(Ok(()))
    requires StageJdk(StageJar(fs, host, inst, appReply).fs, host, inst, jdkReply, decode).exit.Returns?
    ensures var half := StageJar(fs, host, inst, appReply);
      var r := Stage(fs, host, inst, appReply, jdkReply, decode);
      && r.exit == Returns(Ok(Launch(AppProd(inst), JdkProd(inst))))
      && r.requests == half.requests + StageJdk(half.fs, host, inst, jdkReply, decode).requests
  {
  }

  /** A fresh `start`: when nothing of the installer is on disk yet and no
      file blocks its directories, both downloads answer 200 in full, and
      the JDK archive decodes to an archive with no entries, `start` sends
      both GETs, in order, and launches the production jar and JDK. */
  lemma StageFreshSucceeds(fs: Fs, host: HttpClient.Host, inst: ConfigInstaller, jar: seq<byte>, jdk: seq<byte>,
                           decode: seq<byte> -> Option<seq<Zip.Entry>>)
    requires host.root == ROOT_PATH_SOFTWARE
    requires DirsBesides(fs, {})
    requires AppCache(inst) != JdkCache(inst)
    requires decode(jdk) == Some([])
    ensures var r := Stage(fs, host, inst, Response(200, jar, true), Response(200, jdk, true), decode);
      && r.exit == Returns(Ok(Launch(AppProd(inst), JdkProd(inst))))
      && r.requests == [HttpClient.DownloadUrl(host, inst.softwareName, inst.softwareVersion), HttpClient.DownloadUrl(host, inst.jdkName, inst.jdkVersion)]
  {
    StageJarFresh(fs, host, inst, jar);
    var half := StageJar(fs, host, inst, Response(200, jar, true));
    StageJdkFresh(half.fs, host, inst, jdk, decode);
    StageLaunches(fs, host, inst, Response(200, jar, true), Response(200, jdk, true), decode);
  }

  /** The download's outcome is ignored: when the jar download fails, `start`
      still goes on to copy the jar it does not have, and returns the copy's
      error. */
  lemma StageCopiesAfterFailedDownload(fs: Fs, host: HttpClient.Host, inst: ConfigInstaller, appReply: Reply, jdkReply: Reply,
                                       decode: seq<byte> -> Option<seq<Zip.Entry>>)
    requires host.root == ROOT_PATH_SOFTWARE
    requires forall i | 0 <= i <= 3 :: IsDir(fs, AppCache(inst)[..i]) && IsDir(fs, AppProd(inst)[..i])
    requires !Exists(fs, AppCache(inst)) && !Exists(fs, AppProd(inst))
    requires !(appReply.Response? && appReply.status == 200)
    ensures var r := Stage(fs, host, inst, appReply, jdkReply, decode);
      && r.exit == Returns(Err(Io(NotFound(AppCache(inst)))))
      && r.requests == [HttpClient.DownloadUrl(host, inst.softwareName, inst.softwareVersion)]
      && r.fs == fs
  {
    var dir := AppCache(inst)[..3];
    assert forall i | 0 <= i <= |dir| :: dir[..i] == AppCache(inst)[..i];
    CreateDirAllExisting(fs, dir);
    assert HttpClient.SavedDir(host, inst.softwareName, inst.softwareVersion) == dir;
    assert HttpClient.SavedFile(host, inst.softwareName, inst.softwareVersion, inst.softwareFileName) == AppCache(inst);
    var prodDir := AppProd(inst)[..3];
    assert forall i | 0 <= i <= |prodDir| :: prodDir[..i] == AppProd(inst)[..i];
    CreateDirAllExisting(fs, prodDir);
  }

  const NO_INSTALLER: string := "no installer found; run `blocklang-installer register` first"
  const UNWRAP_NONE: string := "called `Option::unwrap()` on a `None` value"

  /** `start` as written. An unreadable file is an error and a missing
      list panics; then the assertion demands an EMPTY list, and on an
      empty list `get(0).unwrap()` panics, so no run ever reaches staging. */
  function Start(fs: Fs, host: HttpClient.Host, stored: Stored<Config>, appReply: Reply, jdkReply: Reply,
                 decode: seq<byte> -> Option<seq<Zip.Entry>>): (r: Staging)
    ensures r.fs == fs && r.requests == []
    ensures r.exit.Returns? <==> !stored.Parsed?
    ensures r.exit.Returns? ==> r.exit.value == Err(ConfigUnreadable)
  {
    match stored
    case Parsed(config) =>
      if config.installers.None? then Staging(fs, Panics(UNWRAP_NONE), [])
      else if |config.installers.value| >= 1 then Staging(fs, Panics(NO_INSTALLER), [])
      else Staging(fs, Panics(UNWRAP_NONE), [])
    case _ => Staging(fs, Returns(Err(ConfigUnreadable)), [])
  }

  /** `start` with the assertion the message describes (at least one
      installer): the first installer is staged. */
  function StartFixed(fs: Fs, host: HttpClient.Host, stored: Stored<Config>, appReply: Reply, jdkReply: Reply,
                      decode: seq<byte> -> Option<seq<Zip.Entry>>): (r: Staging)
    ensures !stored.Parsed? ==> r == Staging(fs, Returns(Err(ConfigUnreadable)), [])
    ensures stored.Parsed? && (stored.value.installers.None? || |stored.value.installers.value| == 0) ==>
      r.exit.Panics? && r.fs == fs && r.requests == []
    ensures stored.Parsed? && stored.value.installers.Some? && 0 < |stored.value.installers.value| ==>
      r == Stage(fs, host, stored.value.installers.value[0], appReply, jdkReply, decode)
  {
    match stored
    case Parsed(config) =>
      if config.installers.None? then Staging(fs, Panics(UNWRAP_NONE), [])
      else if |config.installers.value| == 0 then Staging(fs, Panics(NO_INSTALLER), [])
      else Stage(fs, host, config.installers.value[0], appReply, jdkReply, decode)
    case _ => Staging(fs, Returns(Err(ConfigUnreadable)), [])
  }

  /** How `stop` ends: `Some(command)` when a process was found and killed
      with `command`, `None` when no process listens on the port. */
  type Stopped = Exit<Result<Option<Process.Command>, CommandError>>

  /** `stop` as written: the same guards as `start`, so it never looks for
      the process. */
  function Stop(stored: Stored<Config>, os: Process.Os, netstat: Option<seq<string>>, spawns: bool): (r: Stopped)
    ensures r.Returns? <==> !stored.Parsed?
    ensures r.Returns? ==> r.value == Err(ConfigUnreadable)
  {
    match stored
    case Parsed(config) =>
      if config.installers.None? then Panics(UNWRAP_NONE)
      else if |config.installers.value| >= 1 then Panics(NO_INSTALLER)
      else Panics(UNWRAP_NONE)
    case _ => Returns(Err(ConfigUnreadable))
  }

  /** The first installer, when the file is readable and lists one. */
  function FirstInstaller(stored: Stored<Config>): Option<ConfigInstaller> {
    if stored.Parsed? && stored.value.installers.Some? && 0 < |stored.value.installers.value|
    then Some(stored.value.installers.value[0]) else None
  }

  /** `stop` with the assertion the message describes: the process listening
      on the first installer's port is looked up and, if there is one,
      killed; if there is none, `stop` only reports it and succeeds. */
  function StopFixed(stored: Stored<Config>, os: Process.Os, netstat: Option<seq<string>>, spawns: bool): (r: Stopped)
    ensures !stored.Parsed? ==> r == Returns(Err(ConfigUnreadable))
    ensures stored.Parsed? && FirstInstaller(stored).None? ==> r.Panics?
    ensures r == Returns(Ok(None)) <==>
      FirstInstaller(stored).Some? && Process.GetId(os, netstat, FirstInstaller(stored).value.softwareRunPort) == Returns(None)
    ensures r.Returns? && r.value.Ok? && r.value.value.Some? ==>
      && FirstInstaller(stored).Some?
      && var found := Process.GetId(os, netstat, FirstInstaller(stored).value.softwareRunPort);
      && found.Returns? && found.value.Some?
      && |r.value.value.value.args| == 2
      && Process.TrailingNumber(r.value.value.value.args[1]) == Some(found.value.value)
    ensures FirstInstaller(stored).Some? && Process.GetId(os, netstat, FirstInstaller(stored).value.softwareRunPort).Panics? ==> r.Panics?
    ensures FirstInstaller(stored).Some? ==>
      var found := Process.GetId(os, netstat, FirstInstaller(stored).value.softwareRunPort);
      found.Returns? && found.value.Some? ==>
        var killed := Process.Kill(os, found.value.value, spawns);
        && (r.Panics? <==> killed.Panics?)
        && (r.Returns? ==> r.value == Ok(Some(killed.value)))
  {
    match stored
    case Parsed(config) =>
      if config.installers.None? then Panics(UNWRAP_NONE)
      else if |config.installers.value| == 0 then Panics(NO_INSTALLER)
      else
        (match Process.GetId(os, netstat, config.installers.value[0].softwareRunPort)
         case Panics(m) => Panics(m)
         case Returns(None) => Returns(Ok(None))
         case Returns(Some(pid)) =>
           (match Process.Kill(os, pid, spawns)
            case Panics(m) => Panics(m)
            case Returns(command) => Returns(Ok(Some(command)))))
    case _ => Returns(Err(ConfigUnreadable))
  }

  /** The installer `config::save` writes for a registration: its fields,
      with this host's MAC as the server token. */
  predicate Saves(inst: ConfigInstaller, reg: Registration, mac: string) {
    && inst.url == reg.url && inst.token == reg.token && inst.serverToken == mac
    && inst.softwareName == reg.softwareName && inst.softwareVersion == reg.softwareVersion
    && inst.softwareFileName == reg.softwareFileName && inst.softwareRunPort == reg.softwareRunPort
    && inst.jdkName == reg.jdkName && inst.jdkVersion == reg.jdkVersion && inst.jdkFileName == reg.jdkFileName
  }

  /** `register`: the platform's answer (an error is returned), then
      `config::save`, which overwrites the whole file with a single
      installer and panics when the host has no usable network interface.
      The result is the configuration written. */
  function Register(remote: Result<Registration, string>, iface: Option<Net.InterfaceAddr>): (r: Exit<Result<Config, CommandError>>)
    ensures remote.Err? ==> r == Returns(Err(RegisterFailed))
    ensures remote.Ok? && iface.None? ==> r.Panics?
    ensures remote.Ok? && iface.Some? ==>
      && r.Returns? && r.value.Ok? && r.value.value.installers.Some?
      && |r.value.value.installers.value| == 1
      && Saves(r.value.value.installers.value[0], remote.value, iface.value.macAddress)
  {
    match remote
    case Err(_) => Returns(Err(RegisterFailed))
    case Ok(reg) =>
      match iface
      case None => Panics("no usable network interface")
      case Some(addr) =>
        Returns(Ok(Config(Some([ConfigInstaller(reg.url, reg.token, addr.macAddress,
          reg.softwareName, reg.softwareVersion, reg.softwareFileName, reg.softwareRunPort,
          reg.jdkName, reg.jdkVersion, reg.jdkFileName)]))))
  }

  /** Right after a successful `register`, `start` as written panics on
      its assertion, while the corrected `start` stages exactly the
      registered software and JDK. */
  lemma StartAfterRegister(fs: Fs, host: HttpClient.Host, reg: Registration, addr: Net.InterfaceAddr,
                           appReply: Reply, jdkReply: Reply, decode: seq<byte> -> Option<seq<Zip.Entry>>)
    ensures var saved := Register(Ok(reg), Some(addr)).value.value;
      && Start(fs, host, Parsed(saved), appReply, jdkReply, decode).exit == Panics(NO_INSTALLER)
      && var inst := saved.installers.value[0];
      && AppCache(inst) == [ROOT_PATH_SOFTWARE, reg.softwareName, reg.softwareVersion, reg.softwareFileName]
      && JdkProd(inst) == [ROOT_PATH_PROD, reg.jdkName, reg.jdkVersion, "jdk-" + reg.jdkVersion]
      && StartFixed(fs, host, Parsed(saved), appReply, jdkReply, decode) == Stage(fs, host, inst, appReply, jdkReply, decode)
  {
  }

  /** Right after a successful `register`, `stop` as written panics on its
      assertion, while the corrected `stop` looks up the registered port. */
  lemma StopAfterRegister(reg: Registration, addr: Net.InterfaceAddr, os: Process.Os, netstat: Option<seq<string>>, spawns: bool)
    ensures var saved := Register(Ok(reg), Some(addr)).value.value;
      && Stop(Parsed(saved), os, netstat, spawns) == Panics(NO_INSTALLER)
      && (StopFixed(Parsed(saved), os, netstat, spawns) == Returns(Ok(None))
          <==> Process.GetId(os, netstat, reg.softwareRunPort) == Returns(None))
      && (Process.GetId(os, netstat, reg.softwareRunPort).Returns? && Process.GetId(os, netstat, reg.softwareRunPort).value.Some? ==>
          var pid := Process.GetId(os, netstat, reg.softwareRunPort).value.value;
          StopFixed(Parsed(saved), os, netstat, spawns)
            == if spawns then Returns(Ok(Some(Process.Command("cmd", ["/C", Process.TASKKILL + " " + Text.Decimal(pid)]))))
               else Panics("failed to run " + Process.TASKKILL + " " + Text.Decimal(pid)))
  {
  }
}
