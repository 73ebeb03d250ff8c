/** The filesystem the installer works on, as a finite map from paths to
    nodes, with the `std::fs` operations it calls. Each primitive either
    succeeds or fails without changing anything. */
module FileSystem {
  import opened Ints
  import opened Wrappers
  import opened Text

  /** A relative path as its components; Rust compares `Path`s component
      by component, and so does sequence equality. The empty path is the
      working directory. */
  type Path = seq<string>

  /** A node; `mode` holds permission bits, `None` meaning those the OS
      gives a freshly created node. */
  datatype Node =
    | Dir(mode: Option<nat>)
    | File(data: seq<byte>, mode: Option<nat>)

  type Fs = map<Path, Node>

  /** Why an operation failed, with the path it failed on. */
  datatype IoError =
    | NotFound(path: Path)
    | NotADirectory(path: Path)
    | IsADirectory(path: Path)
    | InvalidArchive(path: Path)

  /** A sequence of operations that stops at its first error and keeps
      whatever it had done before. */
  datatype Effect<+T> = Effect(fs: Fs, result: Result<T, IoError>)

  /** A sequence of operations that may also panic; the filesystem is as
      the process left it. */
  datatype Run<+T> = Run(fs: Fs, exit: Exit<T>)

  /** `Path::is_dir`; the working directory always is one. */
  predicate IsDir(fs: Fs, p: Path) {
    |p| == 0 || (p in fs && fs[p].Dir?)
  }

  predicate IsFile(fs: Fs, p: Path) {
    p in fs && fs[p].File?
  }

  /** `Path::exists`. */
  predicate Exists(fs: Fs, p: Path) {
    |p| == 0 || p in fs
  }

  predicate IsSlash(c: char) {
    c == '/'
  }

  /** A path as the installer formats it, components joined by '/'. */
  function PathText(p: Path): string {
    Join(p, "/")
  }

  /** A path text names the components it was formatted from, when none of
      them holds a '/'. */
  lemma PathTextComponents(p: Path)
    requires 0 < |p| && forall k | 0 <= k < |p| :: NoSeparator(p[k], IsSlash)
    ensures SplitBy(PathText(p), IsSlash) == p
  {
    SplitByJoin(p, '/', IsSlash);
  }

  /** Every entry of `fs` is in `fs'` unchanged. */
  predicate Keeps(fs: Fs, fs': Fs) {
    forall q | q in fs :: q in fs' && fs'[q] == fs[q]
  }

  /** Every entry of `fs` other than `p` is in `fs'` unchanged. */
  predicate KeepsExcept(fs: Fs, fs': Fs, p: Path) {
    forall q | q in fs && q != p :: q in fs' && fs'[q] == fs[q]
  }

  /** `fs::create_dir_all`: every missing prefix of `p` becomes a directory;
      it fails on the first prefix that is a file. */
  function CreateDirAll(fs: Fs, p: Path): (r: Result<Fs, IoError>)
    ensures r.Ok? <==> forall i | 1 <= i <= |p| :: !IsFile(fs, p[..i])
    ensures r.Ok? ==> forall i | 0 <= i <= |p| :: IsDir(r.value, p[..i])
    ensures r.Ok? ==> Keeps(fs, r.value)
    ensures r.Ok? ==> forall q | q in r.value && q !in fs :: q <= p
    decreases |p|
  {
    if |p| == 0 then Ok(fs)
    else
      var up := p[..|p| - 1];
      assert forall i | 1 <= i <= |up| :: up[..i] == p[..i];
      assert p[..|p|] == p && !(p <= up);
      match CreateDirAll(fs, up)
      case Err(e) => Err(e)
      case Ok(fs1) =>
        if p !in fs1 then Ok(fs1[p := Dir(None)])
        else if fs1[p].Dir? then Ok(fs1)
        else Err(NotADirectory(p))
  }

  /** Every path `create_dir_all` adds is a directory, never the working
      directory itself. */
  lemma {:induction false} CreateDirAllAddsDirs(fs: Fs, p: Path)
    requires CreateDirAll(fs, p).Ok?
    ensures forall q | q in CreateDirAll(fs, p).value && q !in fs :: 0 < |q| && CreateDirAll(fs, p).value[q].Dir?
    decreases |p|
  {
    if |p| > 0 {
      var up := p[..|p| - 1];
      assert forall i | 1 <= i <= |up| :: up[..i] == p[..i];
      CreateDirAllAddsDirs(fs, up);
    }
  }

  /** Creating directories that all exist already changes nothing. */
  lemma {:induction false} CreateDirAllExisting(fs: Fs, p: Path)
    requires forall i | 0 <= i <= |p| :: IsDir(fs, p[..i])
    ensures CreateDirAll(fs, p) == Ok(fs)
    decreases |p|
  {
    if |p| > 0 {
      var up := p[..|p| - 1];
      assert forall i | 0 <= i <= |up| :: up[..i] == p[..i];
      CreateDirAllExisting(fs, up);
      assert p[..|p|] == p;
    }
  }

  /** A prefix of a path's parent is a prefix of the path. */
  lemma PrefixOfParent(q: Path, p: Path)
    requires 0 < |p| && q <= p[..|p| - 1]
    ensures q <= p
  {
    assert q == p[..|q|];
  }

  /** `File::create` followed by writing `data`: the parent must be a
      directory and `p` must not be one; a replaced file keeps its mode. */
  function WriteFile(fs: Fs, p: Path, data: seq<byte>): (r: Result<Fs, IoError>)
    ensures r.Ok? <==> 0 < |p| && IsDir(fs, p[..|p| - 1]) && !IsDir(fs, p)
    ensures r.Ok? ==> r.value.Keys == fs.Keys + {p} && KeepsExcept(fs, r.value, p)
    ensures r.Ok? ==> r.value[p].File? && r.value[p].data == data
  {
    if |p| == 0 then Err(NotFound(p))
    else if !IsDir(fs, p[..|p| - 1]) then
      (if p[..|p| - 1] in fs then Err(NotADirectory(p[..|p| - 1])) else Err(NotFound(p[..|p| - 1])))
    else if p in fs && fs[p].Dir? then Err(IsADirectory(p))
    else Ok(fs[p := File(data, if p in fs then fs[p].mode else None)])
  }

  /** `fs::copy`: the destination gets the source's contents and mode. */
  function CopyFile(fs: Fs, from: Path, to: Path): (r: Result<Fs, IoError>)
    ensures r.Ok? <==> IsFile(fs, from) && 0 < |to| && IsDir(fs, to[..|to| - 1]) && !IsDir(fs, to)
    ensures r.Ok? ==> r.value.Keys == fs.Keys + {to} && KeepsExcept(fs, r.value, to)
    ensures r.Ok? ==> r.value[to] == fs[from]
  {
    if !IsFile(fs, from) then Err(NotFound(from))
    else match WriteFile(fs, to, fs[from].data)
      case Err(e) => Err(e)
      case Ok(fs1) => Ok(fs1[to := fs[from]])
  }

  /** `fs::set_permissions`. */
  function SetMode(fs: Fs, p: Path, mode: nat): (r: Result<Fs, IoError>)
    ensures r.Ok? <==> p in fs
    ensures r.Ok? ==> r.value.Keys == fs.Keys && KeepsExcept(fs, r.value, p)
    ensures r.Ok? ==> r.value[p].mode == Some(mode) && r.value[p].Dir? == fs[p].Dir?
    ensures r.Ok? && fs[p].File? ==> r.value[p].data == fs[p].data
  {
    if p !in fs then Err(NotFound(p))
    else match fs[p]
      case Dir(_) => Ok(fs[p := Dir(Some(mode))])
      case File(data, _) => Ok(fs[p := File(data, Some(mode))])
  }

  /** `fs::remove_file`. */
  function RemoveFile(fs: Fs, p: Path): (r: Result<Fs, IoError>)
    ensures r.Ok? <==> IsFile(fs, p)
    ensures r.Ok? ==> r.value.Keys == fs.Keys - {p} && KeepsExcept(fs, r.value, p)
  {
    if p !in fs then Err(NotFound(p))
    else if fs[p].Dir? then Err(IsADirectory(p))
    else Ok(fs - {p})
  }

  /** Runs one primitive as a step of a longer sequence. */
  function Step(fs: Fs, r: Result<Fs, IoError>): Effect<()> {
    match r
    case Ok(fs') => Effect(fs', Ok(()))
    case Err(e) => Effect(fs, Err(e))
  }
}
