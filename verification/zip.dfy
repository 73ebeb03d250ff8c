/** `src/util/zip.rs`: expanding a zip archive next to itself, or next to a
    copy of it made in a target directory. Decoding the archive is a
    parameter: it yields the entries in archive order, or `None` when the
    bytes are not a zip archive. */
module Zip {
  import opened Ints
  import opened Wrappers
  import opened FileSystem

  /** One archive entry as the zip reader yields it: its stored `name`,
      its `sanitized_name` as path components, its uncompressed contents and
      its unix permission bits, if recorded. `Damaged` is an entry the
      reader cannot open (`by_index` fails). */
  datatype Entry =
    | Entry(name: string, path: Path, data: seq<byte>, unixMode: Option<nat>)
    | Damaged

  /** A stored name ending in '/' marks a directory entry. */
  predicate IsDirEntry(e: Entry) {
    e.Entry? && 0 < |e.name| && e.name[|e.name| - 1] == '/'
  }

  /** `q` is where some entry is written under `parent`. */
  predicate IsOutPath(parent: Path, entries: seq<Entry>, q: Path) {
    exists i | 0 <= i < |entries| :: entries[i].Entry? && parent + entries[i].path == q
  }

  /** No entry after the `i`-th is written where the `i`-th is. */
  predicate IsLastAt(parent: Path, entries: seq<Entry>, i: nat)
    requires i < |entries| && entries[i].Entry?
  {
    !IsOutPath(parent, entries[i + 1..], parent + entries[i].path)
  }

  /** The directory or file creation of one entry at `out`: a directory
      entry creates `out` and its parents; a file entry creates its parent
      if that does not exist, then creates or truncates `out` and writes
      the contents. */
  function Create(fs: Fs, out: Path, e: Entry): (r: Effect<()>)
    requires e.Entry?
    ensures fs.Keys <= r.fs.Keys && KeepsExcept(fs, r.fs, out)
    ensures forall q | q in r.fs && q !in fs :: q <= out
    ensures forall q | IsDir(fs, q) :: IsDir(r.fs, q)
    ensures forall q | IsFile(fs, q) :: IsFile(r.fs, q)
    ensures r.result.Ok? && IsDirEntry(e) ==> IsDir(r.fs, out)
    ensures r.result.Ok? && !IsDirEntry(e) ==> IsFile(r.fs, out) && r.fs[out].data == e.data
  {
    if IsDirEntry(e) then Step(fs, CreateDirAll(fs, out))
    else
      var made :=
        if 0 < |out| && !Exists(fs, out[..|out| - 1]) then Step(fs, CreateDirAll(fs, out[..|out| - 1]))
        else Effect(fs, Ok(()));
      assert forall q | q in made.fs && q !in fs :: q <= out by {
        forall q | q in made.fs && q !in fs
          ensures q <= out
        {
          PrefixOfParent(q, out);
        }
      }
      if made.result.Err? then made
      else Step(made.fs, WriteFile(made.fs, out, e.data))
  }

  /** One iteration of the loop in `unzip_file`: create the entry at
      `parent` joined with its sanitized name, then apply its unix mode if it
      has one. Every step's error is returned at once. */
  function ExtractEntry(fs: Fs, parent: Path, e: Entry): (r: Effect<()>)
    ensures e.Damaged? ==> r.result.Err? && r.fs == fs
    ensures fs.Keys <= r.fs.Keys
    ensures e.Entry? ==> KeepsExcept(fs, r.fs, parent + e.path)
    ensures e.Entry? ==> forall q | q in r.fs && q !in fs :: q <= parent + e.path
    ensures forall q | IsDir(fs, q) :: IsDir(r.fs, q)
    ensures forall q | IsFile(fs, q) :: IsFile(r.fs, q)
    ensures r.result.Ok? && IsDirEntry(e) ==> IsDir(r.fs, parent + e.path)
    ensures r.result.Ok? && e.Entry? && !IsDirEntry(e) ==> IsFile(r.fs, parent + e.path) && r.fs[parent + e.path].data == e.data
    ensures r.result.Ok? && e.Entry? && e.unixMode.Some? ==> parent + e.path in r.fs && r.fs[parent + e.path].mode == e.unixMode
  {
    match e
    case Damaged => Effect(fs, Err(InvalidArchive(parent)))
    case Entry(_, path, _, unixMode) =>
      var out := parent + path;
      var made := Create(fs, out, e);
      if made.result.Err? then made
      else match unixMode
        case None => made
        case Some(mode) => Step(made.fs, SetMode(made.fs, out, mode))
  }

  /** The loop of `unzip_file`: entries in archive order, stopping at the
      first error with everything written so far left in place. On success
      every directory entry is a directory; existing paths that no entry
      names keep their node. */
  function ExtractAll(fs: Fs, parent: Path, entries: seq<Entry>): (r: Effect<()>)
    ensures fs.Keys <= r.fs.Keys
    ensures forall q | q in fs && !IsOutPath(parent, entries, q) :: r.fs[q] == fs[q]
    ensures forall q | IsDir(fs, q) :: IsDir(r.fs, q)
    ensures forall q | IsFile(fs, q) :: IsFile(r.fs, q)
    ensures r.result.Ok? ==> forall i | 0 <= i < |entries| && IsDirEntry(entries[i]) :: IsDir(r.fs, parent + entries[i].path)
    decreases |entries|
  {
    if |entries| == 0 then Effect(fs, Ok(()))
    else
      var first := ExtractEntry(fs, parent, entries[0]);
      if first.result.Err? then first
      else
        var rest := ExtractAll(first.fs, parent, entries[1..]);
        assert forall q | IsOutPath(parent, entries[1..], q) :: IsOutPath(parent, entries, q) by {
          forall q | IsOutPath(parent, entries[1..], q)
            ensures IsOutPath(parent, entries, q)
          {
            var i :| 0 <= i < |entries[1..]| && entries[1..][i].Entry? && parent + entries[1..][i].path == q;
            assert entries[i + 1] == entries[1..][i];
          }
        }
        assert entries[0].Entry? ==> IsOutPath(parent, entries, parent + entries[0].path) by {
          if entries[0].Entry? {
            assert parent + entries[0].path == parent + entries[0].path;
          }
        }
        assert forall i | 1 <= i < |entries| :: entries[i] == entries[1..][i - 1];
        rest
  }

  /** Expanding `a + b` is expanding `a`, then, if that succeeded,
      expanding `b` on the result. */
  lemma {:induction false} ExtractAllConcat(fs: Fs, parent: Path, a: seq<Entry>, b: seq<Entry>)
    ensures var ra := ExtractAll(fs, parent, a);
      ExtractAll(fs, parent, a + b) == if ra.result.Err? then ra else ExtractAll(ra.fs, parent, b)
    decreases |a|
  {
    if |a| == 0 {
      assert a + b == b;
    } else {
      assert (a + b)[0] == a[0] && (a + b)[1..] == a[1..] + b;
      var first := ExtractEntry(fs, parent, a[0]);
      if first.result.Ok? {
        ExtractAllConcat(first.fs, parent, a[1..], b);
      }
    }
  }

  /** A failed expansion stopped at some entry `k`: the entries before it
      were all expanded, entry `k` failed, and what it left is the result
      (nothing written earlier is undone). */
  lemma {:induction false} ExtractAllStopsAtFirstError(fs: Fs, parent: Path, entries: seq<Entry>) returns (k: nat)
    requires ExtractAll(fs, parent, entries).result.Err?
    ensures k < |entries|
    ensures var before := ExtractAll(fs, parent, entries[..k]);
      && before.result.Ok?
      && ExtractEntry(before.fs, parent, entries[k]).result.Err?
      && ExtractAll(fs, parent, entries) == ExtractEntry(before.fs, parent, entries[k])
    decreases |entries|
  {
    assert entries[..0] == [];
    var first := ExtractEntry(fs, parent, entries[0]);
    if first.result.Err? {
      k := 0;
    } else {
      var k' := ExtractAllStopsAtFirstError(first.fs, parent, entries[1..]);
      k := k' + 1;
      assert entries[..k][0] == entries[0] && entries[..k][1..] == entries[1..][..k'];
      assert entries[1..][k'] == entries[k];
    }
  }

  /** After a successful expansion, a file entry that no later entry
      overwrites holds exactly its contents, with its unix mode if it has
      one. */
  lemma {:induction false} ExtractAllLastWriter(fs: Fs, parent: Path, entries: seq<Entry>, i: nat)
    requires ExtractAll(fs, parent, entries).result.Ok?
    requires i < |entries| && entries[i].Entry? && !IsDirEntry(entries[i]) && IsLastAt(parent, entries, i)
    ensures var r, out := ExtractAll(fs, parent, entries), parent + entries[i].path;
      && IsFile(r.fs, out) && r.fs[out].data == entries[i].data
      && (entries[i].unixMode.Some? ==> r.fs[out].mode == entries[i].unixMode)
    decreases |entries|
  {
    var first := ExtractEntry(fs, parent, entries[0]);
    if i > 0 {
      assert entries[1..][i - 1] == entries[i] && entries[1..][i - 1 + 1..] == entries[i + 1..];
      ExtractAllLastWriter(first.fs, parent, entries[1..], i - 1);
    }
  }

  /** `unzip_file`: the archive at `p` is opened and decoded and its
      entries are expanded into the directory that holds it. A path that is
      not a file, or bytes that are not an archive, are errors before
      anything is written. */
  function UnzipFile(fs: Fs, decode: seq<byte> -> Option<seq<Entry>>, p: Path): (r: Effect<()>)
    ensures |p| == 0 || !IsFile(fs, p) || decode(fs[p].data).None? ==> r.result.Err? && r.fs == fs
    ensures 0 < |p| && IsFile(fs, p) && decode(fs[p].data).Some? ==> r == ExtractAll(fs, p[..|p| - 1], decode(fs[p].data).value)
    ensures fs.Keys <= r.fs.Keys
  {
    if |p| == 0 || p !in fs then Effect(fs, Err(NotFound(p)))
    else if fs[p].Dir? then Effect(fs, Err(InvalidArchive(p)))
    else match decode(fs[p].data)
      case None => Effect(fs, Err(InvalidArchive(p)))
      case Some(entries) => ExtractAll(fs, p[..|p| - 1], entries)
  }

  /** Where `unzip_to` puts the archive: the target directory joined with
      the source's file name. */
  function WorkingCopy(source: Path, targetDir: Path): Path
    requires 0 < |source|
  {
    targetDir + [source[|source| - 1]]
  }

  /** `unzip_to`. A source with no file name panics (`unwrap`). When the
      working copy is the source itself the archive is expanded in place
      and kept; otherwise the target directory is created, the archive is
      copied there, expanded, and the copy removed. Errors are returned at
      the step that fails. */
  function UnzipTo(fs: Fs, decode: seq<byte> -> Option<seq<Entry>>, source: Path, targetDir: Path): (r: Run<Result<(), IoError>>)
    ensures r.exit.Panics? <==> |source| == 0
    ensures 0 < |source| && source == WorkingCopy(source, targetDir) ==>
      var u := UnzipFile(fs, decode, source);
      r == Run(u.fs, Returns(u.result))
    ensures 0 < |source| && source != WorkingCopy(source, targetDir) ==>
      var target, made := WorkingCopy(source, targetDir), CreateDirAll(fs, targetDir);
      && (made.Err? ==> r == Run(fs, Returns(Err(made.error))))
      && (made.Ok? && CopyFile(made.value, source, target).Err? ==>
            r == Run(made.value, Returns(Err(CopyFile(made.value, source, target).error))))
      && (made.Ok? && CopyFile(made.value, source, target).Ok? ==>
            var u := UnzipFile(CopyFile(made.value, source, target).value, decode, target);
            && (u.result.Err? ==> r == Run(u.fs, Returns(u.result)) && IsFile(r.fs, target))
            && (u.result.Ok? ==> r.exit == Returns(Ok(())) && target !in r.fs && KeepsExcept(u.fs, r.fs, target)))
  {
    if |source| == 0 then Run(fs, Panics("the source path has no file name"))
    else
      var target := WorkingCopy(source, targetDir);
      if source == target then
        var u := UnzipFile(fs, decode, target);
        Run(u.fs, Returns(u.result))
      else match CreateDirAll(fs, targetDir)
        case Err(e) => Run(fs, Returns(Err(e)))
        case Ok(fs1) =>
          match CopyFile(fs1, source, target)
          case Err(e) => Run(fs1, Returns(Err(e)))
          case Ok(fs2) =>
            var u := UnzipFile(fs2, decode, target);
            if u.result.Err? then Run(u.fs, Returns(u.result))
            else match RemoveFile(u.fs, target)
              case Err(e) => Run(u.fs, Returns(Err(e)))
              case Ok(fs3) => Run(fs3, Returns(Ok(())))
  }

  /** Expanding an archive never removes a file or turns it into a
      directory; the only file that may go is the working copy. */
  lemma UnzipKeepsFiles(fs: Fs, decode: seq<byte> -> Option<seq<Entry>>, source: Path, targetDir: Path, q: Path)
    requires 0 < |source| && IsFile(fs, q) && q != WorkingCopy(source, targetDir)
    ensures IsFile(UnzipTo(fs, decode, source, targetDir).fs, q)
  {
    var target := WorkingCopy(source, targetDir);
    if source != target {
      match CreateDirAll(fs, targetDir)
      case Err(_) =>
      case Ok(fs1) =>
        assert IsFile(fs1, q);
        match CopyFile(fs1, source, target)
        case Err(_) =>
        case Ok(fs2) =>
          assert IsFile(fs2, q);
          var u := UnzipFile(fs2, decode, target);
          assert IsFile(u.fs, q) by { UnzipFileKeepsFiles(fs2, decode, target, q); }
    } else {
      UnzipFileKeepsFiles(fs, decode, target, q);
    }
  }

  lemma UnzipFileKeepsFiles(fs: Fs, decode: seq<byte> -> Option<seq<Entry>>, p: Path, q: Path)
    requires IsFile(fs, q)
    ensures IsFile(UnzipFile(fs, decode, p).fs, q)
  {
  }

  /** In place, the archive is expanded where it is and still exists
      afterwards, whatever the outcome. */
  lemma UnzipInPlaceKeepsArchive(fs: Fs, decode: seq<byte> -> Option<seq<Entry>>, source: Path, targetDir: Path)
    requires 0 < |source| && source == WorkingCopy(source, targetDir) && IsFile(fs, source)
    ensures var r := UnzipTo(fs, decode, source, targetDir);
      && r.exit.Returns?
      && source in r.fs
      && (decode(fs[source].data).Some? ==> r.fs == ExtractAll(fs, targetDir, decode(fs[source].data).value).fs)
  {
    assert source[..|source| - 1] == targetDir;
  }

  /** Into another directory: when the archive decodes, the copy expands
      exactly as the source would, and on success the copy is gone, the
      source is as it was (unless an entry overwrote it), and each file
      entry that no later entry overwrites holds its contents. */
  lemma UnzipElsewhere(fs: Fs, decode: seq<byte> -> Option<seq<Entry>>, source: Path, targetDir: Path, entries: seq<Entry>)
    requires 0 < |source| && source != WorkingCopy(source, targetDir)
    requires IsFile(fs, source) && decode(fs[source].data) == Some(entries)
    ensures var r, target := UnzipTo(fs, decode, source, targetDir), WorkingCopy(source, targetDir);
      r.exit == Returns(Ok(())) ==>
        && target !in r.fs
        && (!IsOutPath(targetDir, entries, source) ==> source in r.fs && r.fs[source] == fs[source])
        && forall i | 0 <= i < |entries| && entries[i].Entry? && !IsDirEntry(entries[i]) && IsLastAt(targetDir, entries, i) && targetDir + entries[i].path != target ::
          IsFile(r.fs, targetDir + entries[i].path) && r.fs[targetDir + entries[i].path].data == entries[i].data
  {
    var target := WorkingCopy(source, targetDir);
    var r := UnzipTo(fs, decode, source, targetDir);
    if r.exit == Returns(Ok(())) {
      var fs1 := CreateDirAll(fs, targetDir).value;
      var fs2 := CopyFile(fs1, source, target).value;
      assert target[..|target| - 1] == targetDir;
      var u := ExtractAll(fs2, targetDir, entries);
      assert UnzipFile(fs2, decode, target) == u;
      forall i | 0 <= i < |entries| && entries[i].Entry? && !IsDirEntry(entries[i]) && IsLastAt(targetDir, entries, i) && targetDir + entries[i].path != target
        ensures IsFile(r.fs, targetDir + entries[i].path) && r.fs[targetDir + entries[i].path].data == entries[i].data
      {
        ExtractAllLastWriter(fs2, targetDir, entries, i);
      }
    }
  }

  /** Into another directory, removing the copy cannot fail once the
      expansion succeeded. */
  lemma UnzipElsewhereSucceeds(fs: Fs, decode: seq<byte> -> Option<seq<Entry>>, source: Path, targetDir: Path)
    requires 0 < |source| && source != WorkingCopy(source, targetDir)
    requires CreateDirAll(fs, targetDir).Ok?
    requires CopyFile(CreateDirAll(fs, targetDir).value, source, WorkingCopy(source, targetDir)).Ok?
    ensures var fs2 := CopyFile(CreateDirAll(fs, targetDir).value, source, WorkingCopy(source, targetDir)).value;
      UnzipFile(fs2, decode, WorkingCopy(source, targetDir)).result.Ok? ==> UnzipTo(fs, decode, source, targetDir).exit == Returns(Ok(()))
  {
    var target := WorkingCopy(source, targetDir);
    var fs2 := CopyFile(CreateDirAll(fs, targetDir).value, source, target).value;
    var u := UnzipFile(fs2, decode, target);
    assert IsFile(fs2, target);
  }
}
