/** `src/download_config.rs`: the md5 recorded for each (name, version)
    being downloaded, kept in `download_config.toml`. As for the installer
    registry, every saving operation writes exactly the state it returns. */
module DownloadConfig {
  import opened Wrappers
  import opened Toml
  import Seqs

  datatype FileMd5Info = FileMd5Info(name: string, version: string, md5: string)

  datatype DownloadData = DownloadData(files: seq<FileMd5Info>)

  /** The search `put`, `get` and `remove` run: the record is for
      (`name`, `version`). */
  function Keyed(name: string, version: string): FileMd5Info -> bool {
    (f: FileMd5Info) => f.name == name && f.version == version
  }

  /** The record is for any other key. */
  function Unkeyed(name: string, version: string): FileMd5Info -> bool {
    (f: FileMd5Info) => !(f.name == name && f.version == version)
  }

  /** At most one record per (name, version). */
  predicate UniqueKeys(files: seq<FileMd5Info>) {
    forall i, j | 0 <= i < j < |files| ::
      files[i].name != files[j].name || files[i].version != files[j].version
  }

  /** `DownloadConfig::from`: a file that cannot be opened or does not
      parse is replaced by an empty list. */
  function Load(stored: Stored<DownloadData>): (r: DownloadData)
    ensures stored.Parsed? ==> r == stored.value
    ensures !stored.Parsed? ==> r.files == [] && UniqueKeys(r.files)
  {
    match stored
    case Parsed(data) => data
    case _ => DownloadData([])
  }

  /** `put`: the first record for the key, if any, is removed and the new
      record is appended. Records for other keys stay, in order. */
  function Put(data: DownloadData, name: string, version: string, md5: string): (r: DownloadData)
    ensures 0 < |r.files| && r.files[|r.files| - 1] == FileMd5Info(name, version, md5)
    ensures |r.files| == |data.files| + (if Get(data, name, version).None? then 1 else 0)
    ensures Seqs.Retain(r.files, Unkeyed(name, version)) == Seqs.Retain(data.files, Unkeyed(name, version))
    ensures Get(data, name, version).None? ==> r.files == data.files + [FileMd5Info(name, version, md5)]
    ensures forall k: nat | Seqs.IsFirst(data.files, Keyed(name, version), k) ::
      r.files == Seqs.RemoveAt(data.files, k) + [FileMd5Info(name, version, md5)]
  {
    var record := FileMd5Info(name, version, md5);
    var kept := Remove(data, name, version).files;
    assert Seqs.Retain([record], Unkeyed(name, version)) == [];
    Seqs.RetainConcat(kept, [record], Unkeyed(name, version));
    DownloadData(kept + [record])
  }

  /** `get`: the first record for the key. */
  function Get(data: DownloadData, name: string, version: string): (r: Option<FileMd5Info>)
    ensures r.None? <==> forall i | 0 <= i < |data.files| :: !Keyed(name, version)(data.files[i])
    ensures r.Some? ==> r.value.name == name && r.value.version == version && r.value in data.files
    ensures r.Some? ==> exists k: nat :: Seqs.IsFirst(data.files, Keyed(name, version), k) && r.value == data.files[k]
  {
    match Seqs.FirstIndex(data.files, Keyed(name, version))
    case None => None
    case Some(k) => Some(data.files[k])
  }

  /** `remove`: the first record for the key is dropped; records for other
      keys stay, in order; an absent key changes nothing. */
  function Remove(data: DownloadData, name: string, version: string): (r: DownloadData)
    ensures Get(data, name, version).None? ==> r == data
    ensures Get(data, name, version).Some? ==> |r.files| == |data.files| - 1
    ensures forall k: nat | Seqs.IsFirst(data.files, Keyed(name, version), k) :: r.files == Seqs.RemoveAt(data.files, k)
    ensures Seqs.Retain(r.files, Unkeyed(name, version)) == Seqs.Retain(data.files, Unkeyed(name, version))
  {
    match Seqs.FirstIndex(data.files, Keyed(name, version))
    case None => data
    case Some(k) =>
      Seqs.RetainRemoveAt(data.files, k, Unkeyed(name, version));
      assert forall j: nat | Seqs.IsFirst(data.files, Keyed(name, version), j) :: j == k by {
        forall j: nat | Seqs.IsFirst(data.files, Keyed(name, version), j) ensures j == k {
          Seqs.FirstIsUnique(data.files, Keyed(name, version), j, k);
        }
      }
      DownloadData(Seqs.RemoveAt(data.files, k))
  }

  /** With unique keys, `remove` leaves no record for the key. */
  lemma RemoveLeavesNone(data: DownloadData, name: string, version: string)
    requires UniqueKeys(data.files)
    ensures UniqueKeys(Remove(data, name, version).files)
    ensures Get(Remove(data, name, version), name, version).None?
  {
    match Seqs.FirstIndex(data.files, Keyed(name, version))
    case None =>
    case Some(k) =>
      var r := Remove(data, name, version).files;
      assert forall i | 0 <= i < |r| :: r[i] == data.files[if i < k then i else i + 1];
  }

  /** `put` keeps keys unique; afterwards exactly one record has the key,
      it is the last one and carries the new md5. */
  lemma PutKeepsKeysUnique(data: DownloadData, name: string, version: string, md5: string)
    requires UniqueKeys(data.files)
    ensures var r := Put(data, name, version, md5).files;
      && UniqueKeys(r)
      && forall i | 0 <= i < |r| && Keyed(name, version)(r[i]) :: i == |r| - 1 && r[i].md5 == md5
  {
    RemoveLeavesNone(data, name, version);
    var kept := Remove(data, name, version).files;
    var r := Put(data, name, version, md5).files;
    assert r == kept + [FileMd5Info(name, version, md5)];
    assert forall i | 0 <= i < |kept| :: !Keyed(name, version)(kept[i]);
  }

  /** `get` after `put` on the same key yields the new md5. */
  lemma PutThenGet(data: DownloadData, name: string, version: string, md5: string)
    requires UniqueKeys(data.files)
    ensures Get(Put(data, name, version, md5), name, version) == Some(FileMd5Info(name, version, md5))
  {
    PutKeepsKeysUnique(data, name, version, md5);
  }

  /** `put` then `remove` on the same key drops every trace of the key. */
  lemma PutThenRemove(data: DownloadData, name: string, version: string, md5: string)
    requires UniqueKeys(data.files)
    ensures Remove(Put(data, name, version, md5), name, version).files
      == Seqs.Retain(data.files, Unkeyed(name, version))
  {
    PutKeepsKeysUnique(data, name, version, md5);
    RemoveLeavesNone(Put(data, name, version, md5), name, version);
    var r := Remove(Put(data, name, version, md5), name, version).files;
    Seqs.RetainAcceptingAll(r, Unkeyed(name, version));
  }

  /** Without unique keys `put` is not an overwrite: a file holding two
      records for one key still answers `get` with the older md5. */
  lemma PutOnDuplicateKeys()
    ensures var data := DownloadData([FileMd5Info("app", "1", "a"), FileMd5Info("app", "1", "b")]);
      Get(Put(data, "app", "1", "c"), "app", "1") == Some(FileMd5Info("app", "1", "b"))
  {
    var data := DownloadData([FileMd5Info("app", "1", "a"), FileMd5Info("app", "1", "b")]);
    assert Seqs.IsFirst(data.files, Keyed("app", "1"), 0);
    var r := Put(data, "app", "1", "c");
    assert r.files == [FileMd5Info("app", "1", "b"), FileMd5Info("app", "1", "c")];
    assert Seqs.IsFirst(r.files, Keyed("app", "1"), 0);
  }
}
