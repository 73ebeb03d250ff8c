/** `src/installer_config.rs`: the registry of installers kept in
    `installer_config.toml`. The in-memory list is the model's state; every
    operation that saves writes exactly the state it returns, so the file
    and the list never differ and `save` is not modelled separately. */
module InstallerConfig {
  import opened Ints
  import opened Wrappers
  import opened Toml
  import Seqs
  import Net

  /** The platform's answer as this file consumes it: `url` is optional
      here (it is `unwrap`ped), unlike in `src/http/client.rs`. */
  datatype InstallerInfo = InstallerInfo(
    url: Option<string>,
    installerToken: string,
    appName: string,
    appVersion: string,
    appFileName: string,
    appRunPort: u32,
    jdkName: string,
    jdkVersion: string,
    jdkFileName: string)

  /** One registered installer; informally keyed by `appRunPort`. */
  datatype Installer = Installer(
    url: string,
    installerToken: string,
    appName: string,
    appVersion: string,
    appFileName: string,
    appRunPort: u32,
    jdkName: string,
    jdkVersion: string,
    jdkFileName: string)

  datatype InstallerData = InstallerData(serverToken: string, installers: seq<Installer>)

  /** `inst` holds every field of `info`, the port included. */
  predicate Carries(inst: Installer, info: InstallerInfo) {
    && info.url == Some(inst.url)
    && inst.installerToken == info.installerToken
    && inst.appName == info.appName
    && inst.appVersion == info.appVersion
    && inst.appFileName == info.appFileName
    && inst.appRunPort == info.appRunPort
    && inst.jdkName == info.jdkName
    && inst.jdkVersion == info.jdkVersion
    && inst.jdkFileName == info.jdkFileName
  }

  /** `after` is `before` with every field but the port taken from `info`. */
  predicate Refreshes(before: Installer, after: Installer, info: InstallerInfo) {
    && info.url == Some(after.url)
    && after.installerToken == info.installerToken
    && after.appName == info.appName
    && after.appVersion == info.appVersion
    && after.appFileName == info.appFileName
    && after.appRunPort == before.appRunPort
    && after.jdkName == info.jdkName
    && after.jdkVersion == info.jdkVersion
    && after.jdkFileName == info.jdkFileName
  }

  /** The search `get_by_port` and `update` run: the record is on `port`. */
  function OnPort(port: u32): Installer -> bool {
    (inst: Installer) => inst.appRunPort == port
  }

  /** The search `remove_by_installer_token` runs. */
  function WithToken(token: string): Installer -> bool {
    (inst: Installer) => inst.installerToken == token
  }

  /** `retain(|installer| !f(installer))`. */
  function Rejected(f: Installer -> bool): Installer -> bool {
    (inst: Installer) => !f(inst)
  }

  /** `InstallerConfig::from`. A file that cannot be opened or does not
      parse is replaced by the default configuration: no installers and
      the host's MAC address as server token; looking that address up
      `unwrap`s the result of `get_interface_address` (`iface`). */
  function Load(stored: Stored<InstallerData>, iface: Option<Net.InterfaceAddr>): (r: Exit<InstallerData>)
    ensures stored.Parsed? ==> r == Returns(stored.value)
    ensures !stored.Parsed? ==> (r.Panics? <==> iface.None?)
    ensures !stored.Parsed? && r.Returns? ==>
      r.value.installers == [] && r.value.serverToken == iface.value.macAddress
  {
    match stored
    case Parsed(data) => Returns(data)
    case _ => DefaultConfig(iface)
  }

  /** `create_default_config`. */
  function DefaultConfig(iface: Option<Net.InterfaceAddr>): Exit<InstallerData> {
    match iface
    case None => Panics("no network interface for the server token")
    case Some(addr) => Returns(InstallerData(addr.macAddress, []))
  }

  /** `add`: appends one record built from `info`, whether or not its port
      is already registered; a missing url panics. */
  function Add(data: InstallerData, info: InstallerInfo): (r: Exit<InstallerData>)
    ensures r.Panics? <==> info.url.None?
    ensures r.Returns? ==>
      && r.value.serverToken == data.serverToken
      && |r.value.installers| == |data.installers| + 1
      && r.value.installers[..|data.installers|] == data.installers
      && Carries(r.value.installers[|data.installers|], info)
  {
    match info.url
    case None => Panics("installer info has no url")
    case Some(url) =>
      var inst := Installer(url, info.installerToken, info.appName, info.appVersion,
        info.appFileName, info.appRunPort, info.jdkName, info.jdkVersion, info.jdkFileName);
      Returns(data.(installers := data.installers + [inst]))
  }

  /** `update(port, info)`: the first record on `port` takes every field of
      `info` except the port; the others are untouched. Without such a
      record nothing happens, and `info.url` is then never looked at. */
  function Update(data: InstallerData, port: u32, info: InstallerInfo): (r: Exit<InstallerData>)
    ensures (forall i | 0 <= i < |data.installers| :: data.installers[i].appRunPort != port) ==>
      r == Returns(data)
    ensures forall k: nat | Seqs.IsFirst(data.installers, OnPort(port), k) ::
      && (r.Panics? <==> info.url.None?)
      && (r.Returns? ==>
            && r.value.serverToken == data.serverToken
            && |r.value.installers| == |data.installers|
            && Refreshes(data.installers[k], r.value.installers[k], info)
            && forall i | 0 <= i < |data.installers| && i != k :: r.value.installers[i] == data.installers[i])
  {
    match Seqs.FirstIndex(data.installers, OnPort(port))
    case None => Returns(data)
    case Some(k) =>
      match info.url
      case None => Panics("installer info has no url")
      case Some(url) =>
        var inst := data.installers[k].(url := url, installerToken := info.installerToken,
          appName := info.appName, appVersion := info.appVersion, appFileName := info.appFileName,
          jdkName := info.jdkName, jdkVersion := info.jdkVersion, jdkFileName := info.jdkFileName);
        Returns(data.(installers := data.installers[k := inst]))
  }

  /** `get_by_port`: the first record on `port`, if any. */
  function GetByPort(data: InstallerData, port: u32): (r: Option<Installer>)
    ensures r.None? <==> forall i | 0 <= i < |data.installers| :: data.installers[i].appRunPort != port
    ensures r.Some? ==> exists k: nat ::
      Seqs.IsFirst(data.installers, OnPort(port), k) && data.installers[k] == r.value
  {
    match Seqs.FirstIndex(data.installers, OnPort(port))
    case None => None
    case Some(k) => Some(data.installers[k])
  }

  /** `remove_by_installer_token`: drops the first record with `token`; an
      unknown token changes nothing. */
  function RemoveByInstallerToken(data: InstallerData, token: string): (r: InstallerData)
    ensures r.serverToken == data.serverToken
    ensures (forall i | 0 <= i < |data.installers| :: data.installers[i].installerToken != token) ==>
      r == data
    ensures forall k: nat | Seqs.IsFirst(data.installers, WithToken(token), k) ::
      && |r.installers| == |data.installers| - 1
      && r.installers[..k] == data.installers[..k]
      && r.installers[k..] == data.installers[k + 1..]
  {
    match Seqs.FirstIndex(data.installers, WithToken(token))
    case None => data
    case Some(k) => data.(installers := Seqs.RemoveAt(data.installers, k))
  }

  /** `remove_all(f)`: keeps the records `f` rejects, in order. */
  function RemoveAll(data: InstallerData, f: Installer -> bool): InstallerData {
    data.(installers := Seqs.Retain(data.installers, Rejected(f)))
  }

  /** What `remove_all(f)` leaves is exactly the subsequence of records `f`
      rejects: a record stays iff it was there and `f` is false on it, and
      the survivors appear at increasing original positions. */
  lemma RemoveAllKeepsRejected(data: InstallerData, f: Installer -> bool)
    ensures RemoveAll(data, f).serverToken == data.serverToken
    ensures forall x :: x in RemoveAll(data, f).installers <==> x in data.installers && !f(x)
    ensures var idx := Seqs.KeptIndices(data.installers, Rejected(f), 0);
      && |RemoveAll(data, f).installers| == |idx|
      && (forall k | 0 <= k < |idx| :: RemoveAll(data, f).installers[k] == data.installers[idx[k]])
      && (forall k, l | 0 <= k < l < |idx| :: idx[k] < idx[l])
      && (forall i | 0 <= i < |data.installers| :: i in idx <==> !f(data.installers[i]))
  {
    forall x
      ensures x in RemoveAll(data, f).installers <==> x in data.installers && !f(x)
    {
      Seqs.RetainMembers(data.installers, Rejected(f), x);
    }
    Seqs.RetainIsSubsequence(data.installers, Rejected(f));
  }

  /** Removing with a predicate that accepts everything empties the list;
      one that accepts nothing leaves it as it was. */
  lemma RemoveAllExtremes(data: InstallerData)
    ensures RemoveAll(data, _ => true).installers == []
    ensures RemoveAll(data, _ => false) == data
  {
    Seqs.RetainRejectingAll(data.installers, Rejected(_ => true));
    Seqs.RetainAcceptingAll(data.installers, Rejected(_ => false));
  }

  /** After `add`, looking up the new port finds the new record, unless an
      earlier record already uses that port: then the earlier one shadows
      it, because `add` does not check ports. */
  lemma AddThenGetByPort(data: InstallerData, info: InstallerInfo)
    requires info.url.Some?
    ensures var r := Add(data, info).value;
      match GetByPort(data, info.appRunPort)
      case None => GetByPort(r, info.appRunPort).Some? && Carries(GetByPort(r, info.appRunPort).value, info)
      case Some(earlier) => GetByPort(r, info.appRunPort) == Some(earlier)
  {
    var r := Add(data, info).value;
    var n := |data.installers|;
    var p := OnPort(info.appRunPort);
    assert r.installers[..n] == data.installers;
    assert forall i | 0 <= i < n :: r.installers[i] == data.installers[i];
    match GetByPort(data, info.appRunPort)
    case None =>
      assert Seqs.IsFirst(r.installers, p, n);
      var k: nat :| Seqs.IsFirst(r.installers, p, k) && r.installers[k] == GetByPort(r, info.appRunPort).value;
      Seqs.FirstIsUnique(r.installers, p, k, n);
    case Some(earlier) =>
      var j: nat :| Seqs.IsFirst(data.installers, p, j) && data.installers[j] == earlier;
      assert Seqs.IsFirst(r.installers, p, j);
      var k: nat :| Seqs.IsFirst(r.installers, p, k) && r.installers[k] == GetByPort(r, info.appRunPort).value;
      Seqs.FirstIsUnique(r.installers, p, k, j);
  }

  /** After a successful `update(port, info)` on a registered port, looking
      the port up returns the refreshed record. */
  lemma UpdateThenGetByPort(data: InstallerData, port: u32, info: InstallerInfo)
    requires info.url.Some?
    requires GetByPort(data, port).Some?
    ensures Update(data, port, info).Returns?
    ensures var found := GetByPort(Update(data, port, info).value, port);
      found.Some? && Refreshes(GetByPort(data, port).value, found.value, info)
  {
    var p := OnPort(port);
    var k: nat :| Seqs.IsFirst(data.installers, p, k) && data.installers[k] == GetByPort(data, port).value;
    var r := Update(data, port, info).value;
    assert Seqs.IsFirst(r.installers, p, k);
    var j: nat :| Seqs.IsFirst(r.installers, p, j) && r.installers[j] == GetByPort(r, port).value;
    Seqs.FirstIsUnique(r.installers, p, k, j);
  }

  /** `remove_by_installer_token` undoes `add` when no earlier record has
      the new record's token. */
  lemma AddThenRemoveByToken(data: InstallerData, info: InstallerInfo)
    requires info.url.Some?
    requires forall i | 0 <= i < |data.installers| :: data.installers[i].installerToken != info.installerToken
    ensures RemoveByInstallerToken(Add(data, info).value, info.installerToken) == data
  {
    var r := Add(data, info).value;
    var n := |data.installers|;
    assert r.installers[..n] == data.installers;
    assert Seqs.IsFirst(r.installers, WithToken(info.installerToken), n);
    assert r.installers[n + 1..] == [];
  }
}
