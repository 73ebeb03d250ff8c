/** `src/util/net.rs`: which network interface identifies this host, and
    how its IP and MAC address are written. The adapter and interface lists
    the OS reports are inputs. */
module Net {
  import opened Ints
  import opened Wrappers
  import opened Text
  import Seqs

  /** The host's identity; the MAC text doubles as the server token. */
  datatype InterfaceAddr = InterfaceAddr(ipAddress: string, macAddress: string)

  datatype IpAddr =
    | V4(a: byte, b: byte, c: byte, d: byte)
    | V6(text: string)

  /** `IpAddr::to_string`; IPv6 text is taken as given. */
  function IpText(ip: IpAddr): string {
    match ip
    case V4(a, b, c, d) => Decimal(a) + "." + Decimal(b) + "." + Decimal(c) + "." + Decimal(d)
    case V6(text) => text
  }

  // ----- Windows: adapters from `ipconfig::get_adapters` -----

  datatype IfType = EthernetCsmacd | Ieee80211 | OtherType(code: nat)

  datatype Adapter = Adapter(
    up: bool,
    ifType: IfType,
    ipAddresses: seq<IpAddr>,
    physicalAddress: Option<seq<byte>>)

  predicate IsUpEthernet(a: Adapter) {
    a.up && a.ifType == EthernetCsmacd
  }

  predicate IsUpWireless(a: Adapter) {
    a.up && a.ifType == Ieee80211
  }

  /** The adapter `get_interface_address` settles on: the first wired one
      that is up, else the first wireless one that is up. */
  function SelectAdapter(adapters: seq<Adapter>): (r: Option<Adapter>)
    ensures r.None? <==> forall i | 0 <= i < |adapters| :: !IsUpEthernet(adapters[i]) && !IsUpWireless(adapters[i])
    ensures r.Some? && IsUpEthernet(r.value) ==>
      exists k: nat :: Seqs.IsFirst(adapters, IsUpEthernet, k) && adapters[k] == r.value
    ensures r.Some? && !IsUpEthernet(r.value) ==>
      && IsUpWireless(r.value)
      && (forall i | 0 <= i < |adapters| :: !IsUpEthernet(adapters[i]))
      && exists k: nat :: Seqs.IsFirst(adapters, IsUpWireless, k) && adapters[k] == r.value
  {
    match Seqs.FirstIndex(adapters, IsUpEthernet)
    case Some(k) => Some(adapters[k])
    case None =>
      match Seqs.FirstIndex(adapters, IsUpWireless)
      case Some(k) => Some(adapters[k])
      case None => None
  }

  /** Each byte in lower-case hex without padding (`{:x}`). */
  function HexGroups(mac: seq<byte>): seq<string> {
    seq(|mac|, i requires 0 <= i < |mac| => ToBase(mac[i], 16))
  }

  /** The Windows MAC text: hex groups joined by ':', then uppercased. */
  function MacText(mac: seq<byte>): string {
    Upper(Join(HexGroups(mac), ":"))
  }

  /** Windows `get_interface_address`. `adapters` is `None` when the
      adapter list cannot be read. The IP is the adapter's second address. */
  function WindowsInterfaceAddress(adapters: Option<seq<Adapter>>): Exit<Option<InterfaceAddr>> {
    match adapters
    case None => Panics("no adapter information")
    case Some(list) =>
      match SelectAdapter(list)
      case None => Returns(None)
      case Some(a) =>
        if a.physicalAddress.None? then Panics("adapter has no physical address")
        else if |a.ipAddresses| < 2 then Panics("adapter has fewer than two IP addresses")
        else Returns(Some(InterfaceAddr(IpText(a.ipAddresses[1]), MacText(a.physicalAddress.value))))
  }

  /** What Windows `get_interface_address` yields, in terms of the adapter
      the preference rule selects. */
  lemma WindowsAddressOfSelected(adapters: seq<Adapter>)
    ensures var r := WindowsInterfaceAddress(Some(adapters));
      match SelectAdapter(adapters)
      case None => r == Returns(None)
      case Some(a) =>
        && (r.Panics? <==> a.physicalAddress.None? || |a.ipAddresses| < 2)
        && (r.Returns? ==>
              && r.value.Some?
              && r.value.value.ipAddress == IpText(a.ipAddresses[1])
              && r.value.value.macAddress == MacText(a.physicalAddress.value))
  {
  }

  /** Reads a MAC text back into bytes: ':'-separated hex groups of at most
      two digits each, in either case. The empty text is no bytes. */
  function ParseMac(s: string): Option<seq<byte>> {
    if s == "" then Some([])
    else ParseGroups(SplitBy(s, c => c == ':'))
  }

  function ParseGroups(groups: seq<string>): Option<seq<byte>> {
    if |groups| == 0 then Some([])
    else match (FromBase(groups[0], 16), ParseGroups(groups[1..]))
      case (Some(v), Some(rest)) =>
        if |groups[0]| <= 2 && v < 256 then Some([v as byte] + rest) else None
      case _ => None
  }

  lemma HexDigitsShort(n: byte)
    ensures |ToBase(n, 16)| == (if n < 16 then 1 else 2)
  {
    if n >= 16 {
      DivMod(n, 16);
    }
  }

  lemma {:induction false} ToBaseColonFree(n: nat, base: nat)
    requires 2 <= base <= 16
    ensures NoSeparator(ToBase(n, base), c => c == ':')
    decreases n
  {
    if n >= base {
      DivMod(n, base);
      ToBaseColonFree(n / base, base);
    }
  }

  /** The MAC text has one group per byte, separated by ':' (so |mac| - 1
      separators), every group one or two hex digits with no padding, and
      no lower-case letter anywhere; reading it back gives the bytes. */
  lemma {:induction false} MacTextRoundTrip(mac: seq<byte>)
    requires 0 < |mac|
    ensures forall i | 0 <= i < |MacText(mac)| :: !('a' <= MacText(mac)[i] <= 'z')
    ensures var groups := SplitBy(MacText(mac), c => c == ':');
      && |groups| == |mac|
      && forall i | 0 <= i < |mac| :: |groups[i]| == (if mac[i] < 16 then 1 else 2)
    ensures ParseMac(MacText(mac)) == Some(mac)
  {
    var hex := HexGroups(mac);
    var ups := seq(|hex|, k requires 0 <= k < |hex| => Upper(hex[k]));
    UpperJoin(hex, ':');
    assert MacText(mac) == Join(ups, ":");
    forall k | 0 <= k < |ups|
      ensures NoSeparator(ups[k], c => c == ':')
      ensures |ups[k]| == (if mac[k] < 16 then 1 else 2)
      ensures FromBase(ups[k], 16) == Some(mac[k] as nat)
    {
      ToBaseColonFree(mac[k], 16);
      HexDigitsShort(mac[k]);
      FromBaseUpper(hex[k], 16);
      FromBaseToBase(mac[k], 16);
    }
    SplitByJoin(ups, ':', c => c == ':');
    assert MacText(mac) != "" by {
      assert |ups[0]| > 0;
      JoinStartsWithFirst(ups, ":");
    }
    ParseGroupsOf(ups, mac);
  }

  lemma {:induction false} ParseGroupsOf(groups: seq<string>, mac: seq<byte>)
    requires |groups| == |mac|
    requires forall k | 0 <= k < |groups| :: |groups[k]| <= 2 && FromBase(groups[k], 16) == Some(mac[k] as nat)
    ensures ParseGroups(groups) == Some(mac)
    decreases |groups|
  {
    if |groups| > 0 {
      ParseGroupsOf(groups[1..], mac[1..]);
      assert mac == [mac[0]] + mac[1..];
    }
  }

  // ----- Other systems: interfaces from `get_if_addrs` -----

  datatype Interface = Interface(name: string, isLoopback: bool, ip: IpAddr)

  predicate IsCandidate(iface: Interface) {
    !iface.isLoopback && iface.ip.V4?
  }

  /** Non-Windows `get_interface_address`. `ifaces` is `None` when the
      interface list cannot be read; `macByName` stands for
      `mac_address_by_name` followed by `to_string`, `None` when the lookup
      fails or finds nothing. */
  function UnixInterfaceAddress(ifaces: Option<seq<Interface>>, macByName: string -> Option<string>): Exit<Option<InterfaceAddr>> {
    match ifaces
    case None => Panics("no interface information")
    case Some(list) =>
      match Seqs.FirstIndex(list, IsCandidate)
      case None => Returns(None)
      case Some(k) =>
        match macByName(list[k].name)
        case None => Panics("no MAC address for the interface")
        case Some(mac) => Returns(Some(InterfaceAddr(IpText(list[k].ip), Upper(mac))))
  }

  /** The chosen interface is the first non-loopback IPv4 one; none such
      gives `None`, a failed MAC lookup panics, and the MAC is uppercased. */
  lemma UnixAddressOfFirstCandidate(list: seq<Interface>, macByName: string -> Option<string>)
    ensures var r := UnixInterfaceAddress(Some(list), macByName);
      && (r == Returns(None) <==> forall i | 0 <= i < |list| :: !IsCandidate(list[i]))
      && (r.Panics? ==> exists k: nat :: Seqs.IsFirst(list, IsCandidate, k) && macByName(list[k].name).None?)
      && (r.Returns? && r.value.Some? ==>
            exists k: nat :: Seqs.IsFirst(list, IsCandidate, k)
              && macByName(list[k].name).Some?
              && r.value.value == InterfaceAddr(IpText(list[k].ip), Upper(macByName(list[k].name).value)))
  {
  }
}
