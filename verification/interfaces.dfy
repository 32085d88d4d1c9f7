/** The interface collector (`GetInterfaces`): one record per entry of the
    `getifaddrs` list that has an address, with the address family named and
    the numeric address text kept only for IPv4 and IPv6. */
module Interfaces {
  import opened Wrappers
  import Selection

  /** Address families, as numbered on macOS. */
  const AF_UNIX: int := 1
  const AF_INET: int := 2
  const AF_LINK: int := 18
  const AF_INET6: int := 30

  /** Interface flag bits. */
  const IFF_UP: bv32 := 0x1
  const IFF_LOOPBACK: bv32 := 0x8
  const IFF_RUNNING: bv32 := 0x40

  const GETIFADDRS_ERROR: string := "getifaddrs failed"

  /** An interface address: its family and the text `getnameinfo` gives
      for it with `NI_NUMERICHOST`. */
  datatype SockAddr = SockAddr(family: int, numericHost: string)

  /** One `ifaddrs` node; `addr` is `None` for a null `ifa_addr`. */
  datatype IfAddr = IfAddr(name: string, addr: Option<SockAddr>, flags: bv32)

  datatype Interface = Interface(name: string, family: string, address: string, up: bool, loopback: bool, running: bool)

  function FamilyName(af: int): (t: string)
    ensures t == "IPv4" <==> af == AF_INET
    ensures t == "IPv6" <==> af == AF_INET6
    ensures t == "UNIX" <==> af == AF_UNIX
    ensures t == "LINK" <==> af == AF_LINK
    ensures t == "other" <==> af !in {AF_INET, AF_INET6, AF_UNIX, AF_LINK}
  {
    if af == AF_INET then "IPv4"
    else if af == AF_INET6 then "IPv6"
    else if af == AF_UNIX then "UNIX"
    else if af == AF_LINK then "LINK"
    else "other"
  }

  predicate IsIpFamily(af: int) {
    af == AF_INET || af == AF_INET6
  }

  function InterfaceEntry(ifa: IfAddr): (r: Option<Interface>)
    ensures r.Some? <==> ifa.addr.Some?
    ensures r.Some? ==> r.value.name == ifa.name && r.value.family == FamilyName(ifa.addr.value.family)
    ensures r.Some? ==> r.value.address == if IsIpFamily(ifa.addr.value.family) then ifa.addr.value.numericHost else ""
    ensures r.Some? ==> (r.value.up <==> ifa.flags & IFF_UP != 0)
    ensures r.Some? ==> (r.value.loopback <==> ifa.flags & IFF_LOOPBACK != 0)
    ensures r.Some? ==> (r.value.running <==> ifa.flags & IFF_RUNNING != 0)
  {
    match ifa.addr
    case None => None
    case Some(sa) =>
      var host := if IsIpFamily(sa.family) then sa.numericHost else "";
      Some(Interface(ifa.name, FamilyName(sa.family), host,
                     ifa.flags & IFF_UP != 0, ifa.flags & IFF_LOOPBACK != 0, ifa.flags & IFF_RUNNING != 0))
  }

  /** `list` is `None` when `getifaddrs` fails. */
  function ListInterfaces(list: Option<seq<IfAddr>>): (r: Result<seq<Interface>, string>)
    ensures r.Failure? <==> list.None?
    ensures r.Failure? ==> r.error == GETIFADDRS_ERROR
    ensures r.Success? ==> |r.value| <= |list.value|
    ensures r.Success? ==> forall k | 0 <= k < |r.value| ::
              r.value[k].family != "IPv4" && r.value[k].family != "IPv6" ==> r.value[k].address == ""
  {
    match list
    case None => Failure(GETIFADDRS_ERROR)
    case Some(ifas) =>
      var ys := Selection.Collect(ifas, InterfaceEntry);
      assert forall k | 0 <= k < |ys| :: ys[k] in ys;
      Success(ys)
  }

  /** One record per entry with an address, in list order. */
  lemma ListInterfacesInOrder(ifas: seq<IfAddr>) returns (idx: seq<nat>)
    ensures var r := ListInterfaces(Some(ifas)).value;
      && |idx| == |r|
      && (forall k | 0 <= k < |idx| :: idx[k] < |ifas| && InterfaceEntry(ifas[idx[k]]) == Some(r[k]))
      && (forall k, l | 0 <= k < l < |idx| :: idx[k] < idx[l])
      && (forall i | 0 <= i < |ifas| && ifas[i].addr.Some? :: i in idx)
  {
    idx := Selection.CollectIndices(ifas, InterfaceEntry);
  }
}
