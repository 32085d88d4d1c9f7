/** The network-activity collector (`GetNetActivity`): totals taken from the
    TCP counters, with IPv6 packet counts added when the module is built with
    IPv6 support. The IPv4 counters are fetched but do not enter the totals. */
module Traffic {
  import opened Wrappers

  /** The `tcpstat` counters the collector reads. */
  datatype TcpStat = TcpStat(sndTotal: nat, rcvTotal: nat, sndByte: nat, sndRexmitByte: nat,
                             rcvByte: nat, rcvOoByte: nat, rcvDupByte: nat)
  /** The `ipstat` counters (fetched, never added). */
  datatype IpStat = IpStat(localOut: nat, total: nat)
  /** The `ip6stat` counters the collector reads. */
  datatype Ip6Stat = Ip6Stat(localOut: nat, total: nat)

  datatype Stats = Stats(packetsSent: nat, packetsReceived: nat, bytesSent: nat, bytesReceived: nat)

  const TCP_ERROR: string := "sysctl failed: tcp4 stats"
  const IP_ERROR: string := "sysctl failed: ip4 stats"
  const IP6_ERROR: string := "sysctl failed: ip6 stats"

  /** Sent bytes count retransmissions; received bytes count out-of-order
      and duplicate data. */
  function TcpTotals(t: TcpStat): (s: Stats)
    ensures s.packetsSent == t.sndTotal && s.packetsReceived == t.rcvTotal
    ensures s.bytesSent == t.sndByte + t.sndRexmitByte
    ensures s.bytesReceived == t.rcvByte + t.rcvOoByte + t.rcvDupByte
  {
    Stats(t.sndTotal, t.rcvTotal, t.sndByte + t.sndRexmitByte, t.rcvByte + t.rcvOoByte + t.rcvDupByte)
  }

  /** Each argument is the outcome of one statistics fetch (`None` when it
      failed); `inet6` says whether the module was built with IPv6 support. */
  function NetActivity(tcp: Option<TcpStat>, ip: Option<IpStat>, inet6: bool, ip6: Option<Ip6Stat>): (r: Result<Stats, string>)
    ensures r.Success? <==> tcp.Some? && ip.Some? && (inet6 ==> ip6.Some?)
    ensures tcp.None? ==> r == Failure(TCP_ERROR)
    ensures tcp.Some? && ip.None? ==> r == Failure(IP_ERROR)
    ensures tcp.Some? && ip.Some? && inet6 && ip6.None? ==> r == Failure(IP6_ERROR)
    ensures r.Success? ==> r.value.bytesSent == tcp.value.sndByte + tcp.value.sndRexmitByte
    ensures r.Success? ==> r.value.bytesReceived == tcp.value.rcvByte + tcp.value.rcvOoByte + tcp.value.rcvDupByte
    ensures r.Success? && !inet6 ==> r.value == TcpTotals(tcp.value)
  {
    match (tcp, ip)
    case (None, _) => Failure(TCP_ERROR)
    case (Some(_), None) => Failure(IP_ERROR)
    case (Some(t), Some(_)) =>
      var base := TcpTotals(t);
      if !inet6 then Success(base)
      else match ip6
        case None => Failure(IP6_ERROR)
        case Some(s6) =>
          Success(base.(packetsSent := base.packetsSent + s6.localOut,
                        packetsReceived := base.packetsReceived + s6.total))
  }

  /** Enabling IPv6 adds its packet counts and leaves the byte totals alone. */
  lemma Ipv6AddsOnlyPackets(t: TcpStat, ip: IpStat, s6: Ip6Stat, other: Option<Ip6Stat>)
    ensures var with6 := NetActivity(Some(t), Some(ip), true, Some(s6)).value;
            var without := NetActivity(Some(t), Some(ip), false, other).value;
      && with6.packetsSent == without.packetsSent + s6.localOut
      && with6.packetsReceived == without.packetsReceived + s6.total
      && with6.bytesSent == without.bytesSent
      && with6.bytesReceived == without.bytesReceived
  {
  }

  /** The IPv4 counters only decide success; their values never reach the totals. */
  lemma IpCountersUnused(tcp: Option<TcpStat>, ip1: IpStat, ip2: IpStat, inet6: bool, ip6: Option<Ip6Stat>)
    ensures NetActivity(tcp, Some(ip1), inet6, ip6) == NetActivity(tcp, Some(ip2), inet6, ip6)
  {
  }
}
