// gen_eth_hdr_data of afxdp/l2fwd/xdpsock.c: the packet that the transmit benchmark sends, built
// from left to right in a zero-initialised buffer.

module PacketGenerator {
  import opened Machine
  import opened OnesComplement
  import opened Packets
  import opened UdpChecksum

  const MIN_PKT_SIZE: int := 64
  const ETH_FCS_SIZE: int := 4
  const PKTGEN_MAGIC: u32 := 0xbe9be955
  const PKTGEN_HLEN: int := 16
  const IPDEFTTL: byte := 64
  const SADDR: Ipv4Addr := [0x0a, 0x0a, 0x0a, 0x10]
  const DADDR: Ipv4Addr := [0x0a, 0x0a, 0x0a, 0x20]

  /** The options that shape the packet; `size` is opt_pkt_size. */
  datatype Options = Options(vlan: bool, tstamp: bool, size: nat, pattern: u32, dmac: Mac, smac: Mac, tci: u16)

  /** What the option parser and main let through. */
  predicate Accepted(o: Options) {
    && MIN_PKT_SIZE <= o.size <= MAX_PKT_SIZE
    && (o.tstamp ==> o.size >= EthHdrSize(o) + IP_HLEN + 8 + PKTGEN_HLEN + ETH_FCS_SIZE)
  }

  function EthHdrSize(o: Options): nat {
    if o.vlan then 18 else 14
  }

  /** Sizes from 64 to 9728 bytes, and with both a time stamp and a VLAN tag at least 66. */
  lemma AcceptedIs(o: Options)
    ensures Accepted(o) <==> 64 <= o.size <= 9728 && (o.tstamp && o.vlan ==> o.size >= 66)
  {
  }

  /** UDP_PKT_SIZE */
  function UdpSize(o: Options): (n: nat)
    requires Accepted(o)
    ensures 8 + (if o.tstamp then PKTGEN_HLEN else 0) <= n && EthHdrSize(o) + IP_HLEN + n == o.size - ETH_FCS_SIZE
  {
    o.size - ETH_FCS_SIZE - EthHdrSize(o) - IP_HLEN
  }

  // ----- the packet

  function Link(o: Options): (r: seq<byte>)
    ensures |r| == EthHdrSize(o)
  {
    o.dmac + o.smac + (if o.vlan then [0x81, 0x00] + Be16(o.tci) + [0x08, 0x00] else [0x08, 0x00])
  }

  /** The IPv4 header before its checksum. */
  function IpHead(o: Options): (r: seq<byte>)
    requires Accepted(o)
    ensures |r| == 20
  {
    [0x45, 0] + Be16(IP_HLEN + UdpSize(o)) + [0, 0, 0, 0, IPDEFTTL, IPPROTO_UDP, 0, 0] + SADDR + DADDR
  }

  ghost function IpSent(o: Options): (r: seq<byte>)
    requires Accepted(o)
    ensures |r| == 20
  {
    Patch(IpHead(o), 10, Le16(0xffff - Canon(WordSum(IpHead(o)))))
  }

  function UdpHead(o: Options): (r: seq<byte>)
    requires Accepted(o)
    ensures |r| == 8
  {
    Be16(0x1000) + Be16(0x1000) + Be16(UdpSize(o)) + [0, 0]
  }

  /** Of the time stamp header only the magic number is written here. */
  function Stamp(o: Options): (r: seq<byte>)
    ensures |r| == if o.tstamp then PKTGEN_HLEN else 0
  {
    if o.tstamp then Be32(PKTGEN_MAGIC) + Zeros(12) else []
  }

  /** The fill pattern in network order, over and over. */
  function Filling(pattern: u32, n: nat): (r: seq<byte>)
    ensures |r| == n
  {
    seq(n, i requires 0 <= i < n => Be32(pattern)[i % 4])
  }

  /** The datagram before its checksum. */
  function Datagram(o: Options): (r: seq<byte>)
    requires Accepted(o)
    ensures |r| == UdpSize(o)
  {
    UdpHead(o) + Stamp(o) + Filling(o.pattern, UdpSize(o) - 8 - |Stamp(o)|)
  }

  ghost function UdpCheck(o: Options): u16
    requires Accepted(o)
  {
    0xffff - Canon(WordSum(PseudoHeader(SADDR, DADDR, IPPROTO_UDP, UdpSize(o)) + Datagram(o)))
  }

  ghost function UdpSent(o: Options): (r: seq<byte>)
    requires Accepted(o)
    ensures |r| == UdpSize(o)
  {
    Patch(Datagram(o), 6, Le16(UdpCheck(o)))
  }

  /** The buffer after gen_eth_hdr_data. */
  ghost function Generated(o: Options): (r: seq<byte>)
    requires Accepted(o)
    ensures |r| == MAX_PKT_SIZE
  {
    Link(o) + IpSent(o) + UdpSent(o) + Zeros(MAX_PKT_SIZE - (o.size - ETH_FCS_SIZE))
  }

  lemma PartsVerify(o: Options)
    requires Accepted(o)
    ensures Verifies(IpSent(o))
    ensures Verifies(PseudoHeader(SADDR, DADDR, IPPROTO_UDP, UdpSize(o)) + UdpSent(o))
  {
    hide WordSum, Canon, Patch;
    var head, ph, d := IpHead(o), PseudoHeader(SADDR, DADDR, IPPROTO_UDP, UdpSize(o)), Datagram(o);
    StoredChecksumVerifies(head, 5);
    assert (ph + d)[18] == d[6] == 0 && (ph + d)[19] == d[7] == 0;
    StoredChecksumVerifies(ph + d, 9);
    assert Patch(ph + d, 18, Le16(UdpCheck(o))) == ph + Patch(d, 6, Le16(UdpCheck(o)));
  }

  /** For every accepted packet size, odd ones included, and all other options, the IPv4 header
      that is generated verifies, and so does the UDP datagram behind the pseudo-header that its
      own addresses, protocol and length give. */
  lemma GeneratedVerifies(o: Options)
    requires Accepted(o)
    ensures var g, at := Generated(o), EthHdrSize(o);
      var datagram := g[at + 20..o.size - ETH_FCS_SIZE];
      && Verifies(g[at..at + 20]) && g[at + 9] == IPPROTO_UDP && datagram[4..6] == Be16(|datagram|)
      && g[at + 12..at + 16] == SADDR && g[at + 16..at + 20] == DADDR
      && Verifies(PseudoHeader(SADDR, DADDR, IPPROTO_UDP, |datagram|) + datagram)
  {
    hide WordSum, Canon, PseudoHeader, UdpCheck, Link, Be16, Generated, IpSent, UdpSent;
    PartsVerify(o);
    Parts(o);
    HeadersOwn(o);
    var g, at := Generated(o), EthHdrSize(o);
    assert g[at + 9] == g[at..at + 20][9] == IpSent(o)[9];
    Slice(g, at, 20, 12, 16);
    Slice(g, at, 20, 16, 20);
  }

  lemma Slice(g: seq<byte>, at: nat, n: nat, i: nat, j: nat)
    requires at + n <= |g| && i <= j <= n
    ensures g[at + i..at + j] == g[at..at + n][i..j]
  {
    var part, slice := g[at..at + n], g[at + i..at + j];
    assert |slice| == |part[i..j]|;
    forall k | 0 <= k < j - i ensures slice[k] == part[i..j][k] {
      assert slice[k] == g[at + (i + k)] == part[i + k];
    }
  }

  lemma HeadersOwn(o: Options)
    requires Accepted(o)
    ensures IpSent(o)[9] == IPPROTO_UDP && IpSent(o)[12..16] == SADDR && IpSent(o)[16..20] == DADDR
    ensures UdpSent(o)[4..6] == Be16(UdpSize(o))
  {
    hide WordSum, Canon, UdpCheck, Be16, Filling, Stamp;
    assert UdpSent(o)[4..6] == UdpHead(o)[4..6] == Be16(UdpSize(o));
  }

  /** What stands where in the packet: link header, IPv4 header, UDP header and filling, every
      number read in network order. */
  lemma GeneratedFields(o: Options)
    requires Accepted(o)
    ensures var g, ip := Generated(o), if o.vlan then 18 else 14;
      var data := ip + 28 + if o.tstamp then 16 else 0;
      && g[0..6] == o.dmac && g[6..12] == o.smac && Net16(g, ip - 2) == 0x0800
      && (o.vlan ==> Net16(g, 12) == 0x8100 && Net16(g, 14) == o.tci)
      && g[ip] == 0x45 && Net16(g, ip + 2) == o.size - 4 - ip && g[ip + 8] == 64 && g[ip + 9] == 17
      && Net32(g, ip + 12) == 0x0a0a0a10 && Net32(g, ip + 16) == 0x0a0a0a20
      && Net16(g, ip + 20) == 0x1000 && Net16(g, ip + 22) == 0x1000 && Net16(g, ip + 24) == o.size - 4 - ip - 20
      && (o.tstamp ==> Net32(g, ip + 28) == 0xbe9be955)
      && forall w :: 0 <= w < (o.size - 4 - data) / 4 ==> WordAt(g, data, w) == o.pattern
  {
    hide Link, IpSent, UdpSent, Generated, Net16, Net32, WordAt;
    var g, at := Generated(o), EthHdrSize(o);
    Parts(o);
    LinkInPacket(o, g);
    IpInPacket(o, g, at);
    UdpInPacket(o, g, at + 20);
  }

  lemma LinkInPacket(o: Options, g: seq<byte>)
    requires EthHdrSize(o) <= |g| && g[..EthHdrSize(o)] == Link(o)
    ensures g[0..6] == o.dmac && g[6..12] == o.smac && Net16(g, EthHdrSize(o) - 2) == 0x0800
    ensures o.vlan ==> Net16(g, 12) == 0x8100 && Net16(g, 14) == o.tci
  {
    hide Link, Net16, Net32;
    LinkFields(o);
    Slice(g, 0, |Link(o)|, 0, 6);
    Slice(g, 0, |Link(o)|, 6, 12);
    Shifted(g, 0, Link(o), EthHdrSize(o) - 2);
    if o.vlan {
      Shifted(g, 0, Link(o), 12);
      Shifted(g, 0, Link(o), 14);
    }
  }

  lemma IpInPacket(o: Options, g: seq<byte>, at: nat)
    requires Accepted(o) && at + 20 <= |g| && g[at..at + 20] == IpSent(o)
    ensures g[at] == 0x45 && Net16(g, at + 2) == o.size - 4 - EthHdrSize(o) && g[at + 8] == 64 && g[at + 9] == 17
    ensures Net32(g, at + 12) == 0x0a0a0a10 && Net32(g, at + 16) == 0x0a0a0a20
  {
    hide IpSent, Net16, Net32;
    IpFields(o);
    assert g[at] == IpSent(o)[0] && g[at + 8] == IpSent(o)[8] && g[at + 9] == IpSent(o)[9];
    Shifted(g, at, IpSent(o), 2);
    Shifted(g, at, IpSent(o), 12);
    Shifted(g, at, IpSent(o), 16);
  }

  lemma UdpInPacket(o: Options, g: seq<byte>, at: nat)
    requires Accepted(o) && at + UdpSize(o) <= |g| && g[at..at + UdpSize(o)] == UdpSent(o)
    ensures Net16(g, at) == 0x1000 && Net16(g, at + 2) == 0x1000 && Net16(g, at + 4) == UdpSize(o)
    ensures o.tstamp ==> Net32(g, at + 8) == 0xbe9be955
    ensures var data := at + 8 + if o.tstamp then 16 else 0;
      forall w :: 0 <= w < (at + UdpSize(o) - data) / 4 ==> WordAt(g, data, w) == o.pattern
  {
    hide UdpSent, Net16, Net32, WordAt;
    UdpFields(o);
    var n, data := UdpSize(o), |UdpHead(o)| + |Stamp(o)|;
    Shifted(g, at, UdpSent(o), 0);
    Shifted(g, at, UdpSent(o), 2);
    Shifted(g, at, UdpSent(o), 4);
    Shifted(g, at, UdpSent(o), 8);
    Slice(g, at, n, data, n);
    FillingWords(g, at + data, o.pattern, n - data);
  }

  lemma Parts(o: Options)
    requires Accepted(o)
    ensures var g, at, end := Generated(o), EthHdrSize(o), o.size - ETH_FCS_SIZE;
      g[..at] == Link(o) && g[at..at + 20] == IpSent(o) && g[at + 20..end] == UdpSent(o)
  {
    hide Link, IpSent, UdpSent;
  }

  /** Numbers in a part of a packet, read in the packet. */
  lemma Shifted(g: seq<byte>, at: nat, part: seq<byte>, i: nat)
    requires at + |part| <= |g| && g[at..at + |part|] == part
    ensures i + 2 <= |part| ==> Net16(g, at + i) == Net16(part, i)
    ensures i + 4 <= |part| ==> Net32(g, at + i) == Net32(part, i)
  {
    if i + 2 <= |part| {
      assert part[i] == g[at + i] && part[i + 1] == g[at + i + 1];
    }
    if i + 4 <= |part| {
      assert part[i + 2] == g[at + i + 2] && part[i + 3] == g[at + i + 3];
    }
  }

  lemma LinkFields(o: Options)
    ensures var l := Link(o);
      && l[0..6] == o.dmac && l[6..12] == o.smac && Net16(l, EthHdrSize(o) - 2) == 0x0800
      && (o.vlan ==> Net16(l, 12) == 0x8100 && Net16(l, 14) == o.tci)
  {
  }

  lemma IpFields(o: Options)
    requires Accepted(o)
    ensures var h := IpSent(o);
      && h[0] == 0x45 && Net16(h, 2) == o.size - 4 - EthHdrSize(o) && h[8] == 64 && h[9] == 17
      && Net32(h, 12) == 0x0a0a0a10 && Net32(h, 16) == 0x0a0a0a20
  {
    hide WordSum, Canon, Le16;
  }

  lemma UdpFields(o: Options)
    requires Accepted(o)
    ensures var d, data := UdpSent(o), |UdpHead(o)| + |Stamp(o)|;
      && Net16(d, 0) == 0x1000 && Net16(d, 2) == 0x1000 && Net16(d, 4) == |d|
      && (o.tstamp ==> Net32(d, 8) == 0xbe9be955) && d[data..] == Filling(o.pattern, |d| - data)
  {
    hide WordSum, Canon, Le16, UdpCheck, Filling;
  }

  // ----- writing it

  /** The buffer holds `done` and is zero behind it. */
  ghost predicate Built(p: seq<byte>, done: seq<byte>) {
    |done| <= |p| && p == done + Zeros(|p| - |done|)
  }

  /** Writing at the end of what has been written so far. */
  method Append(pkt: array<byte>, at: nat, b: seq<byte>, ghost done: seq<byte>)
    requires at == |done| && at + |b| <= pkt.Length && Built(pkt[..], done)
    modifies pkt
    ensures Built(pkt[..], done + b)
  {
    Write(pkt, at, b);
  }

  /** The w-th word from `at` on, read in network order. */
  function WordAt(m: seq<byte>, at: nat, w: nat): u32
    requires at + 4 * w + 4 <= |m|
  {
    Net32(m, at + 4 * w)
  }

  /** Every whole word of a filling is the pattern. */
  lemma FillingWords(p: seq<byte>, at: nat, val: u32, size: nat)
    requires at + size <= |p| && p[at..at + size] == Filling(val, size)
    ensures forall w :: 0 <= w < size / 4 ==> WordAt(p, at, w) == val
  {
    hide Be32, Filling;
    forall w | 0 <= w < size / 4 ensures WordAt(p, at, w) == val {
      FillingWord(p, at, val, size, w);
    }
  }

  lemma FillingWord(p: seq<byte>, at: nat, val: u32, size: nat, w: nat)
    requires at + size <= |p| && p[at..at + size] == Filling(val, size) && 4 * w + 4 <= size
    ensures WordAt(p, at, w) == val
  {
    hide Be32;
    var f, b, i := Filling(val, size), Be32(val), 4 * w;
    assert f[i] == b[0] && f[i + 1] == b[1] && f[i + 2] == b[2] && f[i + 3] == b[3];
    assert f[i] == p[at + i] && f[i + 1] == p[at + i + 1] && f[i + 2] == p[at + i + 2] && f[i + 3] == p[at + i + 3];
  }

  lemma Patched(p: seq<byte>, at: nat, b: seq<byte>)
    requires at + |b| <= |p|
    ensures Patch(p, at, b)[at..at + |b|] == b
  {
  }

  /** memset32_htonl: whole words, then the bytes of the last one. */
  method MemSet32(pkt: array<byte>, at: nat, val: u32, size: nat)
    requires at + size <= pkt.Length
    modifies pkt
    ensures pkt[..] == Patch(old(pkt[..]), at, Filling(val, size))
    ensures forall w :: 0 <= w < size / 4 ==> WordAt(pkt[..], at, w) == val
  {
    hide Be32, WordAt;
    ghost var was := pkt[..];
    var word := Be32(val);
    var i, whole := 0, size / 4 * 4;
    ghost var h := 0;
    while i < whole
      invariant i == 4 * h <= whole
      invariant forall k :: 0 <= k < pkt.Length ==> pkt[k] == if at <= k < at + i then word[(k - at) % 4] else was[k]
      decreases whole - i
    {
      pkt[at + i], pkt[at + i + 1], pkt[at + i + 2], pkt[at + i + 3] := word[0], word[1], word[2], word[3];
      i := i + 4;
      h := h + 1;
    }
    while i < size
      invariant whole <= i <= size
      invariant forall k :: 0 <= k < pkt.Length ==> pkt[k] == if at <= k < at + i then word[(k - at) % 4] else was[k]
    {
      pkt[at + i] := word[i % 4];
      i := i + 1;
    }
    assert pkt[..] == Patch(was, at, Filling(val, size));
    Patched(was, at, Filling(val, size));
    FillingWords(pkt[..], at, val, size);
  }

  method WriteLink(pkt: array<byte>, o: Options)
    requires pkt.Length == MAX_PKT_SIZE && Built(pkt[..], [])
    modifies pkt
    ensures Built(pkt[..], Link(o))
  {
    hide Built, Be16;
    ghost var done := o.dmac + o.smac;
    Append(pkt, 0, o.dmac, []);
    Append(pkt, 6, o.smac, [] + o.dmac);
    assert [] + o.dmac + o.smac == done;
    if o.vlan {
      Append(pkt, 12, [0x81, 0x00], done);
      Append(pkt, 14, Be16(o.tci), done + [0x81, 0x00]);
      Append(pkt, 16, [0x08, 0x00], done + [0x81, 0x00] + Be16(o.tci));
      assert done + [0x81, 0x00] + Be16(o.tci) + [0x08, 0x00] == Link(o);
    } else {
      Append(pkt, 12, [0x08, 0x00], done);
    }
  }

  /** The header fields, then the checksum over them. */
  method WriteIp(pkt: array<byte>, o: Options, addr: nat, ghost done: seq<byte>)
    requires Accepted(o) && pkt.Length == MAX_PKT_SIZE && |done| == EthHdrSize(o) && Built(pkt[..], done)
    modifies pkt
    ensures Built(pkt[..], done + IpSent(o))
  {
    hide WordSum, Canon, Patch, Le16;
    var at := EthHdrSize(o);
    WriteIpHead(pkt, o, at, done);
    assert pkt[at..at + 20] == IpHead(o);
    var check := IpFastCsum(pkt[at..at + 20], addr + at, 5);
    assert IpHead(o)[..20] == IpHead(o);
    Write(pkt, at + 10, Le16(check));
    PatchedAfter(done, IpHead(o), Zeros(MAX_PKT_SIZE - |done| - 20), 10, Le16(check));
  }

  method WriteIpHead(pkt: array<byte>, o: Options, at: nat, ghost done: seq<byte>)
    requires Accepted(o) && pkt.Length == MAX_PKT_SIZE && at == |done| == EthHdrSize(o) && Built(pkt[..], done)
    modifies pkt
    ensures Built(pkt[..], done + IpHead(o))
  {
    hide Built, Be16;
    var size := Be16(IP_HLEN + UdpSize(o));
    Append(pkt, at, [0x45, 0], done);
    Append(pkt, at + 2, size, done + [0x45, 0]);
    ghost var fixed: seq<byte> := [0, 0, 0, 0, IPDEFTTL, IPPROTO_UDP, 0, 0];
    Append(pkt, at + 4, [0, 0, 0, 0, IPDEFTTL, IPPROTO_UDP, 0, 0], done + [0x45, 0] + size);
    Append(pkt, at + 12, SADDR, done + [0x45, 0] + size + fixed);
    Append(pkt, at + 16, DADDR, done + [0x45, 0] + size + fixed + SADDR);
    assert done + [0x45, 0] + size + fixed + SADDR + DADDR == done + IpHead(o);
  }

  method WriteUdpHead(pkt: array<byte>, o: Options, at: nat, ghost done: seq<byte>)
    requires Accepted(o) && pkt.Length == MAX_PKT_SIZE && Built(pkt[..], done)
    requires at == |done| == EthHdrSize(o) + IP_HLEN
    modifies pkt
    ensures Built(pkt[..], done + UdpHead(o))
  {
    hide Built, Be16;
    Append(pkt, at, Be16(0x1000), done);
    Append(pkt, at + 2, Be16(0x1000), done + Be16(0x1000));
    Append(pkt, at + 4, Be16(UdpSize(o)), done + Be16(0x1000) + Be16(0x1000));
    Append(pkt, at + 6, [0, 0], done + Be16(0x1000) + Be16(0x1000) + Be16(UdpSize(o)));
    assert done + Be16(0x1000) + Be16(0x1000) + Be16(UdpSize(o)) + [0, 0] == done + UdpHead(o);
  }

  method WriteStamp(pkt: array<byte>, o: Options, at: nat, ghost done: seq<byte>)
    requires at == |done| && at + |Stamp(o)| <= pkt.Length && Built(pkt[..], done)
    modifies pkt
    ensures Built(pkt[..], done + Stamp(o))
  {
    if o.tstamp {
      Append(pkt, at, Be32(PKTGEN_MAGIC), done);
      assert Zeros(pkt.Length - at - 4) == Zeros(12) + Zeros(pkt.Length - at - 16);
    }
  }

  /** Header, time stamp header and filling. */
  method WriteDatagram(pkt: array<byte>, o: Options, at: nat, ghost done: seq<byte>)
    requires Accepted(o) && pkt.Length == MAX_PKT_SIZE && Built(pkt[..], done)
    requires at == |done| == EthHdrSize(o) + IP_HLEN
    modifies pkt
    ensures Built(pkt[..], done + Datagram(o))
  {
    hide Built, Filling, Stamp, UdpHead;
    WriteUdpHead(pkt, o, at, done);
    WriteStamp(pkt, o, at + 8, done + UdpHead(o));
    var hdr := if o.tstamp then 8 + PKTGEN_HLEN else 8;
    Fill(pkt, at + hdr, o.pattern, UdpSize(o) - hdr, done + UdpHead(o) + Stamp(o));
    assert done + UdpHead(o) + Stamp(o) + Filling(o.pattern, UdpSize(o) - hdr) == done + Datagram(o);
  }

  method Fill(pkt: array<byte>, at: nat, val: u32, size: nat, ghost done: seq<byte>)
    requires at == |done| && at + size <= pkt.Length && Built(pkt[..], done)
    modifies pkt
    ensures Built(pkt[..], done + Filling(val, size))
  {
    hide Filling, Patch;
    Extended(done, pkt.Length - at, Filling(val, size));
    MemSet32(pkt, at, val, size);
  }

  lemma Extended(done: seq<byte>, n: nat, b: seq<byte>)
    requires |b| <= n
    ensures Patch(done + Zeros(n), |done|, b) == done + b + Zeros(n - |b|)
  {
  }

  lemma PatchedAfter(done: seq<byte>, s: seq<byte>, rest: seq<byte>, at: nat, b: seq<byte>)
    requires at + |b| <= |s|
    ensures Patch(done + s + rest, |done| + at, b) == done + Patch(s, at, b) + rest
  {
  }

  /** Behind a datagram that ends in the zeroed part of the buffer, udp_csum gives the
      complement of the sum that a receiver takes, for odd sizes too. */
  lemma UdpCheckIs(o: Options, tail: seq<byte>)
    requires Accepted(o) && |tail| >= 1 && tail[0] == 0
    ensures Even(UdpSize(o)) <= UdpSize(o) + |tail|
    ensures UdpCheck(o) == 0xffff - Canon(CsumTcpUdpNofold(Load32(SADDR, 0), Load32(DADDR, 0), UdpSize(o), IPPROTO_UDP,
                                                           DatagramSum(Datagram(o) + tail, UdpSize(o))))
  {
    hide WordSum, Canon, CsumTcpUdpNofold, PseudoHeader, Datagram;
    var n, d := UdpSize(o), Datagram(o);
    var even := Even(n);
    var s := (d + tail)[..even];
    SumBound(s, even / 2);
    PseudoHeaderSum(SADDR, DADDR, IPPROTO_UDP, n, WordSum(s));
    WordSumAppend(PseudoHeader(SADDR, DADDR, IPPROTO_UDP, n), d, 6);
    if even == n {
      assert s == d;
    } else {
      OddTail(s, even / 2);
      assert s[..even] == s && s[..even - 1] == d;
    }
  }

  /** The datagram, then the checksum over it. */
  method WriteUdp(pkt: array<byte>, o: Options, ghost done: seq<byte>)
    requires Accepted(o) && pkt.Length == MAX_PKT_SIZE && |done| == EthHdrSize(o) + IP_HLEN && Built(pkt[..], done)
    modifies pkt
    ensures Built(pkt[..], done + UdpSent(o))
  {
    hide WordSum, Canon, Patch, Le16, Datagram, UdpCheck, CsumTcpUdpNofold;
    var at := EthHdrSize(o) + IP_HLEN;
    WriteDatagram(pkt, o, at, done);
    ghost var rest := Zeros(MAX_PKT_SIZE - at - UdpSize(o));
    UdpCheckIs(o, rest);
    assert pkt[at..] == Datagram(o) + rest;
    var check := UdpCsum(Load32(SADDR, 0), Load32(DADDR, 0), UdpSize(o), IPPROTO_UDP, pkt[at..]);
    Write(pkt, at + 6, Le16(check));
    PatchedAfter(done, Datagram(o), rest, 6, Le16(check));
  }

  /** gen_eth_hdr_data */
  method GenEthHdrData(pkt: array<byte>, o: Options, addr: nat)
    requires Accepted(o) && pkt.Length == MAX_PKT_SIZE && pkt[..] == Zeros(MAX_PKT_SIZE)
    modifies pkt
    ensures pkt[..] == Generated(o)
  {
    hide Link, IpSent, UdpSent;
    assert pkt[..] == [] + Zeros(MAX_PKT_SIZE);
    WriteLink(pkt, o);
    WriteIp(pkt, o, addr, Link(o));
    WriteUdp(pkt, o, Link(o) + IpSent(o));
  }
}
