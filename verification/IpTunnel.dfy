// xdp_progs/xdp_tx_iptunnel.bpf.c: an IPv4 packet wrapped in an outer IPv4 header that is
// built, in place, over the old Ethernet header and the headroom in front of it.

module IpTunnel {
  import opened Machine
  import opened OnesComplement
  import opened Packets

  const AF_INET: u16 := 2

  datatype Vip = Vip(protocol: byte, family: u16, daddr: Ipv4Addr, dport: u16)
  datatype TunnelInfo = TunnelInfo(family: u16, saddr: Ipv4Addr, daddr: Ipv4Addr, dmac: Mac)

  /** get_dport: the raw destination port, 0 for other protocols, None for a cut-off header. */
  function GetDport(p: seq<byte>): Option<u16>
    requires |p| >= 34
  {
    if p[23] == IPPROTO_TCP then
      if |p| < 54 then None else Some(Load16(p, 36))
    else if p[23] == IPPROTO_UDP then
      if |p| < 42 then None else Some(Load16(p, 36))
    else Some(0)
  }

  datatype Decision = Leave(action: XdpAction) | Encapsulate(tnl: TunnelInfo)

  function Decide(p: seq<byte>, vip2tnl: map<Vip, TunnelInfo>, adjustOk: bool): Decision {
    if |p| < 34 then Leave(Drop)
    else match GetDport(p)
      case None => Leave(Drop)
      case Some(dport) =>
        var vip := Vip(p[23], AF_INET, p[30..34], dport);
        if vip !in vip2tnl || vip2tnl[vip].family != AF_INET then Leave(Pass)
        else if !adjustOk then Leave(Drop)
        else Encapsulate(vip2tnl[vip])
  }

  /** Exactly which packets are encapsulated, and for which tunnel: protocol, destination address
      and destination port of a complete transport header decide, the source port does not. */
  lemma EncapsulatedIff(p: seq<byte>, vip2tnl: map<Vip, TunnelInfo>, adjustOk: bool)
    requires |p| >= 34
    ensures var need := if p[23] == 6 then 54 else if p[23] == 17 then 42 else 34;
      var d := Decide(p, vip2tnl, adjustOk);
      && (|p| < need ==> d == Leave(Drop))
      && (|p| >= need ==>
            var dport := if need > 34 then p[36] as int + 0x100 * p[37] as int else 0;
            var vip := Vip(p[23], 2, p[30..34], dport);
            && (d.Encapsulate? <==> vip in vip2tnl && vip2tnl[vip].family == 2 && adjustOk)
            && (d.Encapsulate? ==> d.tnl == vip2tnl[vip])
            && (d.Leave? ==> d.action == if vip in vip2tnl && vip2tnl[vip].family == 2 then Drop else Pass))
  {
  }

  /** The total length announced by an IPv4 packet behind an Ethernet header. */
  function TotLen(p: seq<byte>): u16
    requires |p| >= 34
  {
    TWO8 * p[16] + p[17]
  }

  /** The outer header before its checksum. The identification field is not written: it keeps
      the two bytes that were in the headroom. */
  function Outer(p: seq<byte>, id: seq<byte>, tnl: TunnelInfo): (r: seq<byte>)
    requires |p| >= 34 && |id| == 2
    ensures |r| == 20
  {
    Header((TotLen(p) + 20) % TWO16, id, tnl)
  }

  function Header(totLen: u16, id: seq<byte>, tnl: TunnelInfo): (r: seq<byte>)
    requires |id| == 2
    ensures |r| == 20
  {
    [0x45, 0] + Be16(totLen) + id + [0, 0, 8, IPPROTO_IPIP, 0, 0] + tnl.saddr + tnl.daddr
  }

  /** The outer header as sent: its words summed up, folded once, complemented and stored. */
  ghost function OuterSent(p: seq<byte>, id: seq<byte>, tnl: TunnelInfo): (r: seq<byte>)
    requires |p| >= 34 && |id| == 2
    ensures |r| == 20
  {
    HeaderSum(Outer(p, id, tnl));
    Patch(Outer(p, id, tnl), 10, Le16(0xffff - FoldedOnce(WordSum(Outer(p, id, tnl)))))
  }

  lemma HeaderSum(h: seq<byte>)
    requires |h| == 20
    ensures WordSum(h) == Load16(h, 0) + Load16(h, 2) + Load16(h, 4) + Load16(h, 6) + Load16(h, 8)
      + Load16(h, 10) + Load16(h, 12) + Load16(h, 14) + Load16(h, 16) + Load16(h, 18)
    ensures WordSum(h) <= 10 * 0xffff
  {
    hide WordSum;
    assert h[..20] == h;
    EmptySum(h[..0]);
    WordSumStep16(h, 0); WordSumStep16(h, 1); WordSumStep16(h, 2); WordSumStep16(h, 3); WordSumStep16(h, 4);
    WordSumStep16(h, 5); WordSumStep16(h, 6); WordSumStep16(h, 7); WordSumStep16(h, 8); WordSumStep16(h, 9);
  }

  /** The buffer after encapsulating the packet that starts at head. */
  ghost function Encapsulated(b: seq<byte>, head: nat, tnl: TunnelInfo): (r: seq<byte>)
    requires 20 <= head && head + 34 <= |b|
    ensures |r| == |b|
  {
    var link := tnl.dmac + b[head..head + 6] + [0x08, 0x00];
    Patch(Patch(b, head - 20, link), head - 6, OuterSent(b[head..], b[head - 2..head], tnl))
  }

  /** handle_ipv4 on a packet that starts at index head of its buffer. On success the packet
      starts 20 bytes earlier. */
  method HandleIpv4(buf: array<byte>, head: nat, vip2tnl: map<Vip, TunnelInfo>, adjustOk: bool)
    returns (action: XdpAction, head': nat)
    requires head <= buf.Length && (adjustOk ==> head >= 20)
    modifies buf
    ensures match Decide(old(buf[head..]), vip2tnl, adjustOk)
      case Leave(a) => action == a && head' == head && buf[..] == old(buf[..])
      case Encapsulate(tnl) =>
        action == Tx && head' == head - 20 && buf[..] == Encapsulated(old(buf[..]), head, tnl)
  {
    hide WordSum, Patch, OuterSent, Outer;
    head' := head;
    var p := buf[head..];
    assert p == buf[..][head..];
    if |p| < 34 {
      return Drop, head;
    }
    var dport := GetDport(p);
    if dport.None? {
      return Drop, head;
    }
    var vip := Vip(p[23], AF_INET, p[30..34], dport.value);
    if vip !in vip2tnl || vip2tnl[vip].family != AF_INET {
      return Pass, head;
    }
    if !adjustOk {
      return Drop, head;
    }
    Wrap(buf, head, TotLen(p), vip2tnl[vip]);
    return Tx, head - 20;
  }

  /** Everything after the head was moved: data, old_eth and iph are head - 20, head and head - 6. */
  method Wrap(buf: array<byte>, head: nat, payloadLen: u16, tnl: TunnelInfo)
    requires 20 <= head && head + 34 <= buf.Length && payloadLen == TotLen(buf[head..])
    modifies buf
    ensures buf[..] == Encapsulated(old(buf[..]), head, tnl)
  {
    hide WordSum, Patch, Header, FoldedOnce;
    ghost var b := buf[..];
    SetEthhdr(buf, head - 20, tnl.dmac);
    ghost var linked := buf[..];
    assert linked[head - 2..head] == b[head - 2..head];
    WriteOuter(buf, head - 6, payloadLen, tnl);
    ghost var outer := Outer(b[head..], b[head - 2..head], tnl);
    Checksum(buf, head - 6, linked, outer);
  }

  /** The checksum of the outer header already in place, stored into it. */
  method Checksum(buf: array<byte>, iph: nat, ghost linked: seq<byte>, ghost outer: seq<byte>)
    requires iph + 20 <= |linked| == buf.Length && |outer| == 20 && buf[..] == Patch(linked, iph, outer)
    modifies buf
    ensures WordSum(outer) < TWO32
    ensures buf[..] == Patch(linked, iph, Patch(outer, 10, Le16(0xffff - FoldedOnce(WordSum(outer)))))
  {
    hide WordSum, Patch, FoldedOnce;
    assert buf[iph..iph + 20] == outer;
    var csum := SumHeader(buf, iph);
    var check: u16 := 0xffff - FoldedOnce(csum);
    PatchWithin(linked, iph, outer, 10, Le16(check));
    Write(buf, iph + 10, Le16(check));
  }

  /** set_ethhdr: the old destination becomes the source; the old header starts 20 bytes on. */
  method SetEthhdr(buf: array<byte>, data: nat, dmac: Mac)
    requires data + 34 <= buf.Length
    modifies buf
    ensures buf[..] == Patch(old(buf[..]), data, dmac + old(buf[..])[data + 20..data + 26] + [0x08, 0x00])
  {
    hide Patch;
    Write(buf, data + 6, buf[data + 20..data + 26]);
    Write(buf, data, dmac);
    Write(buf, data + 12, [0x08, 0x00]);
  }

  /** The header fields, in the order of the source: first those that are the same for every
      packet, then length, addresses and time to live. */
  method WriteOuter(buf: array<byte>, iph: nat, payloadLen: u16, tnl: TunnelInfo)
    requires iph + 20 <= buf.Length
    modifies buf
    ensures buf[..] == Patch(old(buf[..]), iph, Header((payloadLen + 20) % TWO16, old(buf[..])[iph + 4..iph + 6], tnl))
  {
    hide Patch, Be16;
    WriteFixed(buf, iph);
    Write(buf, iph + 2, Be16((payloadLen + 20) % TWO16));
    Write(buf, iph + 16, tnl.daddr);
    Write(buf, iph + 12, tnl.saddr);
    buf[iph + 8] := 8;
  }

  method WriteFixed(buf: array<byte>, iph: nat)
    requires iph + 20 <= buf.Length
    modifies buf
    ensures forall i :: 0 <= i < buf.Length ==>
      buf[i] == (if i == iph then 0x45
                 else if i == iph + 9 then IPPROTO_IPIP
                 else if i in {iph + 1, iph + 6, iph + 7, iph + 10, iph + 11} then 0
                 else old(buf[i]))
  {
    buf[iph] := 0x45;
    buf[iph + 6], buf[iph + 7] := 0, 0;
    buf[iph + 9] := IPPROTO_IPIP;
    buf[iph + 10], buf[iph + 11] := 0, 0;
    buf[iph + 1] := 0;
  }

  method SumHeader(buf: array<byte>, iph: nat) returns (csum: u32)
    requires iph + 20 <= buf.Length
    ensures csum == WordSum(buf[iph..iph + 20])
  {
    hide WordSum, Load16;
    var h := buf[iph..iph + 20];
    csum := 0;
    EmptySum(h[..0]);
    for i := 0 to 10
      invariant csum == WordSum(h[..2 * i]) && csum <= 0xffff * i
    {
      WordSumStep16(h, i);
      csum := csum + Load16(h, 2 * i);
    }
    assert h[..20] == h;
  }

  /** The original IP packet follows the outer header byte for byte, so stripping the 20 added
      bytes gives it back; the link header goes from the old destination to the tunnel end;
      the headroom in front is untouched. */
  lemma OriginalIntact(b: seq<byte>, head: nat, tnl: TunnelInfo)
    requires 20 <= head && head + 34 <= |b|
    ensures var r := Encapsulated(b, head, tnl);
      && r[head + 14..] == b[head + 14..]
      && r[head - 6..head + 14] == OuterSent(b[head..], b[head - 2..head], tnl)
      && r[head - 20..head - 6] == tnl.dmac + b[head..head + 6] + [0x08, 0x00]
      && r[..head - 20] == b[..head - 20]
  {
    hide Patch, OuterSent;
  }

  /** What the outer headers say, byte by byte: an IPv4 header without options or fragments, 20
      bytes longer than the packet inside, with time to live 8, IP-in-IP and the addresses of the
      tunnel. */
  lemma OuterBytes(b: seq<byte>, head: nat, tnl: TunnelInfo)
    requires 20 <= head && head + 34 <= |b|
    ensures var r, o := Encapsulated(b, head, tnl), head - 6;
      && r[o - 14..o - 8] == tnl.dmac && r[o - 8..o - 2] == b[head..head + 6] && Net16(r, o - 2) == 0x0800
      && r[o] == 0x45 && r[o + 1] == 0 && Net16(r, o + 2) == (Net16(b, head + 16) + 20) % 0x1_0000
      && r[o + 4..o + 6] == b[head - 2..head] && r[o + 6] == r[o + 7] == 0 && r[o + 8] == 8 && r[o + 9] == 4
      && r[o + 12..o + 16] == tnl.saddr && r[o + 16..o + 20] == tnl.daddr
  {
    hide Patch, OuterSent;
    OriginalIntact(b, head, tnl);
    HeaderBytes(b[head..], b[head - 2..head], tnl);
    var r, o, h := Encapsulated(b, head, tnl), head - 6, OuterSent(b[head..], b[head - 2..head], tnl);
    assert forall i :: 0 <= i < 20 ==> r[o..o + 20][i] == h[i];
    assert r[o + 4..o + 6] == h[4..6] && r[o + 12..o + 16] == h[12..16] && r[o + 16..o + 20] == h[16..20];
  }

  lemma HeaderBytes(p: seq<byte>, id: seq<byte>, tnl: TunnelInfo)
    requires |p| >= 34 && |id| == 2
    ensures var h := OuterSent(p, id, tnl);
      && h[0] == 0x45 && h[1] == 0 && Net16(h, 2) == (Net16(p, 16) + 20) % 0x1_0000
      && h[4..6] == id && h[6] == h[7] == 0 && h[8] == 8 && h[9] == 4
      && h[12..16] == tnl.saddr && h[16..20] == tnl.daddr
  {
    hide WordSum, FoldedOnce, Le16, Header, Net16, Patch, TotLen;
    var len := (TotLen(p) + 20) % TWO16;
    HeaderFields(len, id, tnl);
    TotLenIs(p);
    var g, h := Header(len, id, tnl), OuterSent(p, id, tnl);
    HeaderSum(g);
    assert h == Patch(g, 10, Le16(0xffff - FoldedOnce(WordSum(g))));
    assert h[4..6] == g[4..6] && h[12..16] == g[12..16] && h[16..20] == g[16..20];
    Net16Same(h, g, 2);
  }

  lemma Net16Same(a: seq<byte>, b: seq<byte>, i: nat)
    requires i + 2 <= |a| && i + 2 <= |b| && a[i] == b[i] && a[i + 1] == b[i + 1]
    ensures Net16(a, i) == Net16(b, i)
  {
  }

  lemma TotLenIs(p: seq<byte>)
    requires |p| >= 34
    ensures TotLen(p) == Net16(p, 16)
  {
  }

  lemma HeaderFields(totLen: u16, id: seq<byte>, tnl: TunnelInfo)
    requires |id| == 2
    ensures var h := Header(totLen, id, tnl);
      && h[0] == 0x45 && h[1] == 0 && Net16(h, 2) == totLen
      && h[4..6] == id && h[6] == h[7] == 0 && h[8] == 8 && h[9] == 4
      && h[12..16] == tnl.saddr && h[16..20] == tnl.daddr
  {
  }

  /** The outer header verifies exactly when the two halves of its 32-bit sum add up without
      a carry: the program folds only once. */
  lemma OuterVerifies(p: seq<byte>, id: seq<byte>, tnl: TunnelInfo)
    requires |p| >= 34 && |id| == 2
    ensures var sum := WordSum(Outer(p, id, tnl));
      Verifies(OuterSent(p, id, tnl)) <==> sum % TWO16 + sum / TWO16 <= 0xffff
  {
    hide WordSum, Patch;
    var h := Outer(p, id, tnl);
    HeaderSum(h);
    assert Load16(h, 10) == 0;
    OneFoldVerifies(h, 5);
  }

  /** The carry can get lost: a packet of 46311 bytes between two all-ones addresses. */
  lemma CarryCanBeLost(p: seq<byte>)
    requires |p| >= 34 && TotLen(p) == 46311
    ensures var tnl := TunnelInfo(AF_INET, [0xff, 0xff, 0xff, 0xff], [0xff, 0xff, 0xff, 0xff], [0, 0, 0, 0, 0, 0]);
      !Verifies(OuterSent(p, [0, 0], tnl))
  {
    hide WordSum, Patch, OuterSent, Outer;
    var tnl := TunnelInfo(AF_INET, [0xff, 0xff, 0xff, 0xff], [0xff, 0xff, 0xff, 0xff], [0, 0, 0, 0, 0, 0]);
    LostHeader(p, tnl);
    LostSum(Outer(p, [0, 0], tnl));
    OuterVerifies(p, [0, 0], tnl);
  }

  /** The header of CarryCanBeLost, and its sum. */
  const LOST: seq<byte> := [0x45, 0, 180, 251, 0, 0, 0, 0, 8, 4, 0, 0, 255, 255, 255, 255, 255, 255, 255, 255]

  lemma LostHeader(p: seq<byte>, tnl: TunnelInfo)
    requires |p| >= 34 && TotLen(p) == 46311
    requires tnl.saddr == tnl.daddr == [0xff, 0xff, 0xff, 0xff]
    ensures Outer(p, [0, 0], tnl) == LOST
  {
    hide TotLen;
    assert Be16(46331) == [180, 251];
  }

  lemma LostSum(h: seq<byte>)
    requires h == LOST
    ensures WordSum(h) == 4 * TWO16 + 65533
  {
    hide WordSum;
    HeaderSum(h);
  }
}
