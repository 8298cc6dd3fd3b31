// xdp_progs/xdping.bpf.c: an echo request turned into an echo reply, in place.

module Xdping {
  import opened Machine
  import opened OnesComplement
  import opened Packets

  const ICMP_ECHO_LEN: int := 64

  /** The tests of icmp_check: long enough, IPv4, ICMP. */
  predicate Accepted(p: seq<byte>) {
    |p| >= ETH_HLEN + IP_HLEN + ICMP_ECHO_LEN && p[12] == 0x08 && p[13] == 0x00 && p[23] == IPPROTO_ICMP
  }

  /** The reply before its ICMP checksum: link and network addresses exchanged, the type set
      to echo reply, the checksum field cleared. */
  function Turned(p: seq<byte>): (r: seq<byte>)
    requires |p| >= 98
    ensures |r| == |p|
  {
    seq(|p|, i requires 0 <= i < |p| =>
      if i < 6 then p[i + 6]
      else if i < 12 then p[i - 6]
      else if 26 <= i < 30 then p[i + 4]
      else if 30 <= i < 34 then p[i - 4]
      else if i == 34 || i == 36 || i == 37 then 0
      else p[i])
  }

  ghost function Reply(p: seq<byte>): (r: seq<byte>)
    requires |p| >= 98
    ensures |r| == |p|
  {
    var t := Turned(p);
    Patch(t, 36, Le16(0xffff - Canon(WordSum(t[34..98]))))
  }

  method XdpPass(pkt: array<byte>, addr: nat) returns (action: XdpAction)
    modifies pkt
    ensures action == Tx <==> |pkt[..]| >= 98 && old(pkt[..])[12] == 8 && old(pkt[..])[13] == 0 && old(pkt[..])[23] == 1
    ensures action == if Accepted(old(pkt[..])) then Tx else Pass
    ensures pkt[..] == if Accepted(old(pkt[..])) then Reply(old(pkt[..])) else old(pkt[..])
  {
    hide WordSum, Canon, Turned, Patch;
    if pkt.Length < ETH_HLEN + IP_HLEN + ICMP_ECHO_LEN {
      return Pass;
    }
    if pkt[12] != 0x08 || pkt[13] != 0x00 {
      return Pass;
    }
    if pkt[23] != IPPROTO_ICMP {
      return Pass;
    }
    ghost var t := Turned(pkt[..]);
    TurnAround(pkt);
    var check := RangeChecksum(pkt[34..98], addr);
    assert pkt[34..98] == t[34..98];
    Write(pkt, 36, Le16(check));
    return Tx;
  }

  method TurnAround(pkt: array<byte>)
    requires pkt.Length >= 98
    modifies pkt
    ensures pkt[..] == Turned(old(pkt[..]))
  {
    hide Patch;
    var raddr := pkt[26..30];
    SwapSrcDstMac(pkt);
    Write(pkt, 26, pkt[30..34]);
    Write(pkt, 30, raddr);
    pkt[34] := 0;
    Write(pkt, 36, [0, 0]);
  }

  method SwapSrcDstMac(pkt: array<byte>)
    requires pkt.Length >= 12
    modifies pkt
    ensures forall i :: 0 <= i < pkt.Length ==>
      pkt[i] == if i < 6 then old(pkt[i + 6]) else if i < 12 then old(pkt[i - 6]) else old(pkt[i])
  {
    var dst := pkt[..6];
    Write(pkt, 0, pkt[6..12]);
    Write(pkt, 6, dst);
  }

  /** Exchanging the addresses leaves the sum of the IPv4 header as it was, so its checksum
      needs no recomputation. */
  lemma HeaderStaysValid(p: seq<byte>)
    requires |p| >= 98
    ensures WordSum(Reply(p)[14..34]) == WordSum(p[14..34])
    ensures Verifies(Reply(p)[14..34]) <==> Verifies(p[14..34])
  {
    hide WordSum, Canon;
    var a, s, d := p[14..26], p[26..30], p[30..34];
    assert p[14..34] == a + (s + d);
    assert Reply(p)[14..34] == a + (d + s);
    WordSumAppend(a, s + d, 6);
    WordSumAppend(s, d, 2);
    WordSumAppend(a, d + s, 6);
    WordSumAppend(d, s, 2);
    assert Verifies(Reply(p)[14..34]) <==> Verifies(p[14..34]) by { hide Reply; }
  }

  /** Where the bytes of a reply come from: everything but the addresses, the type and the two
      bytes of the checksum is the request's, and the type is 0. */
  lemma ReplyBytes(p: seq<byte>)
    requires |p| >= 98
    ensures var r := Reply(p);
      && r[0..6] == p[6..12] && r[6..12] == p[0..6] && r[12..26] == p[12..26]
      && r[26..30] == p[30..34] && r[30..34] == p[26..30]
      && r[34] == 0 && r[35] == p[35] && r[38..] == p[38..]
  {
    hide WordSum, Canon;
  }

  /** The ICMP message of every reply verifies over the 64 bytes it is computed from. */
  lemma EchoVerifies(p: seq<byte>)
    requires |p| >= 98
    ensures Verifies(Reply(p)[34..98])
  {
    PatchedChecksumVerifies(Turned(p), 34, 64, 1);
  }

  /** A second pass exchanges everything back, and answers with the same ICMP message. */
  lemma ReplyTwice(p: seq<byte>)
    requires |p| >= 98
    ensures Reply(Reply(p))[..34] == p[..34]
    ensures Reply(Reply(p))[34..] == Reply(p)[34..]
    ensures Accepted(p) <==> Accepted(Reply(p))
  {
    hide WordSum, Canon;
    var r := Reply(p);
    assert Turned(r)[34..98] == Turned(p)[34..98];
  }
}
