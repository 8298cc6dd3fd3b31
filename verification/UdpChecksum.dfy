// The UDP checksum of afxdp/l2fwd/xdpsock.c.

module UdpChecksum {
  import opened DivMod
  import opened Machine
  import opened OnesComplement
  import opened Checksum
  import opened Packets

  const MAX_PKT_SIZE: int := 9728

  function From64To32(x: u64): (r: u32)
    ensures Same(r, x)
  {
    var once := x % TWO32 + x / TWO32;
    var r := once % TWO32 + once / TWO32;
    assert Same(x, once) && Same(once, r) by {
      SameFold32(x / TWO32, x % TWO32);
      SameFold32(once / TWO32, once % TWO32);
    }
    r
  }

  /** ip_fast_csum over a header of ihl 32-bit words: stored in the cleared field it makes the
      header verify. */
  method IpFastCsum(iph: seq<byte>, addr: nat, ihl: nat) returns (check: u16)
    requires 4 * ihl <= |iph|
    ensures check == 0xffff - Canon(WordSum(iph[..4 * ihl]))
    ensures ihl >= 5 && Load16(iph, 10) == 0 ==> Verifies(Patch(iph[..4 * ihl], 10, Le16(check)))
  {
    hide WordSum;
    var header := iph[..4 * ihl];
    var sum := DoCsum(iph, addr, 4 * ihl);
    EmptySum([]);
    check := 0xffff - sum;
    if ihl >= 5 && Load16(iph, 10) == 0 {
      StoredChecksumVerifies(header, 5);
    }
  }

  /** The sum of addresses, protocol and length, the last two added up in 32 bits and moved up
      by a byte. */
  function CsumTcpUdpNofold(saddr: u32, daddr: u32, len: u32, proto: byte, sum: u32): u32 {
    var s := sum + saddr + daddr + (proto + len) % TWO32 * TWO8 % TWO32;
    From64To32(s)
  }

  /** The words of the datagram, its length rounded up to whole words. */
  function Even(len: nat): (r: nat)
    ensures len <= r <= len + 1 && (r == len <==> len % 2 == 0)
  {
    (len + 1) / 2 * 2
  }

  /** udp_csum: an unguarded 32-bit sum, so right as long as the words do not overflow it. */
  method UdpCsum(saddr: u32, daddr: u32, len: u32, proto: byte, pkt: seq<byte>) returns (check: u16)
    requires Even(len) <= |pkt|
    ensures len <= 2 * 0x1_0001 ==>
      check == 0xffff - Canon(CsumTcpUdpNofold(saddr, daddr, len, proto, DatagramSum(pkt, len)))
  {
    hide WordSum, Canon, Load16, CsumTcpUdpNofold;
    var csum: u32 := 0;
    var cnt := 0;
    EmptySum(pkt[..0]);
    ghost var i := 0;
    while cnt < len
      invariant cnt == 2 * i && cnt <= Even(len)
      invariant csum == WordSum(pkt[..2 * i]) % TWO32
    {
      WordSumStep16(pkt, i);
      ModAdd(WordSum(pkt[..2 * i]), Load16(pkt, cnt));
      csum := (csum + Load16(pkt, cnt)) % TWO32;
      cnt := cnt + 2;
      i := i + 1;
    }
    assert cnt == Even(len);
    if len <= 2 * 0x1_0001 {
      SumBound(pkt[..cnt], i);
    }
    check := CsumFoldHelper(CsumTcpUdpNofold(saddr, daddr, len, proto, csum));
  }

  /** 65537 words never overflow a 32-bit sum: far more than a packet of MAX_PKT_SIZE bytes has. */
  lemma {:induction false} SumBound(s: seq<byte>, h: nat)
    requires |s| == 2 * h
    ensures WordSum(s) <= 0xffff * h
  {
    if h > 0 {
      SumBound(s[2..], h - 1);
    }
  }

  /** The sum over the whole words of a datagram; 0 where it would not fit. */
  ghost function DatagramSum(pkt: seq<byte>, len: nat): u32
    requires Even(len) <= |pkt|
  {
    var s := WordSum(pkt[..Even(len)]);
    if s < TWO32 then s else 0
  }

  /** The pseudo-header of RFC 768 in network order. */
  ghost function PseudoHeader(saddr: Ipv4Addr, daddr: Ipv4Addr, proto: byte, len: u16): (r: seq<byte>)
    ensures |r| == 12
  {
    saddr + daddr + [0, proto] + Be16(len)
  }

  lemma PseudoHeaderWords(saddr: Ipv4Addr, daddr: Ipv4Addr, proto: byte, len: u16)
    ensures WordSum(PseudoHeader(saddr, daddr, proto, len))
      == Load16(saddr, 0) + Load16(saddr, 2) + Load16(daddr, 0) + Load16(daddr, 2) + TWO8 * proto + Swap16(len)
  {
    hide WordSum;
    var h := PseudoHeader(saddr, daddr, proto, len);
    assert h[..12] == h;
    EmptySum(h[..0]);
    WordSumStep16(h, 0); WordSumStep16(h, 1); WordSumStep16(h, 2);
    WordSumStep16(h, 3); WordSumStep16(h, 4); WordSumStep16(h, 5);
  }

  /** The protocol-and-length term, `(proto + len) << 8`, stands for two byte-swapped words. */
  lemma PseudoHeaderSum(saddr: Ipv4Addr, daddr: Ipv4Addr, proto: byte, len: u16, sum: u32)
    ensures Same(CsumTcpUdpNofold(Load32(saddr, 0), Load32(daddr, 0), len, proto, sum),
                 sum + WordSum(PseudoHeader(saddr, daddr, proto, len)))
  {
    hide WordSum, Canon, Load16, Swap16, From64To32;
    PseudoHeaderWords(saddr, daddr, proto, len);
    var lo, hi := Load16(saddr, 0) + Load16(daddr, 0), Load16(saddr, 2) + Load16(daddr, 2);
    SameFold16(hi, sum + lo + TWO8 * proto + TWO8 * len);
    SwapIs256(len);
    SameAdd(Swap16(len), TWO8 * len, sum + lo + hi + TWO8 * proto);
    assert (proto + len) % TWO32 * TWO8 % TWO32 == TWO8 * proto + TWO8 * len;
  }

  /** Storing the result in the cleared checksum field makes pseudo-header and datagram sum to
      0xffff exactly when the length is even or the byte after the datagram is zero. */
  lemma UdpVerifies(saddr: Ipv4Addr, daddr: Ipv4Addr, proto: byte, len: u16, pkt: seq<byte>)
    requires 8 <= len <= MAX_PKT_SIZE && Even(len) <= |pkt| && Load16(pkt, 6) == 0
    ensures var sum := DatagramSum(pkt, len);
      var check := 0xffff - Canon(CsumTcpUdpNofold(Load32(saddr, 0), Load32(daddr, 0), len, proto, sum));
      Verifies(PseudoHeader(saddr, daddr, proto, len) + Patch(pkt, 6, Le16(check))[..len])
      <==> len % 2 == 0 || pkt[len] == 0
  {
    hide WordSum, Canon, CsumTcpUdpNofold, PseudoHeader;
    var n := Even(len);
    var ph := PseudoHeader(saddr, daddr, proto, len);
    var sum := WordSum(pkt[..n]);
    SumBound(pkt[..n], n / 2);
    PseudoHeaderSum(saddr, daddr, proto, len, sum);
    var c := CsumTcpUdpNofold(Load32(saddr, 0), Load32(daddr, 0), len, proto, sum);
    var check := 0xffff - Canon(c);
    var stored := Patch(pkt, 6, Le16(check));
    assert stored[..n] == Patch(pkt[..n], 6, Le16(check));
    WordSumStore(pkt[..n], 3, check);
    WordSumAppend(ph, stored[..len], 6);
    var rest := if n == len then 0 else TWO8 * pkt[len];
    assert WordSum(stored[..n]) == WordSum(stored[..len]) + rest by {
      if n != len { OddTail(stored, n / 2); }
    }
    ChecksumArithmetic(sum + WordSum(ph), c, WordSum(ph + stored[..len]), rest);
  }

  /** A datagram of nine zero bytes with a byte behind it that is not zero: the sum takes that
      byte in, and the datagram does not verify. */
  lemma ByteBehindCounts()
    ensures var pkt: seq<byte> := [0, 0, 0, 0, 0, 0, 0, 0, 0, 1];
      var check := 0xffff - Canon(CsumTcpUdpNofold(0, 0, 9, IPPROTO_UDP, DatagramSum(pkt, 9)));
      !Verifies(PseudoHeader([0, 0, 0, 0], [0, 0, 0, 0], IPPROTO_UDP, 9) + Patch(pkt, 6, Le16(check))[..9])
  {
    hide WordSum, Canon, CsumTcpUdpNofold, PseudoHeader;
    UdpVerifies([0, 0, 0, 0], [0, 0, 0, 0], IPPROTO_UDP, 9, [0, 0, 0, 0, 0, 0, 0, 0, 0, 1]);
  }

  lemma OddTail(s: seq<byte>, h: nat)
    requires 0 < h && 2 * h <= |s|
    ensures WordSum(s[..2 * h]) == WordSum(s[..2 * h - 1]) + TWO8 * s[2 * h - 1]
  {
    hide WordSum;
    WordSumStep16(s, h - 1);
    WordSumStepByte(s, h - 1);
  }

  lemma ChecksumArithmetic(sum: nat, c: u32, total: nat, rest: nat)
    requires Same(c, sum) && total + rest == sum + 0xffff - Canon(c)
    requires rest <= TWO8 * 0xff
    ensures Canon(total) == 0xffff <==> rest == 0
  {
  }
}
