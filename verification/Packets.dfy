// Packet bytes, and what the packet programs share: copying into a packet, the folded
// checksum helpers, and the one-range use of the checksum-difference helper.

module Packets {
  import opened Machine
  import opened OnesComplement
  import opened Checksum
  import CsumDiff

  datatype XdpAction = Aborted | Drop | Pass | Tx

  type Mac = s: seq<byte> | |s| == 6 witness [0, 0, 0, 0, 0, 0]
  type Ipv4Addr = s: seq<byte> | |s| == 4 witness [0, 0, 0, 0]

  const ETH_HLEN: int := 14
  const IP_HLEN: int := 20
  const IPPROTO_ICMP: byte := 1
  const IPPROTO_IPIP: byte := 4
  const IPPROTO_TCP: byte := 6
  const IPPROTO_UDP: byte := 17

  lemma PatchWithin(p: seq<byte>, at: nat, b: seq<byte>, i: nat, c: seq<byte>)
    requires at + |b| <= |p| && i + |c| <= |b|
    ensures Patch(Patch(p, at, b), at + i, c) == Patch(p, at, Patch(b, i, c))
  {
    hide Patch;
  }

  /** Numbers in memory in network order, and a 32-bit one in host order. */
  function Be16(v: u16): (r: seq<byte>)
    ensures |r| == 2 && 0x100 * r[0] as int + r[1] as int == v
  {
    [v / TWO8, v % TWO8]
  }

  function Le32(v: u32): (r: seq<byte>)
    ensures |r| == 4
    ensures r[0] as int + 0x100 * r[1] as int + 0x1_0000 * r[2] as int + 0x100_0000 * r[3] as int == v
  {
    Le16(v % TWO16) + Le16(v / TWO16)
  }

  function Be32(v: u32): (r: Ipv4Addr)
    ensures 0x100_0000 * r[0] as int + 0x1_0000 * r[1] as int + 0x100 * r[2] as int + r[3] as int == v
  {
    Be16(v / TWO16) + Be16(v % TWO16)
  }

  /** The number that stands at an index in network order. */
  function Net16(m: seq<byte>, i: nat): u16
    requires i + 2 <= |m|
  {
    0x100 * m[i] as int + m[i + 1] as int
  }

  function Net32(m: seq<byte>, i: nat): u32
    requires i + 4 <= |m|
  {
    0x100_0000 * m[i] as int + 0x1_0000 * m[i + 1] as int + 0x100 * m[i + 2] as int + m[i + 3] as int
  }

  /** csum_fold_helper of xdping, `~csum_reduce_helper` of xdp_lb and csum_fold of xdpsock: two
      folds and a complement. */
  function CsumFoldHelper(sum: u32): (r: u16)
    ensures r == 0xffff - Canon(sum)
  {
    0xffff - From32To16(sum)
  }

  /** `~fold(bpf_csum_diff(0, 0, start, size, 0))`. */
  method RangeChecksum(range: seq<byte>, addr: nat) returns (check: u16)
    requires 0 < |range| <= CsumDiff.MAX_BPF_STACK && |range| % 4 == 0
    ensures check == 0xffff - Canon(WordSum(range))
  {
    hide WordSum, Canon, CsumDiff.IsDifference, CsumDiff.Diff;
    var none: seq<byte> := [];
    var sum := CsumDiff.CsumDiffRuntime(none, 0, range, |range|, 0, addr);
    assert range[..|range|] == range && none[..0] == none;
    CsumDiff.DiffCongruence(none, range, 0, 0);
    EmptySum(Complement(none));
    check := CsumFoldHelper(sum);
  }

  /** Writing a range's checksum into a field of that range, zero before, makes it verify. */
  lemma PatchedChecksumVerifies(p: seq<byte>, at: nat, n: nat, h: nat)
    requires at + n <= |p| && 2 * h + 2 <= n
    requires p[at + 2 * h] == 0 && p[at + 2 * h + 1] == 0
    ensures Verifies(Patch(p, at + 2 * h, Le16(0xffff - Canon(WordSum(p[at..at + n]))))[at..at + n])
  {
    hide WordSum, Canon;
    var s := p[at..at + n];
    var c := 0xffff - Canon(WordSum(s));
    StoredChecksumVerifies(s, h);
    assert Patch(p, at + 2 * h, Le16(c))[at..at + n] == Patch(s, 2 * h, Le16(c));
  }
}
