// xdp_progs/xdp_lb.bpf.c: a TCP packet sent on to a target (or back to the client), its
// addresses and IPv4 header checksum rewritten in place.

module LoadBalancer {
  import opened DivMod
  import opened Machine
  import opened OnesComplement
  import opened Packets
  import XxHash

  datatype IpMacPair = IpMacPair(mac: Mac, ip: u32)

  // ----- the hash that decides

  ghost function ByteSum(s: seq<byte>): nat {
    if s == [] then 0 else ByteSum(s[..|s| - 1]) + s[|s| - 1]
  }

  method CalculateChecksum(data: seq<byte>, len: u32) returns (sum: u32)
    requires len <= |data|
    ensures sum == ByteSum(data[..len]) % TWO32
  {
    sum := 0;
    for i := 0 to len
      invariant sum == ByteSum(data[..i]) % TWO32
    {
      assert data[..i + 1][..i] == data[..i];
      ModAdd(ByteSum(data[..i]), data[i]);
      sum := (sum + data[i]) % TWO32;
    }
  }

  function ToBv(s: seq<byte>): seq<bv8> {
    seq(|s|, i requires 0 <= i < |s| => s[i] as bv8)
  }

  /** xxhash32 of the first 60 bytes, seeded with their sum. */
  ghost function HashOf(p: seq<byte>): bv32
    requires |p| >= 60
  {
    XxHash.XxHash32(ToBv(p[..60]), (ByteSum(p[..60]) % TWO32) as bv32)
  }

  /** The two words stored in the payload: the sum and the hash. */
  ghost function HashAndSum(p: seq<byte>): seq<byte>
    requires |p| >= 60
  {
    Le32(ByteSum(p[..60]) % TWO32) + Le32(BvToInt(HashOf(p)))
  }

  function BvToInt(h: bv32): u32 {
    h as int
  }

  method ComputeHash(p: seq<byte>) returns (sum: u32, hash: u32)
    requires |p| >= 60
    ensures sum == ByteSum(p[..60]) % TWO32 && hash == BvToInt(HashOf(p))
  {
    hide ByteSum, XxHash.XxHash32;
    sum := CalculateChecksum(p, 60);
    hash := BvToInt(XxHash.XxHash32(ToBv(p[..60]), sum as bv32));
  }

  // ----- the decision

  datatype Decision = Leave(action: XdpAction) | Forward(dst: IpMacPair, src: IpMacPair)

  function Xor(a: nat, b: nat): nat {
    if a == 0 && b == 0 then 0 else Parity(a, b) + 2 * Xor(a / 2, b / 2)
  }

  /** get_target_key: the low bit of source address, source port and destination port. */
  function TargetKey(p: seq<byte>): u32
    requires |p| >= 60
  {
    Xor(Xor(Load32(p, 26), Load16(p, 34)), Load16(p, 36)) % 2
  }

  /** The key is the parity of three bytes: the first of the source address and the upper ones
      of the two ports, which are in network order. */
  lemma TargetKeyIsParity(p: seq<byte>)
    requires |p| >= 60
    ensures TargetKey(p) == (p[26] as int + p[34] as int + p[36] as int) % 2
  {
    hide Xor, Load16, Load32;
    XorParity(Load32(p, 26), Load16(p, 34));
    XorParity(Xor(Load32(p, 26), Load16(p, 34)), Load16(p, 36));
    FirstByteIsLow(p, 26);
    FirstByteIsLow(p, 34);
    FirstByteIsLow(p, 36);
    ParityOfThree(p[26], p[34], p[36]);
  }

  lemma FirstByteIsLow(p: seq<byte>, i: nat)
    requires i + 4 <= |p|
    ensures Load16(p, i) % 2 == p[i] % 2 && Load32(p, i) % 2 == p[i] % 2
  {
    hide Load16;
    LowBit(Load16(p, i), 0x8000 * Load16(p, i + 2));
    Load16Low(p, i);
  }

  lemma Load16Low(p: seq<byte>, i: nat)
    requires i + 2 <= |p|
    ensures Load16(p, i) % 2 == p[i] % 2
  {
    LowBit(p[i], 128 * p[i + 1] as int);
  }

  lemma ParityOfThree(a: nat, b: nat, c: nat)
    ensures ((a % 2 + b % 2) % 2 + c % 2) % 2 == (a + b + c) % 2
  {
  }

  lemma XorParity(a: nat, b: nat)
    ensures Xor(a, b) % 2 == (a % 2 + b % 2) % 2
  {
    hide Xor;
    XorStep(a, b);
    LowBit(Parity(a, b), Xor(a / 2, b / 2));
  }

  /** The lowest bit of an exclusive or. */
  function Parity(a: nat, b: nat): (r: nat)
    ensures r == (a % 2 + b % 2) % 2 && r < 2
  {
    (a + b) % 2
  }

  lemma XorStep(a: nat, b: nat)
    ensures Xor(a, b) == Parity(a, b) + 2 * Xor(a / 2, b / 2)
  {
    hide Parity;
  }

  lemma LowBit(a: nat, h: nat)
    ensures (a + 2 * h) % 2 == a % 2
  {
  }

  ghost function Decide(p: seq<byte>, targets: map<u32, IpMacPair>, config: map<u32, IpMacPair>): Decision {
    if |p| < 34 then Leave(Drop)
    else if p[23] != IPPROTO_TCP then Leave(Pass)
    else if |p| < 54 then Leave(Drop)
    else if 1 !in config then Leave(Aborted)
    else if |p| > 1200 || |p| < 60 then Leave(Pass)
    else if BvToInt(HashOf(p)) / 2 != 0 then
      if TargetKey(p) !in targets || 0 !in config then Leave(Aborted)
      else Forward(targets[TargetKey(p)], config[0])
    else if 0 !in config then Leave(Aborted)
    else Forward(config[1], config[0])
  }

  // ----- the rewrite

  /** The new link and network addresses, with the header checksum cleared. */
  function Readdressed(p: seq<byte>, dst: IpMacPair, src: IpMacPair): (r: seq<byte>)
    requires |p| >= 60
    ensures |r| == |p|
  {
    var q := Patch(Patch(p, 0, dst.mac), 6, src.mac);
    Patch(Patch(Patch(q, 30, Be32(dst.ip)), 26, Be32(src.ip)), 24, [0, 0])
  }

  ghost function Rewritten(p: seq<byte>, dst: IpMacPair, src: IpMacPair): (r: seq<byte>)
    requires |p| >= 60
    ensures |r| == |p|
  {
    var q := Readdressed(p, dst, src);
    Patch(q, 24, Le16(0xffff - Canon(WordSum(q[14..34]))))
  }

  ghost function Sent(p: seq<byte>, dst: IpMacPair, src: IpMacPair): (r: seq<byte>)
    requires |p| >= 60
    ensures |r| == |p|
  {
    var r := Rewritten(p, dst, src);
    Patch(r, 34, HashAndSum(r))
  }

  /** Exactly which packets are forwarded, and between whom; one below 60 bytes never is. */
  lemma ForwardedIff(p: seq<byte>, targets: map<u32, IpMacPair>, config: map<u32, IpMacPair>)
    requires |p| >= 60
    ensures var d, hash := Decide(p, targets, config), BvToInt(HashOf(p));
      var key := (p[26] as int + p[34] as int + p[36] as int) % 2;
      && (d.Forward? <==>
            |p| <= 1200 && p[23] == 6 && 0 in config && 1 in config && (hash >= 2 ==> key in targets))
      && (d.Forward? ==> d.src == config[0] && d.dst == if hash >= 2 then targets[key] else config[1])
      && (d.Leave? ==> d.action == if p[23] != 6 || (1 in config && |p| > 1200) then Pass else Aborted)
  {
    hide HashOf, TargetKey;
    TargetKeyIsParity(p);
  }

  method XdpPass(pkt: array<byte>, targets: map<u32, IpMacPair>, config: map<u32, IpMacPair>, addr: nat)
    returns (action: XdpAction)
    modifies pkt
    ensures match Decide(old(pkt[..]), targets, config)
      case Leave(a) => action == a && pkt[..] == old(pkt[..])
      case Forward(dst, src) => action == Tx && pkt[..] == Sent(old(pkt[..]), dst, src)
  {
    hide WordSum, Canon, ByteSum, Rewritten, HashOf, Patch, Readdressed;
    if pkt.Length < 14 {
      return Drop;
    }
    if pkt.Length < 34 {
      return Drop;
    }
    if pkt[23] != IPPROTO_TCP {
      return Pass;
    }
    if pkt.Length < 54 {
      return Drop;
    }
    if 1 !in config {
      return Aborted;
    }
    if pkt.Length > 1200 || pkt.Length < 60 {
      return Pass;
    }
    var sum, hash := ComputeHash(pkt[..]);
    var dst, src;
    if hash / 2 != 0 {
      var key := TargetKey(pkt[..]);
      if key !in targets {
        return Aborted;
      }
      dst := targets[key];
      if 0 !in config {
        return Aborted;
      }
      src := config[0];
    } else {
      dst := config[1];
      if 0 !in config {
        return Aborted;
      }
      src := config[0];
    }
    Rewrite(pkt, dst, src, addr);
    sum, hash := ComputeHash(pkt[..]);
    Write(pkt, 34, Le32(sum) + Le32(hash));
    return Tx;
  }

  method Rewrite(pkt: array<byte>, dst: IpMacPair, src: IpMacPair, addr: nat)
    requires pkt.Length >= 60
    modifies pkt
    ensures pkt[..] == Rewritten(old(pkt[..]), dst, src)
  {
    hide WordSum, Canon, Patch;
    Write(pkt, 0, dst.mac);
    Write(pkt, 6, src.mac);
    Write(pkt, 30, Be32(dst.ip));
    Write(pkt, 26, Be32(src.ip));
    Write(pkt, 24, [0, 0]);
    var check := RangeChecksum(pkt[14..34], addr);
    assert pkt[..][14..34] == pkt[14..34];
    Write(pkt, 24, Le16(check));
  }

  /** Whatever the packet held and whatever the addresses are, the 20-byte IPv4 header that
      is sent verifies; the hash stored after it does not disturb it. */
  lemma HeaderVerifies(p: seq<byte>, dst: IpMacPair, src: IpMacPair)
    requires |p| >= 60
    ensures Verifies(Sent(p, dst, src)[14..34])
  {
    hide WordSum, Canon, ByteSum, Patch, HashOf;
    var q := Readdressed(p, dst, src);
    PatchedChecksumVerifies(q, 14, 20, 5);
    assert Sent(p, dst, src)[14..34] == Rewritten(p, dst, src)[14..34];
  }

  /** Where byte i of the packet sent comes from; the checksum and the payload hash aside. */
  lemma SentAt(p: seq<byte>, dst: IpMacPair, src: IpMacPair, i: nat)
    requires |p| >= 60 && i < |p|
    ensures 24 <= i < 26 || 34 <= i < 42 || Sent(p, dst, src)[i] ==
      if i < 6 then dst.mac[i] else if i < 12 then src.mac[i - 6]
      else if 26 <= i < 30 then Be32(src.ip)[i - 26] else if 30 <= i < 34 then Be32(dst.ip)[i - 30]
      else p[i]
  {
    hide WordSum, Canon, ByteSum, Patch, HashOf;
  }

  /** Outside the addresses, the checksum and eight payload bytes nothing changes, and the
      addresses are those of the chosen pair in network order. */
  lemma OnlyAddressesChange(p: seq<byte>, dst: IpMacPair, src: IpMacPair)
    requires |p| >= 60
    ensures var r := Sent(p, dst, src);
      && r[..6] == dst.mac && r[6..12] == src.mac
      && r[26..30] == Be32(src.ip) && r[30..34] == Be32(dst.ip)
      && r[12..24] == p[12..24] && r[42..] == p[42..]
      && Net32(r, 26) == src.ip && Net32(r, 30) == dst.ip
  {
    hide Sent, Be32;
    forall i: nat | i < |p|
      ensures 24 <= i < 26 || 34 <= i < 42 || Sent(p, dst, src)[i] ==
        if i < 6 then dst.mac[i] else if i < 12 then src.mac[i - 6]
        else if 26 <= i < 30 then Be32(src.ip)[i - 26] else if 30 <= i < 34 then Be32(dst.ip)[i - 30]
        else p[i]
    {
      SentAt(p, dst, src, i);
    }
  }

  /** Behind the header stand the sum of the 60 bytes that were there before it, and their hash
      with that sum as its seed, both in host order. */
  lemma PayloadSent(p: seq<byte>, dst: IpMacPair, src: IpMacPair)
    requires |p| >= 60
    ensures var r := Sent(p, dst, src);
      var before := r[..34] + p[34..42] + r[42..60];
      && Load32(r, 34) == ByteSum(before) % 0x1_0000_0000
      && Load32(r, 38) == BvToInt(XxHash.XxHash32(ToBv(before), Load32(r, 34) as bv32))
  {
    hide WordSum, Canon, ByteSum, Le32, XxHash.XxHash32, ToBv, Be32, Readdressed, Patch, BvToInt, HashOf;
    var q, r := Rewritten(p, dst, src), Sent(p, dst, src);
    StoredWords(q, Le32(ByteSum(q[..60]) % TWO32), Le32(BvToInt(HashOf(q))));
    PayloadKept(p, dst, src);
    assert q[..60] == r[..34] + p[34..42] + r[42..60];
    HashWas(q);
  }

  lemma PayloadKept(p: seq<byte>, dst: IpMacPair, src: IpMacPair)
    requires |p| >= 60
    ensures Rewritten(p, dst, src)[34..42] == p[34..42]
  {
    hide WordSum, Canon, Be32;
  }

  lemma StoredWords(q: seq<byte>, a: seq<byte>, b: seq<byte>)
    requires |q| >= 60 && |a| == |b| == 4
    ensures var r := Patch(q, 34, a + b);
      Load32(r, 34) == Load32(a, 0) && Load32(r, 38) == Load32(b, 0)
  {
  }

  lemma HashWas(q: seq<byte>)
    requires |q| >= 60
    ensures HashOf(q) == XxHash.XxHash32(ToBv(q[..60]), (ByteSum(q[..60]) % TWO32) as bv32)
  {
    hide XxHash.XxHash32, ToBv, ByteSum;
  }
}
