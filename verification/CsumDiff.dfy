// The checksum-difference helper of module/helpers.c and its inlined copy in
// xdp_progs/includes/inline_csum.h.

module CsumDiff {
  import opened Machine
  import opened OnesComplement
  import opened Checksum

  const MAX_BPF_STACK: int := 512
  const EINVAL: int := 22

  /** The sizes the helper works on: whole 32-bit words that fit the scratch pad together. */
  predicate Accepted(fromSize: nat, toSize: nat) {
    fromSize % 4 == 0 && toSize % 4 == 0 && fromSize + toSize <= MAX_BPF_STACK
  }

  /** The guard of the source, which adds the sizes up in a machine word. */
  predicate PassesGuard(fromSize: nat, toSize: nat, word: nat)
    requires word > 0
  {
    fromSize % 4 == 0 && toSize % 4 == 0 && (fromSize + toSize) % word <= MAX_BPF_STACK
  }

  /** What the helper needs once its guard has passed: readable words, and room for them in the
      scratch pad, which the guard does not ensure for sizes whose sum wraps. */
  ghost predicate InBounds(from: seq<byte>, fromSize: nat, to: seq<byte>, toSize: nat) {
    fromSize <= |from| && toSize <= |to| && fromSize + toSize <= MAX_BPF_STACK
  }

  /** The value of the helper: the removed words enter complemented, the added ones as they are. */
  ghost function Diff(from: seq<byte>, to: seq<byte>, seed: u32): u32 {
    if from == [] && to == [] then seed
    else EndAround32(Canon(WordSum(Complement(from) + to)), seed)
  }

  /** `diff[j] = w`, the word given by its bytes. */
  method StoreWord(diff: array<byte>, j: nat, b0: byte, b1: byte, b2: byte, b3: byte)
    requires 4 * j + 4 <= diff.Length
    modifies diff
    ensures diff[..4 * j + 4] == old(diff[..4 * j]) + [b0, b1, b2, b3]
  {
    diff[4 * j], diff[4 * j + 1], diff[4 * j + 2], diff[4 * j + 3] := b0, b1, b2, b3;
  }

  /** Fills the scratch pad: the old words complemented, then the new ones. */
  method FillPad(from: seq<byte>, fromSize: nat, to: seq<byte>, toSize: nat) returns (diff: array<byte>)
    requires Accepted(fromSize, toSize) && fromSize <= |from| && toSize <= |to|
    ensures fresh(diff) && diff.Length == MAX_BPF_STACK
    ensures diff[..fromSize + toSize] == Complement(from[..fromSize]) + to[..toSize]
  {
    hide Complement;
    diff := new byte[MAX_BPF_STACK];
    var j := 0;
    for i := 0 to fromSize / 4
      invariant j == i && 4 * j <= MAX_BPF_STACK
      invariant diff[..4 * j] == Complement(from[..4 * i])
    {
      ComplementExtend(from, 4 * i);
      StoreWord(diff, j, 0xff - from[4 * i], 0xff - from[4 * i + 1], 0xff - from[4 * i + 2], 0xff - from[4 * i + 3]);
      j := j + 1;
    }
    assert 4 * j == fromSize;
    AppendWords(diff, j, to, toSize, Complement(from[..fromSize]));
  }

  method AppendWords(diff: array<byte>, start: nat, to: seq<byte>, toSize: nat, ghost head: seq<byte>)
    requires toSize % 4 == 0 && toSize <= |to| && 4 * start + toSize <= diff.Length
    requires diff[..4 * start] == head
    modifies diff
    ensures diff[..4 * start + toSize] == head + to[..toSize]
  {
    var j := start;
    for i := 0 to toSize / 4
      invariant j == start + i
      invariant diff[..4 * j] == head + to[..4 * i]
    {
      StoreWord(diff, j, to[4 * i], to[4 * i + 1], to[4 * i + 2], to[4 * i + 3]);
      j := j + 1;
    }
  }

  /** Fills the scratch pad and sums it. */
  method SumScratch(from: seq<byte>, fromSize: nat, to: seq<byte>, toSize: nat, seed: u32, addr: nat)
    returns (r: u32)
    requires Accepted(fromSize, toSize) && fromSize <= |from| && toSize <= |to|
    ensures r == Diff(from[..fromSize], to[..toSize], seed)
  {
    hide WordSum, Canon, EndAround32, Complement;
    var diff := FillPad(from, fromSize, to, toSize);
    assert diff[..][..fromSize + toSize] == diff[..fromSize + toSize];
    r := CsumPartial(diff[..], addr, fromSize + toSize, seed);
  }

  /** Whichever version of csum_partial the helper is compiled with, its folded result is the
      same: the pad's length is never negative, so the versions agree on all that it passes. */
  method PadVersionsAgree(from: seq<byte>, fromSize: nat, to: seq<byte>, toSize: nat, seed: u32, addr: nat)
    returns (slow: u16, fast: u16)
    requires Accepted(fromSize, toSize) && fromSize <= |from| && toSize <= |to|
    ensures slow == fast == Canon(Diff(from[..fromSize], to[..toSize], seed))
  {
    hide WordSum, Canon, EndAround32, Complement, RoundUp8;
    var diff := FillPad(from, fromSize, to, toSize);
    var n := fromSize + toSize;
    assert diff[..][..n] == diff[..n];
    PadRounded(n);
    slow, fast := VersionsAgree(diff[..], addr, n, seed);
    DiffIs(from[..fromSize], to[..toSize], seed);
  }

  lemma PadRounded(n: nat)
    requires n <= MAX_BPF_STACK
    ensures RoundUp8(n) <= MAX_BPF_STACK
  {
  }

  /** The folded value of the helper is the one's-complement sum of seed and pad. */
  lemma DiffIs(from: seq<byte>, to: seq<byte>, seed: u32)
    ensures Same(Diff(from, to, seed), seed + WordSum(Complement(from) + to))
    ensures Canon(Diff(from, to, seed)) == Canon(seed + WordSum(Complement(from) + to))
  {
    hide WordSum, Canon, EndAround32, Complement;
    var sum := WordSum(Complement(from) + to);
    if from == [] && to == [] {
      EmptySum(Complement(from) + to);
    } else {
      CanonIdempotent(sum);
      SameEndAround(Canon(sum), seed);
      SameAdd(Canon(sum), sum, seed);
    }
  }

  /** A 32-bit number that is seed + sum(to) - sum(from) in one's-complement arithmetic. */
  ghost predicate IsDifference(r: int, from: seq<byte>, to: seq<byte>, seed: u32) {
    0 <= r <= 0xffff_ffff && r % 0xffff == (seed + WordSum(to) - WordSum(from)) % 0xffff
  }

  /** The runtime helper: 64-bit sizes and seed, the seed cut down to 32 bits. */
  method CsumDiffRuntime(from: seq<byte>, fromSize: u64, to: seq<byte>, toSize: u64, seed: u64, addr: nat)
    returns (r: u64)
    requires PassesGuard(fromSize, toSize, TWO64) ==> InBounds(from, fromSize, to, toSize)
    ensures !PassesGuard(fromSize, toSize, TWO64) ==> r == TWO64 - EINVAL
    ensures PassesGuard(fromSize, toSize, TWO64) ==> r == Diff(from[..fromSize], to[..toSize], seed % TWO32)
    ensures fromSize % 4 == 0 && toSize % 4 == 0 && fromSize + toSize <= 512 ==>
      fromSize <= |from| && toSize <= |to| && IsDifference(r, from[..fromSize], to[..toSize], seed % 0x1_0000_0000)
    ensures fromSize % 4 != 0 || toSize % 4 != 0 || 512 < fromSize + toSize <= 0xffff_ffff_ffff_ffff ==>
      r == 0xffff_ffff_ffff_ffea
  {
    hide Diff, WordSum;
    if !PassesGuard(fromSize, toSize, TWO64) {
      return TWO64 - EINVAL;
    }
    DiffCongruence(from[..fromSize], to[..toSize], seed % TWO32, fromSize / 2);
    r := SumScratch(from, fromSize, to, toSize, seed % TWO32, addr);
  }

  /** The inlined helper: 32-bit sizes, added up in 32 bits, and a signed result. */
  method CsumDiffInlined(from: seq<byte>, fromSize: u32, to: seq<byte>, toSize: u32, seed: u32, addr: nat)
    returns (r: int)
    requires PassesGuard(fromSize, toSize, TWO32) ==> InBounds(from, fromSize, to, toSize)
    ensures !PassesGuard(fromSize, toSize, TWO32) ==> r == -EINVAL
    ensures PassesGuard(fromSize, toSize, TWO32) ==> r == Diff(from[..fromSize], to[..toSize], seed)
    ensures fromSize % 4 == 0 && toSize % 4 == 0 && fromSize + toSize <= 512 ==>
      fromSize <= |from| && toSize <= |to| && IsDifference(r, from[..fromSize], to[..toSize], seed)
    ensures fromSize % 4 != 0 || toSize % 4 != 0 || 512 < fromSize + toSize <= 0xffff_ffff ==> r == -22
  {
    hide Diff, WordSum;
    if !PassesGuard(fromSize, toSize, TWO32) {
      return -EINVAL;
    }
    DiffCongruence(from[..fromSize], to[..toSize], seed, fromSize / 2);
    r := SumScratch(from, fromSize, to, toSize, seed, addr);
  }

  /** Where the sizes and their sum fit in 32 bits the two helpers return the same 64-bit word. */
  method HelpersAgree(from: seq<byte>, fromSize: u32, to: seq<byte>, toSize: u32, seed: u32, addr: nat, addr': nat)
    returns (runtime: u64, inlined: int)
    requires fromSize + toSize < TWO32
    requires Accepted(fromSize, toSize) ==> fromSize <= |from| && toSize <= |to|
    ensures runtime == inlined % TWO64
  {
    hide Diff;
    runtime := CsumDiffRuntime(from, fromSize, to, toSize, seed, addr);
    inlined := CsumDiffInlined(from, fromSize, to, toSize, seed, addr');
  }

  /** The difference is seed + sum(to) - sum(from) in one's-complement arithmetic. */
  lemma DiffCongruence(from: seq<byte>, to: seq<byte>, seed: u32, k: nat)
    requires |from| == 2 * k
    ensures Diff(from, to, seed) % 0xffff == (seed + WordSum(to) - WordSum(from)) % 0xffff
    ensures Same(Diff(from, to, seed), seed + WordSum(Complement(from)) + WordSum(to))
  {
    hide WordSum, Canon, Complement, EndAround32;
    var sum := WordSum(Complement(from)) + WordSum(to);
    ComplementSum(from, k);
    WordSumAppend(Complement(from), to, k);
    DiffIs(from, to, seed);
    CanonResidue(Diff(from, to, seed));
    CanonResidue(seed + sum);
    DifferenceMod(seed + WordSum(to), WordSum(from), WordSum(Complement(from)), k);
  }

  lemma DifferenceMod(a: nat, b: nat, notB: nat, k: nat)
    requires notB + b == 0xffff * k
    ensures (a + notB) % 0xffff == (a - b) % 0xffff
  {
  }

  /** What an incremental update of a checksum c stores (RFC 1624, equation 3):
      HC' = ~(~HC + ~m + m'). */
  ghost function UpdatedChecksum(c: u16, from: seq<byte>, to: seq<byte>): u16 {
    0xffff - Canon(Diff(from, to, 0xffff - c))
  }

  /** The message with a range replaced and its checksum field brought up to date. */
  ghost function Updated(s: seq<byte>, h: nat, to: seq<byte>, f: nat): (r: seq<byte>)
    requires 2 * h + |to| <= |s| && 2 * f + 2 <= |s|
    ensures |r| == |s|
  {
    var q := 2 * h;
    var from := s[q..q + |to|];
    Patch(s[..q] + to + s[q + |to|..], 2 * f, Le16(UpdatedChecksum(Load16(s, 2 * f), from, to)))
  }

  /** A valid message stays valid under an incremental update (RFC 1624, section 3), unless it
      becomes a message of zero bytes only. */
  lemma UpdateResidue(s: seq<byte>, h: nat, k: nat, to: seq<byte>, f: nat)
    requires |to| == 2 * k && 2 * h + 2 * k <= |s| && 2 * f + 2 <= |s|
    requires f + 1 <= h || h + k <= f
    requires Verifies(s)
    ensures WordSum(Updated(s, h, to, f)) % 0xffff == 0
    ensures Verifies(Updated(s, h, to, f)) <==> exists i :: 0 <= i < |s| && Updated(s, h, to, f)[i] != 0
  {
    hide WordSum, Canon, Complement, Diff, Patch, Le16;
    var q := 2 * h;
    var c: nat := Load16(s, 2 * f);
    var from := s[q..q + 2 * k];
    var moved := s[..q] + to + s[q + 2 * k..];
    var c': nat := UpdatedChecksum(c, from, to);
    WordSumReplace(s, h, k, to);
    assert Load16(moved, 2 * f) == c;
    WordSumStore(moved, f, c');
    DiffCongruence(from, to, 0xffff - c, k);
    CanonResidue(Diff(from, to, 0xffff - c));
    CanonResidue(WordSum(s));
    ValidResidue(WordSum(Updated(s, h, to, f)));
    ZeroMessage(Updated(s, h, to, f));
    var d := Canon(Diff(from, to, 0xffff - c));
    UpdateArithmetic(WordSum(s), WordSum(from), WordSum(to), c, d, WordSum(Updated(s, h, to, f)));
  }

  /** The update leaves nothing but zero bytes outside the checksum field. */
  ghost predicate ClearsRest(s: seq<byte>, h: nat, to: seq<byte>, f: nat)
    requires 2 * h + |to| <= |s|
  {
    && (forall i :: 0 <= i < |to| ==> to[i] == 0)
    && forall i :: 0 <= i < |s| && (i < 2 * h || 2 * h + |to| <= i) && i != 2 * f && i != 2 * f + 1 ==> s[i] == 0
  }

  /** The checksum and every replaced byte are all ones. */
  ghost predicate AllOnes(s: seq<byte>, h: nat, n: nat, f: nat)
    requires 2 * h + n <= |s| && 2 * f + 2 <= |s|
  {
    Load16(s, 2 * f) == 0xffff && forall i :: 2 * h <= i < 2 * h + n ==> s[i] == 0xff
  }

  /** When an incremental update keeps a valid message valid: always, except when it clears
      everything but the checksum and what it replaces is not all ones. */
  lemma UpdateKeepsValid(s: seq<byte>, h: nat, k: nat, to: seq<byte>, f: nat)
    requires |to| == 2 * k && 2 * h + 2 * k <= |s| && 2 * f + 2 <= |s|
    requires f + 1 <= h || h + k <= f
    requires Verifies(s)
    ensures Verifies(Updated(s, h, to, f)) <==> !ClearsRest(s, h, to, f) || AllOnes(s, h, 2 * k, f)
  {
    hide WordSum, Canon, Complement, Diff, Patch, Le16, UpdatedChecksum, Load16;
    UpdateResidue(s, h, k, to, f);
    var r, c := Updated(s, h, to, f), UpdatedChecksum(Load16(s, 2 * f), s[2 * h..2 * h + 2 * k], to);
    UpdatedBytes(s, h, k, to, f);
    if ClearsRest(s, h, to, f) {
      OnlyChecksum(r, f, c);
      NewChecksum(s, h, k, to, f);
    }
  }

  /** The complement of the folded difference, as the programs use the helper. */
  method NewChecksumOf(c: u16, from: seq<byte>, to: seq<byte>, addr: nat) returns (check: u16)
    requires |from| == |to| && |to| % 4 == 0 && 2 * |to| <= 512
    ensures check == UpdatedChecksum(c, from, to)
  {
    hide WordSum, Canon, Diff, IsDifference;
    var diff := CsumDiffRuntime(from, |from|, to, |to|, 0xffff - c, addr);
    assert from[..|from|] == from && to[..|to|] == to;
    check := 0xffff - From32To16(diff);
  }

  /** Replaces words of a message and stores the new checksum that the helper's difference gives. */
  method ReplaceWords(msg: array<byte>, h: nat, k: nat, to: seq<byte>, f: nat, addr: nat)
    requires |to| == 2 * k && 2 * h + 2 * k <= msg.Length && 2 * f + 2 <= msg.Length
    requires |to| % 4 == 0 && 2 * |to| <= 512
    modifies msg
    ensures msg[..] == Updated(old(msg[..]), h, to, f)
  {
    hide UpdatedChecksum, Load16, Le16;
    var s, q := msg[..], 2 * h;
    var check := NewChecksumOf(Load16(s, 2 * f), s[q..q + 2 * k], to, addr);
    Write(msg, q, to);
    Write(msg, 2 * f, Le16(check));
  }

  /** An update made through the helper: the new words are in place, nothing else but the
      checksum changes, and a valid message stays valid under exactly the condition above. */
  method UpdateInPlace(msg: array<byte>, h: nat, k: nat, to: seq<byte>, f: nat, addr: nat)
    requires |to| == 2 * k && 2 * h + 2 * k <= msg.Length && 2 * f + 2 <= msg.Length
    requires f + 1 <= h || h + k <= f
    requires |to| % 4 == 0 && 2 * |to| <= 512
    modifies msg
    ensures forall i :: 0 <= i < msg.Length && i != 2 * f && i != 2 * f + 1 ==>
      msg[i] == if 2 * h <= i < 2 * h + 2 * k then to[i - 2 * h] else old(msg[i])
    ensures old(Verifies(msg[..])) ==>
      (Verifies(msg[..]) <==> !old(ClearsRest(msg[..], h, to, f)) || old(AllOnes(msg[..], h, 2 * k, f)))
  {
    hide Verifies, Updated, ClearsRest, AllOnes;
    ghost var s := msg[..];
    ReplaceWords(msg, h, k, to, f, addr);
    UpdatedAt(s, h, k, to, f);
    assert forall i :: 0 <= i < msg.Length ==> msg[i] == msg[..][i];
    if Verifies(s) {
      UpdateKeepsValid(s, h, k, to, f);
    }
  }

  lemma UpdatedAt(s: seq<byte>, h: nat, k: nat, to: seq<byte>, f: nat)
    requires |to| == 2 * k && 2 * h + 2 * k <= |s| && 2 * f + 2 <= |s|
    ensures forall i :: 0 <= i < |s| && i != 2 * f && i != 2 * f + 1 ==>
      Updated(s, h, to, f)[i] == if 2 * h <= i < 2 * h + 2 * k then to[i - 2 * h] else s[i]
  {
    hide UpdatedChecksum;
  }

  lemma UpdatedBytes(s: seq<byte>, h: nat, k: nat, to: seq<byte>, f: nat)
    requires |to| == 2 * k && 2 * h + 2 * k <= |s| && 2 * f + 2 <= |s|
    requires f + 1 <= h || h + k <= f
    ensures Load16(Updated(s, h, to, f), 2 * f) == UpdatedChecksum(Load16(s, 2 * f), s[2 * h..2 * h + 2 * k], to)
    ensures ClearsRest(s, h, to, f) <==>
      forall i :: 0 <= i < |s| && i != 2 * f && i != 2 * f + 1 ==> Updated(s, h, to, f)[i] == 0
  {
    hide UpdatedChecksum;
    var r, q := Updated(s, h, to, f), 2 * h;
    assert forall i :: 0 <= i < |s| && i != 2 * f && i != 2 * f + 1 ==>
      r[i] == if q <= i < q + 2 * k then to[i - q] else s[i];
    assert forall j :: 0 <= j < 2 * k ==> r[q + j] == to[j];
  }

  /** A message that is zero outside one word sums to that word. */
  lemma OnlyChecksum(r: seq<byte>, f: nat, c: u16)
    requires 2 * f + 2 <= |r| && Load16(r, 2 * f) == c
    requires forall i :: 0 <= i < |r| && i != 2 * f && i != 2 * f + 1 ==> r[i] == 0
    ensures WordSum(r) == c && (c == 0 <==> forall i :: 0 <= i < |r| ==> r[i] == 0)
  {
    hide WordSum;
    WordSumStore(r, f, 0);
    ZeroMessage(Patch(r, 2 * f, Le16(0)));
    ZeroMessage(r);
  }

  /** With zero bytes put in, the new checksum is all ones exactly when the difference is zero. */
  lemma NewChecksum(s: seq<byte>, h: nat, k: nat, to: seq<byte>, f: nat)
    requires |to| == 2 * k && 2 * h + 2 * k <= |s| && 2 * f + 2 <= |s|
    requires forall i :: 0 <= i < |to| ==> to[i] == 0
    ensures UpdatedChecksum(Load16(s, 2 * f), s[2 * h..2 * h + 2 * k], to) == 0xffff <==> AllOnes(s, h, 2 * k, f)
  {
    hide WordSum, Canon, Diff, Load16;
    var from, seed := s[2 * h..2 * h + 2 * k], 0xffff - Load16(s, 2 * f);
    var ones := Complement(from);
    DiffCongruence(from, to, seed, k);
    CanonResidue(Diff(from, to, seed));
    CanonResidue(seed + WordSum(ones) + WordSum(to));
    ZeroMessage(ones);
    ZeroMessage(to);
    assert forall i :: 0 <= i < 2 * k ==> ones[i] == 0xff - s[2 * h + i];
    assert (forall i :: 0 <= i < 2 * k ==> ones[i] == 0)
      <==> forall i :: 2 * h <= i < 2 * h + 2 * k ==> s[i] == 0xff by {
      assert forall i :: 2 * h <= i < 2 * h + 2 * k ==> ones[i - 2 * h] == 0xff - s[i];
    }
  }

  /** Taking out the one word that is not zero makes a valid message invalid. */
  lemma UpdateCanInvalidate()
    ensures var s: seq<byte> := [0, 0, 0, 0, 0xff, 0xff, 0, 0];
      Verifies(s) && !Verifies(Updated(s, 2, [0, 0, 0, 0], 0))
  {
    hide WordSum, Canon;
    var s: seq<byte> := [0, 0, 0, 0, 0xff, 0xff, 0, 0];
    OnlyChecksum(s, 2, 0xffff);
    CanonOfWord(0xffff);
    UpdateKeepsValid(s, 2, 2, [0, 0, 0, 0], 0);
  }

  lemma ValidResidue(x: nat)
    ensures Canon(x) == 0xffff <==> x != 0 && x % 0xffff == 0
  {
  }

  lemma UpdateArithmetic(before: nat, from: nat, to: nat, c: nat, d: nat, after: nat)
    requires before % 0xffff == 0
    requires d % 0xffff == (0xffff - c + to - from) % 0xffff
    requires after + from + c == before + to + (0xffff - d)
    ensures after % 0xffff == 0
  {
  }
}
