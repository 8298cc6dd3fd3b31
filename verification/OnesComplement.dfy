// One's-complement sums of 16-bit words, the arithmetic of RFC 1071.
//
// A sum is identified with its canonical 16-bit representative `Canon`: 0 stands for
// the sum 0 alone, every other sum has a representative in 1..0xffff. Keeping the two
// zeros apart is what lets results of different algorithms be compared exactly.

module OnesComplement {

  import opened Machine

  /** Little-endian loads. */
  function Load16(m: seq<byte>, i: nat): u16
    requires i + 2 <= |m|
  {
    m[i] + TWO8 * m[i + 1]
  }

  function Load32(m: seq<byte>, i: nat): u32
    requires i + 4 <= |m|
  {
    Load16(m, i) + TWO16 * Load16(m, i + 2)
  }

  function Load64(m: seq<byte>, i: nat): u64
    requires i + 8 <= |m|
  {
    Load32(m, i) + TWO32 * Load32(m, i + 4)
  }

  /** The sum of the little-endian 16-bit words of s; an odd last byte is padded with zero. */
  ghost function WordSum(s: seq<byte>): nat
  {
    if |s| == 0 then 0
    else if |s| == 1 then s[0]
    else Load16(s, 0) + WordSum(s[2..])
  }

  /** The 16-bit one's-complement value of an unbounded sum. */
  ghost function Canon(x: nat): u16
  {
    if x == 0 then 0 else 1 + (x - 1) % 0xffff
  }

  /** Two sums with the same one's-complement value. */
  ghost predicate Same(a: nat, b: nat)
  {
    Canon(a) == Canon(b)
  }

  // ----- the algebra of Same

  lemma SameMultiple(x: nat, q: nat)
    requires x > 0
    ensures Same(x, x + 0xffff * q)
  {
  }

  /** Same is a congruence for addition; both zeros are told apart. */
  lemma SameAdd(a: nat, b: nat, c: nat)
    requires Same(a, b)
    ensures Same(a + c, b + c)
  {
    if a > 0 {
      if a <= b {
        var q := (b - 1) / 0xffff - (a - 1) / 0xffff;
        assert b == a + 0xffff * q;
        SameMultiple(a + c, q);
      } else {
        var q := (a - 1) / 0xffff - (b - 1) / 0xffff;
        assert a == b + 0xffff * q;
        SameMultiple(b + c, q);
      }
    }
  }

  /** Adding the high part of a number to its low part keeps its value, at every word
      boundary: 2^16, 2^32, 2^48, ... are all 1 modulo 0xffff. */
  lemma SameFold(hi: nat, lo: nat, k: nat)
    ensures Same(hi * (0xffff * k + 1) + lo, hi + lo)
  {
    assert hi * (0xffff * k + 1) + lo == hi + lo + 0xffff * (hi * k);
    if hi + lo > 0 {
      assert hi * k >= 0;
      SameMultiple(hi + lo, hi * k);
    } else {
      assert hi * (0xffff * k + 1) == 0;
    }
  }

  lemma SameFold16(hi: nat, lo: nat)
    ensures Same(hi * TWO16 + lo, hi + lo)
  {
    SameFold(hi, lo, 1);
  }

  lemma SameFold32(hi: nat, lo: nat)
    ensures Same(hi * TWO32 + lo, hi + lo)
  {
    SameFold(hi, lo, 0x1_0001);
  }

  lemma CanonOfWord(x: nat)
    requires x <= 0xffff
    ensures Canon(x) == x
  {
  }

  /** When adding to a sum changes nothing. */
  lemma AddsNothing(x: nat, w: nat)
    ensures Canon(x) == Canon(x + w) <==> w == 0 || (x > 0 && w % 0xffff == 0)
  {
    if x > 0 && w % 0xffff == 0 {
      SameMultiple(x, w / 0xffff);
    }
  }

  lemma CanonIdempotent(x: nat)
    ensures Same(Canon(x), x)
  {
  }

  /** What a canonical value says about a sum: its residue, and whether it is zero. */
  lemma CanonResidue(x: nat)
    ensures Canon(x) % 0xffff == x % 0xffff
    ensures Canon(x) == 0 <==> x == 0
  {
  }

  // ----- word sums
  //
  // Even offsets are written 2 * h: the lemmas take the number h of words before them.

  lemma {:induction false} WordSumAppend(a: seq<byte>, b: seq<byte>, h: nat)
    requires |a| == 2 * h
    ensures WordSum(a + b) == WordSum(a) + WordSum(b)
  {
    if h == 0 {
      assert a + b == b;
    } else {
      WordSumAppend(a[2..], b, h - 1);
      assert (a + b)[2..] == a[2..] + b;
    }
  }

  lemma WordSumStep16(s: seq<byte>, h: nat)
    requires 2 * h + 2 <= |s|
    ensures WordSum(s[..2 * h + 2]) == WordSum(s[..2 * h]) + Load16(s, 2 * h)
  {
    var q := 2 * h;
    assert s[..q + 2] == s[..q] + s[q..q + 2];
    WordSumAppend(s[..q], s[q..q + 2], h);
    assert s[q..q + 2][2..] == [];
  }

  lemma WordSumStepByte(s: seq<byte>, h: nat)
    requires 2 * h + 1 <= |s|
    ensures WordSum(s[..2 * h + 1]) == WordSum(s[..2 * h]) + s[2 * h]
  {
    var q := 2 * h;
    assert s[..q + 1] == s[..q] + s[q..q + 1];
    WordSumAppend(s[..q], s[q..q + 1], h);
  }

  lemma EmptySum(s: seq<byte>)
    requires s == []
    ensures WordSum(s) == 0
  {
  }

  /** Adding a 32-bit load advances the word sum by four bytes. */
  lemma SameStep32(s: seq<byte>, h: nat, acc: nat, seed: nat)
    requires 2 * h + 4 <= |s|
    requires Same(acc, seed + WordSum(s[..2 * h]))
    ensures Same(acc + Load32(s, 2 * h), seed + WordSum(s[..2 * h + 4]))
  {
    hide WordSum, Canon, Load16;
    var hi: nat, lo: nat := Load16(s, 2 * h + 2), Load16(s, 2 * h);
    WordSumStep16(s, h);
    WordSumStep16(s, h + 1);
    SameFold16(hi, acc + lo);
    SameAdd(acc, seed + WordSum(s[..2 * h]), lo + hi);
  }

  /** Adding a 64-bit load advances the word sum by eight bytes. */
  lemma SameStep64(s: seq<byte>, h: nat, acc: nat, seed: nat)
    requires 2 * h + 8 <= |s|
    requires Same(acc, seed + WordSum(s[..2 * h]))
    ensures Same(acc + Load64(s, 2 * h), seed + WordSum(s[..2 * h + 8]))
  {
    hide WordSum, Canon, Load32;
    SameStep32(s, h, acc, seed);
    SameStep32(s, h + 2, acc + Load32(s, 2 * h), seed);
    SameFold32(Load32(s, 2 * h + 4), acc + Load32(s, 2 * h));
  }

  /** A sum over the first 2h bytes, continued by a sum over the next n. */
  lemma SameExtend(acc: nat, seed: nat, m: seq<byte>, h: nat, n: nat, next: nat)
    requires 2 * h + n <= |m|
    requires Same(acc, seed + WordSum(m[..2 * h]))
    requires Same(next, acc + WordSum(m[2 * h..2 * h + n]))
    ensures Same(next, seed + WordSum(m[..2 * h + n]))
  {
    hide WordSum, Canon;
    var q := 2 * h;
    assert m[..q + n] == m[..q] + m[q..q + n];
    WordSumAppend(m[..q], m[q..q + n], h);
    SameAdd(acc, seed + WordSum(m[..q]), WordSum(m[q..q + n]));
  }

  // ----- byte order independence, RFC 1071 section 2 (B)

  ghost function Swap16(x: u16): u16
  {
    x / TWO8 + TWO8 * (x % TWO8)
  }

  lemma SwapIs256(x: u16)
    ensures Same(Swap16(x), TWO8 * x)
    ensures Swap16(Swap16(x)) == x
  {
    var h, l := x / 0x100, x % 0x100;
    assert TWO8 * x == h * TWO16 + TWO8 * l;
    SameFold16(h, TWO8 * l);
    assert Swap16(x) / 0x100 == l && Swap16(x) % 0x100 == h;
  }

  lemma SameMul256(a: nat, b: nat)
    requires Same(a, b)
    ensures Same(TWO8 * a, TWO8 * b)
  {
    if a > 0 {
      if a <= b {
        var q := (b - 1) / 0xffff - (a - 1) / 0xffff;
        assert b == a + 0xffff * q;
        SameMultiple(TWO8 * a, TWO8 * q);
      } else {
        var q := (a - 1) / 0xffff - (b - 1) / 0xffff;
        assert a == b + 0xffff * q;
        SameMultiple(TWO8 * b, TWO8 * q);
      }
    }
  }

  /** Reading a buffer one byte out of phase multiplies its sum by 256, so swapping the
      bytes of the 16-bit result undoes it. */
  lemma {:induction false} OutOfPhase(s: seq<byte>)
    ensures Same(TWO8 * WordSum([0] + s), WordSum(s))
  {
    if |s| == 0 {
    } else if |s| == 1 {
      assert ([0] + s)[2..] == [];
      assert WordSum([0] + s) == TWO8 * s[0];
      SameFold16(s[0], 0);
    } else {
      // peel the first word of s; its high byte becomes the low byte of the next word
      var t := s[2..];
      OutOfPhase(t);
      var z := [0] + s;
      assert z[2..] == [s[1]] + t;
      OutOfPhaseHead(s[1], t);
      var w := WordSum([0] + t);
      assert WordSum(z) == TWO8 * s[0] + s[1] + w;
      assert TWO8 * WordSum(z) == s[0] * TWO16 + TWO8 * s[1] + TWO8 * w;
      SameFold16(s[0], TWO8 * s[1] + TWO8 * w);
      SameAdd(TWO8 * w, WordSum(t), s[0] + TWO8 * s[1]);
    }
  }

  lemma OutOfPhaseHead(b: byte, t: seq<byte>)
    ensures WordSum([b] + t) == b + WordSum([0] + t)
  {
    if t != [] {
      assert ([b] + t)[2..] == ([0] + t)[2..];
    }
  }

  lemma SwapUndoesPhase(s: seq<byte>)
    ensures Swap16(Canon(WordSum([0] + s))) == Canon(WordSum(s))
  {
    var c := Canon(WordSum([0] + s));
    CanonOfWord(c);
    SameMul256(c, WordSum([0] + s));
    OutOfPhase(s);
    SwapIs256(c);
    CanonOfWord(Swap16(c));
  }

  // ----- stored checksums

  /** A receiver accepts a message when its words, the checksum among them, fold to 0xffff. */
  ghost predicate Verifies(s: seq<byte>) {
    Canon(WordSum(s)) == 0xffff
  }

  /** The bytes p with b written over them at `at`. */
  function Patch(p: seq<byte>, at: nat, b: seq<byte>): (r: seq<byte>)
    requires at + |b| <= |p|
    ensures |r| == |p|
    ensures forall i :: 0 <= i < |p| ==> r[i] == if at <= i < at + |b| then b[i - at] else p[i]
  {
    p[..at] + b + p[at + |b|..]
  }

  /** memcpy into a buffer. */
  method Write(pkt: array<byte>, at: nat, b: seq<byte>)
    requires at + |b| <= pkt.Length
    modifies pkt
    ensures pkt[..] == Patch(old(pkt[..]), at, b)
  {
    forall i | 0 <= i < |b| {
      pkt[at + i] := b[i];
    }
  }

  /** A 16-bit number in memory, in host (little-endian) order. */
  function Le16(v: u16): (r: seq<byte>)
    ensures |r| == 2 && r[0] as int + 0x100 * r[1] as int == v
  {
    [v % TWO8, v / TWO8]
  }

  function Zeros(n: nat): (z: seq<byte>)
    ensures |z| == n && forall i :: 0 <= i < n ==> z[i] == 0
  {
    seq(n, _ => 0)
  }

  /** Replacing an even-aligned, even-sized range changes the sum by the difference. */
  lemma WordSumReplace(s: seq<byte>, h: nat, k: nat, to: seq<byte>)
    requires 2 * h + 2 * k <= |s| && |to| == 2 * k
    ensures WordSum(s[..2 * h] + to + s[2 * h + 2 * k..]) + WordSum(s[2 * h..2 * h + 2 * k])
         == WordSum(s) + WordSum(to)
  {
    hide WordSum;
    var a, m, z := s[..2 * h], s[2 * h..2 * h + 2 * k], s[2 * h + 2 * k..];
    assert s == a + (m + z) && a + to + z == a + (to + z);
    WordSumAppend(a, m + z, h);
    WordSumAppend(m, z, k);
    WordSumAppend(a, to + z, h);
    WordSumAppend(to, z, k);
  }

  lemma WordSumStore(s: seq<byte>, h: nat, v: u16)
    requires 2 * h + 2 <= |s|
    ensures WordSum(Patch(s, 2 * h, Le16(v))) + Load16(s, 2 * h) == WordSum(s) + v
  {
    hide WordSum, Load16, Patch, Le16;
    var q := 2 * h;
    var to: seq<byte> := [v % TWO8, v / TWO8];
    WordSumReplace(s, h, 1, to);
    StoreSplits(s, q, v);
    OneWord(to);
    OneWord(s[q..q + 2]);
    assert Load16(to, 0) == v && Load16(s[q..q + 2], 0) == Load16(s, q) by { Load16Of(to, s, q, v); }
  }

  lemma StoreSplits(s: seq<byte>, i: nat, v: u16)
    requires i + 2 <= |s|
    ensures Patch(s, i, Le16(v)) == s[..i] + [v % TWO8, v / TWO8] + s[i + 2..]
  {
  }

  lemma OneWord(s: seq<byte>)
    requires |s| == 2
    ensures WordSum(s) == Load16(s, 0)
  {
    assert s[2..] == [];
  }

  lemma Load16Of(to: seq<byte>, s: seq<byte>, q: nat, v: u16)
    requires to == [v % TWO8, v / TWO8] && q + 2 <= |s|
    ensures Load16(to, 0) == v && Load16(s[q..q + 2], 0) == Load16(s, q)
  {
  }

  lemma {:induction false} ZeroMessage(s: seq<byte>)
    ensures WordSum(s) == 0 <==> forall i :: 0 <= i < |s| ==> s[i] == 0
  {
    if |s| >= 2 {
      ZeroMessage(s[2..]);
      assert forall i :: 2 <= i < |s| ==> s[i] == s[2..][i - 2];
    }
  }

  /** Computing a checksum over a message whose checksum field is zero, and storing the
      complement there, makes the message verify. */
  lemma StoredChecksumVerifies(s: seq<byte>, h: nat)
    requires 2 * h + 2 <= |s| && Load16(s, 2 * h) == 0
    ensures Verifies(Patch(s, 2 * h, Le16(0xffff - Canon(WordSum(s)))))
  {
    hide WordSum, Patch, Le16;
    WordSumStore(s, h, 0xffff - Canon(WordSum(s)));
  }

  /** A sum folded only once, as the short checksum helpers do. */
  function FoldedOnce(sum: u32): u16 {
    (sum % TWO16 + sum / TWO16) % TWO16
  }

  /** One fold is enough exactly when the halves add up without a carry. */
  lemma OneFoldVerifies(s: seq<byte>, h: nat)
    requires 2 * h + 2 <= |s| && Load16(s, 2 * h) == 0 && WordSum(s) < TWO32
    ensures Verifies(Patch(s, 2 * h, Le16(0xffff - FoldedOnce(WordSum(s)))))
       <==> WordSum(s) % TWO16 + WordSum(s) / TWO16 <= 0xffff
  {
    hide WordSum, Canon, Patch, Le16, FoldedOnce;
    WordSumStore(s, h, 0xffff - FoldedOnce(WordSum(s)));
    OneFold(WordSum(s));
  }

  lemma OneFold(sum: u32)
    ensures Canon(sum + 0xffff - FoldedOnce(sum)) == 0xffff <==> sum % TWO16 + sum / TWO16 <= 0xffff
  {
    hide Canon;
    var hi: nat, lo: nat := sum / TWO16, sum % TWO16;
    var c: nat := 0xffff - FoldedOnce(sum);
    SameFold16(hi, lo + c);
    CanonOfWord(0xffff);
    if hi + lo > 0xffff {
      assert hi + lo + c == 1 + 2 * 0xffff;
      SameMultiple(1, 2);
      CanonOfWord(1);
    }
  }

  ghost function Complement(s: seq<byte>): (r: seq<byte>)
    ensures |r| == |s|
  {
    seq(|s|, i requires 0 <= i < |s| => 0xff - s[i])
  }

  lemma ComplementExtend(s: seq<byte>, n: nat)
    requires n + 4 <= |s|
    ensures Complement(s[..n + 4])
         == Complement(s[..n]) + [0xff - s[n], 0xff - s[n + 1], 0xff - s[n + 2], 0xff - s[n + 3]]
  {
  }

  lemma {:induction false} ComplementSum(s: seq<byte>, k: nat)
    requires |s| == 2 * k
    ensures WordSum(Complement(s)) + WordSum(s) == 0xffff * k
  {
    if k > 0 {
      ComplementSum(s[2..], k - 1);
      assert Complement(s)[2..] == Complement(s[2..]);
    }
  }
}
