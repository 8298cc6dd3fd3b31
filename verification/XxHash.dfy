// The recursive xxHash32 of xdp_progs/xdp_hash_sum.bpf.c (xdp_progs/xdp_lb.bpf.c has the
// same functions) on 32-bit machine words.

module XxHash {

  // ----- the hash

  // Multiplication by the primes PRIME1 to PRIME4; PRIME5 is also added to the seed.
  function Times1(x: bv32): bv32 { x * 0x9E3779B1 }
  function Times2(x: bv32): bv32 { x * 0x85EBCA77 }
  function Times3(x: bv32): bv32 { x * 0xC2B2AE3D }
  function Times4(x: bv32): bv32 { x * 0x27D4EB2F }
  function Times5(x: bv32): bv32 { x * 0x165667B1 }
  function Plus(a: bv32, b: bv32): bv32 { a + b }
  function Minus(a: bv32, b: bv32): bv32 { a - b }
  const PRIME1: bv32 := 0x9E3779B1
  const PRIME2: bv32 := 0x85EBCA77
  const PRIME5: bv32 := 0x165667B1

  function Rotl(x: bv32, r: bv32): bv32
    requires 0 < r < 32
  {
    (x << r) | (x >> (32 - r))
  }

  function RoundXxHash(acc: bv32, input: bv32): bv32 {
    Times1(Rotl(Plus(acc, Times2(input)), 13))
  }

  // The three shifts of an avalanche; its multiplications are Times2 and Times3.
  function Shift15(h: bv32): bv32 { h ^ (h >> 15) }
  function Shift13(h: bv32): bv32 { h ^ (h >> 13) }
  function Shift16(h: bv32): bv32 { h ^ (h >> 16) }

  function Avalanche(h: bv32): bv32 {
    Shift16(Times3(Shift13(Times2(Shift15(h)))))
  }

  function Word(b0: bv8, b1: bv8, b2: bv8, b3: bv8): bv32 {
    (b0 as bv32) | ((b1 as bv32) << 8) | ((b2 as bv32) << 16) | ((b3 as bv32) << 24)
  }

  function Endian32(p: seq<bv8>, i: nat): bv32
    requires i + 4 <= |p|
  {
    Word(p[i], p[i + 1], p[i + 2], p[i + 3])
  }

  /** One step of Finalize on a whole word, and on a single byte. */
  function MixWord(h: bv32, w: bv32): bv32 {
    Times4(Rotl(Plus(h, Times3(w)), 17))
  }

  function MixByte(h: bv32, b: bv8): bv32 {
    Times1(Rotl(Plus(h, Times5(b as bv32)), 11))
  }

  /** Processes the last 0 to 15 bytes. */
  function Finalize(h: bv32, p: seq<bv8>): bv32
    decreases |p|
  {
    if |p| >= 4 then Finalize(MixWord(h, Endian32(p, 0)), p[4..])
    else if |p| > 0 then Finalize(MixByte(h, p[0]), p[1..])
    else Avalanche(h)
  }

  /** The four accumulators of the stripe loop. */
  datatype Lanes = Lanes(v1: bv32, v2: bv32, v3: bv32, v4: bv32)

  function Absorb(v: Lanes, p: seq<bv8>): Lanes
    requires |p| >= 16
  {
    Lanes(RoundXxHash(v.v1, Endian32(p, 0)), RoundXxHash(v.v2, Endian32(p, 4)),
          RoundXxHash(v.v3, Endian32(p, 8)), RoundXxHash(v.v4, Endian32(p, 12)))
  }

  function Merge(v: Lanes): bv32 {
    Plus(Plus(Plus(Rotl(v.v1, 1), Rotl(v.v2, 7)), Rotl(v.v3, 12)), Rotl(v.v4, 18))
  }

  function H16Bytes4(p: seq<bv8>, v: Lanes): bv32
    decreases |p|
  {
    if |p| >= 16 then H16Bytes4(p[16..], Absorb(v, p)) else Merge(v)
  }

  function H16Bytes3(p: seq<bv8>, seed: bv32): bv32 {
    H16Bytes4(p, Seeded(seed))
  }

  function Seeded(seed: bv32): Lanes {
    Lanes(Plus(Plus(seed, PRIME1), PRIME2), Plus(seed, PRIME2), seed, Minus(seed, PRIME1))
  }

  /** `len & ~0xF`: where the stripes end and the tail begins. */
  function StripesEnd(len: nat): (r: nat)
    ensures r <= len < r + 16
  {
    len - len % 16
  }

  function Start(input: seq<bv8>, seed: bv32): bv32
    requires |input| < 0x1_0000_0000
  {
    Plus(if |input| >= 16 then H16Bytes3(input, seed) else Plus(seed, PRIME5), |input| as bv32)
  }

  function XxHash32(input: seq<bv8>, seed: bv32): bv32
    requires |input| < 0x1_0000_0000
  {
    Finalize(Start(input, seed), input[StripesEnd(|input|)..])
  }

  // ----- what the stripe loop computes

  /** One accumulator after n stripes: the words at `at`, 16 + at, 32 + at and so on, folded in
      one after the other. */
  function Lane(p: seq<bv8>, n: nat, at: nat, start: bv32): bv32
    requires 16 * n <= |p| && at + 4 <= 16
  {
    if n == 0 then start else RoundXxHash(Lane(p, n - 1, at, start), Endian32(p, 16 * (n - 1) + at))
  }

  /** Folding in the first word first. */
  lemma {:induction false} LaneFromFront(p: seq<bv8>, n: nat, at: nat, start: bv32)
    requires 16 * n <= |p| && n > 0 && at + 4 <= 16
    ensures Lane(p, n, at, start) == Lane(p[16..], n - 1, at, RoundXxHash(start, Endian32(p, at)))
  {
    hide RoundXxHash, Word;
    if n > 1 {
      LaneFromFront(p, n - 1, at, start);
      var i := 16 * (n - 2) + at;
      assert Endian32(p[16..], i) == Endian32(p, 16 + i);
    }
  }

  /** The recursive stripe loop is four independent folds, whatever the accumulators start as. */
  lemma {:induction false} LaneByLane(p: seq<bv8>, v: Lanes)
    ensures var n := |p| / 16;
      H16Bytes4(p, v) ==
        Merge(Lanes(Lane(p, n, 0, v.v1), Lane(p, n, 4, v.v2), Lane(p, n, 8, v.v3), Lane(p, n, 12, v.v4)))
    decreases |p|
  {
    hide RoundXxHash, Endian32, Merge, Lane;
    if |p| >= 16 {
      var n := |p| / 16;
      LaneByLane(p[16..], Absorb(v, p));
      LaneFromFront(p, n, 0, v.v1);
      LaneFromFront(p, n, 4, v.v2);
      LaneFromFront(p, n, 8, v.v3);
      LaneFromFront(p, n, 12, v.v4);
    } else {
      NoStripe(p, v);
    }
  }

  lemma NoStripe(p: seq<bv8>, v: Lanes)
    ensures v == Lanes(Lane(p, 0, 0, v.v1), Lane(p, 0, 4, v.v2), Lane(p, 0, 8, v.v3), Lane(p, 0, 12, v.v4))
  {
  }

  /** The hash of every input: what the tail is mixed into. */
  lemma HashIs(p: seq<bv8>, seed: bv32)
    requires |p| < 0x1_0000_0000
    ensures var n := |p| / 16;
      var a, b := Lane(p, n, 0, Plus(Plus(seed, 0x9E37_79B1), 0x85EB_CA77)), Lane(p, n, 4, Plus(seed, 0x85EB_CA77));
      var c, d := Lane(p, n, 8, seed), Lane(p, n, 12, Minus(seed, 0x9E37_79B1));
      var merged := Plus(Plus(Plus(Rotl(a, 1), Rotl(b, 7)), Rotl(c, 12)), Rotl(d, 18));
      XxHash32(p, seed) ==
        Finalize(Plus(if n > 0 then merged else Plus(seed, 0x1656_67B1), |p| as bv32), p[16 * n..])
  {
    hide Lane, Rotl, Finalize, H16Bytes4, Plus, Minus;
    LaneByLane(p, Seeded(seed));
  }

  /** Two known values: the empty input, and 39 bytes of text, which are two stripes, one word
      and three single bytes. */
  lemma KnownHashes()
    ensures XxHash32([], 0) == 0x02CC_5D05
    ensures XxHash32(KNOWN, 0) == 0xE229_3B2F
  {
    hide Finalize, H16Bytes3, Avalanche, KNOWN;
    KnownStart();
    KnownTail();
    KnownEmpty();
  }

  /** "Nobody inspects the spammish repetition" */
  const FIRST: seq<bv8> := [78, 111, 98, 111, 100, 121, 32, 105, 110, 115, 112, 101, 99, 116, 115, 32]
  const SECOND: seq<bv8> := [116, 104, 101, 32, 115, 112, 97, 109, 109, 105, 115, 104, 32, 114, 101, 112]
  const TAIL: seq<bv8> := [101, 116, 105, 116, 105, 111, 110]
  const KNOWN: seq<bv8> := FIRST + SECOND + TAIL

  lemma KnownEmpty()
    ensures Finalize(0x165667B1, []) == 0x02CC_5D05
  {
  }

  lemma KnownStart()
    ensures |KNOWN| == 39 && KNOWN[32..] == TAIL
    ensures H16Bytes3(KNOWN, 0) == 0x8C86_B52D
  {
    hide Absorb, Merge, Seeded, FIRST, SECOND, TAIL;
    Lengths();
    var second := KNOWN[16..];
    assert KNOWN[..16] == FIRST && second == SECOND + TAIL && second[..16] == SECOND && second[16..] == TAIL;
    var v1 := Lanes(0x046A_700A, 0xBFAD_F8E3, 0x5B32_B4AA, 0x137E_5555);
    var v2 := Lanes(0x719A_836E, 0x514C_1DE8, 0x97FA_4BA2, 0x242A_97A2);
    SameStripe(Seeded(0), KNOWN, FIRST);
    SameStripe(v1, second, SECOND);
    KnownStripes();
    assert H16Bytes4(TAIL, v2) == Merge(v2);
    assert H16Bytes4(second, v1) == Merge(v2);
  }

  lemma Lengths()
    ensures |FIRST| == 16 && |SECOND| == 16 && |TAIL| == 7
  {
  }

  lemma KnownStripes()
    ensures Absorb(Seeded(0), FIRST) == Lanes(0x046A_700A, 0xBFAD_F8E3, 0x5B32_B4AA, 0x137E_5555)
    ensures Absorb(Lanes(0x046A_700A, 0xBFAD_F8E3, 0x5B32_B4AA, 0x137E_5555), SECOND) ==
      Lanes(0x719A_836E, 0x514C_1DE8, 0x97FA_4BA2, 0x242A_97A2)
    ensures Merge(Lanes(0x719A_836E, 0x514C_1DE8, 0x97FA_4BA2, 0x242A_97A2)) == 0x8C86_B52D
  {
    hide RoundXxHash, Endian32;
    Lengths();
    FirstWords();
    SecondWords();
    FirstRounds();
    SecondRounds();
  }

  lemma FirstWords()
    ensures |FIRST| == 16
    ensures Endian32(FIRST, 0) == 0x6F62_6F4E && Endian32(FIRST, 4) == 0x6920_7964
    ensures Endian32(FIRST, 8) == 0x6570_736E && Endian32(FIRST, 12) == 0x2073_7463
  {
  }

  lemma SecondWords()
    ensures |SECOND| == 16
    ensures Endian32(SECOND, 0) == 0x2065_6874 && Endian32(SECOND, 4) == 0x6D61_7073
    ensures Endian32(SECOND, 8) == 0x6873_696D && Endian32(SECOND, 12) == 0x7065_7220
  {
  }

  lemma FirstRounds()
    ensures RoundXxHash(0x2423_4428, 0x6F62_6F4E) == 0x046A_700A
    ensures RoundXxHash(0x85EB_CA77, 0x6920_7964) == 0xBFAD_F8E3
    ensures RoundXxHash(0, 0x6570_736E) == 0x5B32_B4AA
    ensures RoundXxHash(0x61C8_864F, 0x2073_7463) == 0x137E_5555
  {
  }

  lemma SecondRounds()
    ensures RoundXxHash(0x046A_700A, 0x2065_6874) == 0x719A_836E
    ensures RoundXxHash(0xBFAD_F8E3, 0x6D61_7073) == 0x514C_1DE8
    ensures RoundXxHash(0x5B32_B4AA, 0x6873_696D) == 0x97FA_4BA2
    ensures RoundXxHash(0x137E_5555, 0x7065_7220) == 0x242A_97A2
  {
  }

  lemma KnownTail()
    ensures Finalize(0x8C86_B554, TAIL) == 0xE229_3B2F
  {
    hide MixWord, MixByte, Avalanche;
    KnownMixes();
    assert TAIL[4..] == [105, 111, 110];
    KnownBytes();
  }

  lemma KnownBytes()
    ensures Finalize(0x09B5_1544, [105, 111, 110]) == 0xE229_3B2F
  {
    hide MixWord, MixByte, Avalanche;
    KnownMixes();
    var a, b, c: seq<bv8> := [105, 111, 110], [111, 110], [110];
    assert a[1..] == b && b[1..] == c && c[1..] == [];
    assert Finalize(0xB3A7_011B, []) == 0xE229_3B2F;
    assert Finalize(0x3852_087B, c) == 0xE229_3B2F;
    assert Finalize(0xCDEF_D3C9, b) == 0xE229_3B2F;
  }

  lemma KnownMixes()
    ensures MixWord(0x8C86_B554, 0x7469_7465) == 0x09B5_1544 && Endian32(TAIL, 0) == 0x7469_7465
    ensures MixByte(0x09B5_1544, 105) == 0xCDEF_D3C9 && MixByte(0xCDEF_D3C9, 111) == 0x3852_087B
    ensures MixByte(0x3852_087B, 110) == 0xB3A7_011B && Avalanche(0xB3A7_011B) == 0xE229_3B2F
  {
  }

  // ----- every step can be undone

  // Multiplication by the inverses of the primes modulo 2^32, and the inverse shifts.
  function Over1(x: bv32): bv32 { x * 0x0E8B2F51 }
  function Over2(x: bv32): bv32 { x * 0xB6C92F47 }
  function Over3(x: bv32): bv32 { x * 0xA89ED915 }
  function Over4(x: bv32): bv32 { x * 0xA0FE3BCF }
  function Over5(x: bv32): bv32 { x * 0xAE398151 }
  function Unshift15(x: bv32): bv32 { x ^ (x >> 15) ^ (x >> 30) }
  function Unshift13(x: bv32): bv32 { x ^ (x >> 13) ^ (x >> 26) }
  function Unshift16(x: bv32): bv32 { x ^ (x >> 16) }

  // Each identity is first stated on the bare operators, then for one function applied to
  // an operator term: no step asks the solver to multiply two unknown words.

  lemma Prime1(x: bv32)
    ensures x * 0x9E3779B1 * 0x0E8B2F51 == x
  {
  }

  lemma OverProduct1(x: bv32, y: bv32)
    requires y == x * 0x9E3779B1
    ensures Over1(y) == x
  {
    Prime1(x);
  }

  lemma Prime2(x: bv32)
    ensures x * 0x85EBCA77 * 0xB6C92F47 == x
  {
  }

  lemma OverProduct2(x: bv32, y: bv32)
    requires y == x * 0x85EBCA77
    ensures Over2(y) == x
  {
    Prime2(x);
  }

  lemma Prime3(x: bv32)
    ensures x * 0xC2B2AE3D * 0xA89ED915 == x
  {
  }

  lemma OverProduct3(x: bv32, y: bv32)
    requires y == x * 0xC2B2AE3D
    ensures Over3(y) == x
  {
    Prime3(x);
  }

  lemma Prime4(x: bv32)
    ensures x * 0x27D4EB2F * 0xA0FE3BCF == x
  {
  }

  lemma OverProduct4(x: bv32, y: bv32)
    requires y == x * 0x27D4EB2F
    ensures Over4(y) == x
  {
    Prime4(x);
  }

  lemma Prime5(x: bv32)
    ensures x * 0x165667B1 * 0xAE398151 == x
  {
  }

  lemma OverProduct5(x: bv32, y: bv32)
    requires y == x * 0x165667B1
    ensures Over5(y) == x
  {
    Prime5(x);
  }

  lemma OverTimes(x: bv32)
    ensures Over1(Times1(x)) == x && Over2(Times2(x)) == x && Over3(Times3(x)) == x
    ensures Over4(Times4(x)) == x && Over5(Times5(x)) == x
  {
    hide Over1, Over2, Over3, Over4, Over5;
    OverProduct1(x, Times1(x));
    OverProduct2(x, Times2(x));
    OverProduct3(x, Times3(x));
    OverProduct4(x, Times4(x));
    OverProduct5(x, Times5(x));
  }

  lemma Xor15(x: bv32)
    ensures (x ^ (x >> 15)) ^ ((x ^ (x >> 15)) >> 15) ^ ((x ^ (x >> 15)) >> 30) == x
  {
  }

  lemma UnshiftXor15(x: bv32, y: bv32)
    requires y == x ^ (x >> 15)
    ensures Unshift15(y) == x
  {
    Xor15(x);
  }

  lemma Xor13(x: bv32)
    ensures (x ^ (x >> 13)) ^ ((x ^ (x >> 13)) >> 13) ^ ((x ^ (x >> 13)) >> 26) == x
  {
  }

  lemma UnshiftXor13(x: bv32, y: bv32)
    requires y == x ^ (x >> 13)
    ensures Unshift13(y) == x
  {
    Xor13(x);
  }

  lemma Xor16(x: bv32)
    ensures (x ^ (x >> 16)) ^ ((x ^ (x >> 16)) >> 16) == x
  {
  }

  lemma UnshiftXor16(x: bv32, y: bv32)
    requires y == x ^ (x >> 16)
    ensures Unshift16(y) == x
  {
    Xor16(x);
  }

  lemma UnshiftShift(x: bv32)
    ensures Unshift15(Shift15(x)) == x && Unshift13(Shift13(x)) == x && Unshift16(Shift16(x)) == x
  {
    hide Unshift15, Unshift13, Unshift16;
    UnshiftXor15(x, Shift15(x));
    UnshiftXor13(x, Shift13(x));
    UnshiftXor16(x, Shift16(x));
  }

  lemma Rotate1(x: bv32)
    ensures Rotl(Rotl(x, 1), 31) == x
  {
  }

  lemma Rotate7(x: bv32)
    ensures Rotl(Rotl(x, 7), 25) == x
  {
  }

  lemma Rotate11(x: bv32)
    ensures Rotl(Rotl(x, 11), 21) == x
  {
  }

  lemma Rotate12(x: bv32)
    ensures Rotl(Rotl(x, 12), 20) == x
  {
  }

  lemma Rotate13(x: bv32)
    ensures Rotl(Rotl(x, 13), 19) == x
  {
  }

  lemma Rotate17(x: bv32)
    ensures Rotl(Rotl(x, 17), 15) == x
  {
  }

  lemma Rotate18(x: bv32)
    ensures Rotl(Rotl(x, 18), 14) == x
  {
  }

  lemma MinusPlus(x: bv32, w: bv32)
    ensures Minus(Plus(x, w), w) == x && Minus(Plus(w, x), w) == x
  {
  }

  function Unavalanche(y: bv32): bv32 {
    Unshift15(Over2(Unshift13(Over3(Unshift16(y)))))
  }

  lemma AvalancheInverts(x: bv32)
    ensures Unavalanche(Avalanche(x)) == x
  {
    hide Shift15, Shift13, Shift16, Unshift15, Unshift13, Unshift16;
    hide Times1, Times2, Times3, Times4, Times5, Over1, Over2, Over3, Over4, Over5;
    var a := Shift15(x);
    var b := Shift13(Times2(a));
    UnshiftShift(x); OverTimes(a); UnshiftShift(Times2(a)); OverTimes(b); UnshiftShift(Times3(b));
  }

  function UnmixWord(y: bv32, w: bv32): bv32 {
    Minus(Rotl(Over4(y), 15), Times3(w))
  }

  function UnmixByte(y: bv32, b: bv8): bv32 {
    Minus(Rotl(Over1(y), 21), Times5(b as bv32))
  }

  lemma MixWordInverts(x: bv32, w: bv32)
    ensures UnmixWord(MixWord(x, w), w) == x
  {
    hide Plus, Minus, Rotl, Times1, Times2, Times3, Times4, Times5, Over1, Over2, Over3, Over4, Over5;
    var k := Times3(w);
    MinusPlus(x, k); Rotate17(Plus(x, k)); OverTimes(Rotl(Plus(x, k), 17));
  }

  lemma MixByteInverts(x: bv32, b: bv8)
    ensures UnmixByte(MixByte(x, b), b) == x
  {
    hide Plus, Minus, Rotl, Times1, Times2, Times3, Times4, Times5, Over1, Over2, Over3, Over4, Over5;
    var k := Times5(b as bv32);
    MinusPlus(x, k); Rotate11(Plus(x, k)); OverTimes(Rotl(Plus(x, k), 11));
  }

  /** Finalize run backwards over the same tail. */
  function Unfinalize(y: bv32, p: seq<bv8>): bv32
    decreases |p|
  {
    if |p| >= 4 then UnmixWord(Unfinalize(y, p[4..]), Endian32(p, 0))
    else if |p| > 0 then UnmixByte(Unfinalize(y, p[1..]), p[0])
    else Unavalanche(y)
  }

  /** For every tail, Finalize can be undone: it is injective, so it permutes the words. */
  lemma {:induction false} FinalizeInverts(x: bv32, p: seq<bv8>)
    ensures Unfinalize(Finalize(x, p), p) == x
    decreases |p|
  {
    hide MixWord, MixByte, UnmixWord, UnmixByte, Avalanche, Unavalanche, Endian32;
    if |p| >= 4 {
      var w := Endian32(p, 0);
      FinalizeInverts(MixWord(x, w), p[4..]);
      MixWordInverts(x, w);
    } else if |p| > 0 {
      FinalizeInverts(MixByte(x, p[0]), p[1..]);
      MixByteInverts(x, p[0]);
    } else {
      AvalancheInverts(x);
    }
  }

  lemma FinalizeInjective(x: bv32, x': bv32, p: seq<bv8>)
    requires x != x'
    ensures Finalize(x, p) != Finalize(x', p)
  {
    hide Finalize, Unfinalize;
    FinalizeInverts(x, p);
    FinalizeInverts(x', p);
  }

  /** Different seeds give different hashes of an input shorter than one stripe. */
  lemma SeedsTellApart(input: seq<bv8>, seed: bv32, seed': bv32)
    requires |input| < 16 && seed != seed'
    ensures XxHash32(input, seed) != XxHash32(input, seed')
  {
    hide Finalize, StripesEnd, Plus;
    PlusInjective(seed, seed', PRIME5);
    PlusInjective(Plus(seed, PRIME5), Plus(seed', PRIME5), |input| as bv32);
    FinalizeInjective(Start(input, seed), Start(input, seed'), input[StripesEnd(|input|)..]);
  }

  // ----- every byte counts

  ghost predicate DifferAt(p: seq<bv8>, q: seq<bv8>, k: nat) {
    |p| == |q| && k < |p| && p[k] != q[k]
    && forall i :: 0 <= i < |p| && i != k ==> p[i] == q[i]
  }

  lemma DifferInTail(p: seq<bv8>, q: seq<bv8>, k: nat, n: nat)
    requires DifferAt(p, q, k) && n <= |p|
    ensures k >= n ==> p[..n] == q[..n] && DifferAt(p[n..], q[n..], k - n)
    ensures k < n ==> p[n..] == q[n..]
  {
  }

  lemma WordInjective(b0: bv8, b1: bv8, b2: bv8, b3: bv8, c0: bv8, c1: bv8, c2: bv8, c3: bv8)
    requires Word(b0, b1, b2, b3) == Word(c0, c1, c2, c3)
    ensures b0 == c0 && b1 == c1 && b2 == c2 && b3 == c3
  {
  }

  lemma Endian32Differs(p: seq<bv8>, q: seq<bv8>, k: nat, i: nat)
    requires DifferAt(p, q, k) && i + 4 <= |p|
    ensures Endian32(p, i) != Endian32(q, i) <==> i <= k < i + 4
  {
    hide Word;
    if Endian32(p, i) == Endian32(q, i) {
      WordInjective(p[i], p[i + 1], p[i + 2], p[i + 3], q[i], q[i + 1], q[i + 2], q[i + 3]);
    }
  }

  /** A step also determines its input, given the word it starts from. */
  lemma MixWordReads(h: bv32, w: bv32)
    ensures Over3(Minus(Rotl(Over4(MixWord(h, w)), 15), h)) == w
  {
    hide Plus, Minus, Rotl, Times1, Times2, Times3, Times4, Times5, Over1, Over2, Over3, Over4, Over5;
    var k := Times3(w);
    MinusPlus(k, h); Rotate17(Plus(h, k)); OverTimes(Rotl(Plus(h, k), 17)); OverTimes(w);
  }

  lemma MixByteReads(h: bv32, b: bv8)
    ensures Over5(Minus(Rotl(Over1(MixByte(h, b)), 21), h)) == b as bv32
  {
    hide Plus, Minus, Rotl, Times1, Times2, Times3, Times4, Times5, Over1, Over2, Over3, Over4, Over5;
    var k := Times5(b as bv32);
    MinusPlus(k, h); Rotate11(Plus(h, k)); OverTimes(Rotl(Plus(h, k), 11)); OverTimes(b as bv32);
  }

  lemma RoundReads(acc: bv32, w: bv32)
    ensures Minus(Rotl(Over1(RoundXxHash(acc, w)), 19), Times2(w)) == acc
    ensures Over2(Minus(Rotl(Over1(RoundXxHash(acc, w)), 19), acc)) == w
  {
    hide Plus, Minus, Rotl, Times1, Times2, Times3, Times4, Times5, Over1, Over2, Over3, Over4, Over5;
    var k := Times2(w);
    MinusPlus(k, acc); Rotate13(Plus(acc, k)); OverTimes(Rotl(Plus(acc, k), 13)); OverTimes(w);
    MinusPlus(acc, k);
  }

  lemma WidenInjective(a: bv8, b: bv8)
    requires a != b
    ensures a as bv32 != b as bv32
  {
  }

  /** Changing one byte of the tail changes the hash. */
  lemma {:induction false} TailByteCounts(h: bv32, p: seq<bv8>, q: seq<bv8>, k: nat)
    requires DifferAt(p, q, k)
    ensures Finalize(h, p) != Finalize(h, q)
    decreases |p|
  {
    hide MixWord, MixByte, Avalanche, Endian32, Rotl, Minus;
    hide Times1, Times2, Times3, Times4, Times5, Over1, Over2, Over3, Over4, Over5;
    if |p| >= 4 {
      var w, w' := Endian32(p, 0), Endian32(q, 0);
      Endian32Differs(p, q, k, 0);
      DifferInTail(p, q, k, 4);
      if k < 4 {
        MixWordReads(h, w);
        MixWordReads(h, w');
        FinalizeInjective(MixWord(h, w), MixWord(h, w'), p[4..]);
      } else {
        TailByteCounts(MixWord(h, w), p[4..], q[4..], k - 4);
      }
    } else {
      DifferInTail(p, q, k, 1);
      if k < 1 {
        MixByteReads(h, p[0]);
        MixByteReads(h, q[0]);
        WidenInjective(p[0], q[0]);
        FinalizeInjective(MixByte(h, p[0]), MixByte(h, q[0]), p[1..]);
      } else {
        TailByteCounts(MixByte(h, p[0]), p[1..], q[1..], k - 1);
      }
    }
  }

  /** Exactly one of the four accumulators differs. */
  ghost predicate OneLane(v: Lanes, w: Lanes) {
    v != w && (v == w.(v1 := v.v1) || v == w.(v2 := v.v2) || v == w.(v3 := v.v3) || v == w.(v4 := v.v4))
  }

  lemma RoundInjective(acc: bv32, acc': bv32, w: bv32, w': bv32)
    ensures acc != acc' ==> RoundXxHash(acc, w) != RoundXxHash(acc', w)
    ensures w != w' ==> RoundXxHash(acc, w) != RoundXxHash(acc, w')
  {
    hide RoundXxHash, Rotl, Minus, Times1, Times2, Times3, Times4, Times5, Over1, Over2, Over3, Over4, Over5;
    RoundReads(acc, w);
    RoundReads(acc', w);
    RoundReads(acc, w');
  }

  lemma AbsorbKeepsOneLane(v: Lanes, w: Lanes, p: seq<bv8>)
    requires OneLane(v, w) && |p| >= 16
    ensures OneLane(Absorb(v, p), Absorb(w, p))
  {
    hide RoundXxHash, Endian32;
    var a, b, c, d := Endian32(p, 0), Endian32(p, 4), Endian32(p, 8), Endian32(p, 12);
    RoundInjective(v.v1, w.v1, a, a);
    RoundInjective(v.v2, w.v2, b, b);
    RoundInjective(v.v3, w.v3, c, c);
    RoundInjective(v.v4, w.v4, d, d);
  }

  lemma AbsorbMakesOneLane(v: Lanes, p: seq<bv8>, q: seq<bv8>, k: nat)
    requires DifferAt(p, q, k) && k < 16 <= |p|
    ensures OneLane(Absorb(v, p), Absorb(v, q))
  {
    hide RoundXxHash, Endian32;
    Endian32Differs(p, q, k, 0);
    Endian32Differs(p, q, k, 4);
    Endian32Differs(p, q, k, 8);
    Endian32Differs(p, q, k, 12);
    RoundInjective(v.v1, v.v1, Endian32(p, 0), Endian32(q, 0));
    RoundInjective(v.v2, v.v2, Endian32(p, 4), Endian32(q, 4));
    RoundInjective(v.v3, v.v3, Endian32(p, 8), Endian32(q, 8));
    RoundInjective(v.v4, v.v4, Endian32(p, 12), Endian32(q, 12));
  }

  lemma PlusInjective(a: bv32, a': bv32, b: bv32)
    requires a != a'
    ensures Plus(a, b) != Plus(a', b) && Plus(b, a) != Plus(b, a')
  {
    hide Plus, Minus;
    MinusPlus(a, b);
    MinusPlus(a', b);
  }

  lemma SumTellsApart(x: bv32, x': bv32, rest: bv32, y: bv32, z: bv32)
    requires x != x'
    ensures Plus(Plus(Plus(rest, x), y), z) != Plus(Plus(Plus(rest, x'), y), z)
    ensures Plus(Plus(Plus(x, rest), y), z) != Plus(Plus(Plus(x', rest), y), z)
    ensures Plus(Plus(rest, x), y) != Plus(Plus(rest, x'), y)
    ensures Plus(rest, x) != Plus(rest, x')
  {
    hide Plus;
    PlusInjective(x, x', rest);
    PlusInjective(Plus(rest, x), Plus(rest, x'), y);
    PlusInjective(Plus(Plus(rest, x), y), Plus(Plus(rest, x'), y), z);
    PlusInjective(Plus(x, rest), Plus(x', rest), y);
    PlusInjective(Plus(Plus(x, rest), y), Plus(Plus(x', rest), y), z);
  }

  lemma MergeReads1(v: Lanes, x: bv32)
    requires x != v.v1
    ensures Merge(v.(v1 := x)) != Merge(v)
  {
    hide Rotl, Plus;
    Rotate1(v.v1);
    Rotate1(x);
    SumTellsApart(Rotl(v.v1, 1), Rotl(x, 1), Rotl(v.v2, 7), Rotl(v.v3, 12), Rotl(v.v4, 18));
  }

  lemma MergeReads2(v: Lanes, x: bv32)
    requires x != v.v2
    ensures Merge(v.(v2 := x)) != Merge(v)
  {
    hide Rotl, Plus;
    Rotate7(v.v2);
    Rotate7(x);
    SumTellsApart(Rotl(v.v2, 7), Rotl(x, 7), Rotl(v.v1, 1), Rotl(v.v3, 12), Rotl(v.v4, 18));
  }

  lemma MergeReads3(v: Lanes, x: bv32)
    requires x != v.v3
    ensures Merge(v.(v3 := x)) != Merge(v)
  {
    hide Rotl, Plus;
    Rotate12(v.v3);
    Rotate12(x);
    var d := Rotl(v.v4, 18);
    SumTellsApart(Rotl(v.v3, 12), Rotl(x, 12), Plus(Rotl(v.v1, 1), Rotl(v.v2, 7)), d, d);
  }

  lemma MergeReads4(v: Lanes, x: bv32)
    requires x != v.v4
    ensures Merge(v.(v4 := x)) != Merge(v)
  {
    hide Rotl, Plus;
    Rotate18(v.v4);
    Rotate18(x);
    var d := Rotl(v.v4, 18);
    SumTellsApart(d, Rotl(x, 18), Plus(Plus(Rotl(v.v1, 1), Rotl(v.v2, 7)), Rotl(v.v3, 12)), d, d);
  }

  lemma MergeTellsLanesApart(v: Lanes, w: Lanes)
    requires OneLane(v, w)
    ensures Merge(v) != Merge(w)
  {
    hide Merge;
    if v.v1 != w.v1 {
      MergeReads1(v, w.v1);
      assert w == v.(v1 := w.v1);
    } else if v.v2 != w.v2 {
      MergeReads2(v, w.v2);
      assert w == v.(v2 := w.v2);
    } else if v.v3 != w.v3 {
      MergeReads3(v, w.v3);
      assert w == v.(v3 := w.v3);
    } else {
      MergeReads4(v, w.v4);
      assert w == v.(v4 := w.v4);
    }
  }

  lemma {:induction false} LaneDifferenceSurvives(p: seq<bv8>, v: Lanes, w: Lanes)
    requires OneLane(v, w)
    ensures H16Bytes4(p, v) != H16Bytes4(p, w)
    decreases |p|
  {
    hide Absorb, OneLane, Merge;
    if |p| >= 16 {
      AbsorbKeepsOneLane(v, w, p);
      LaneDifferenceSurvives(p[16..], Absorb(v, p), Absorb(w, p));
    } else {
      MergeTellsLanesApart(v, w);
    }
  }

  /** The stripe loop reads exactly the whole stripes: a byte change matters to it if and
      only if it lies before StripesEnd. */
  lemma {:induction false} StripeByteCounts(p: seq<bv8>, q: seq<bv8>, v: Lanes, k: nat)
    requires DifferAt(p, q, k)
    ensures H16Bytes4(p, v) != H16Bytes4(q, v) <==> k < StripesEnd(|p|)
    decreases |p|
  {
    hide Absorb, OneLane, Merge;
    if |p| >= 16 {
      DifferInTail(p, q, k, 16);
      if k < 16 {
        AbsorbMakesOneLane(v, p, q, k);
        LaneDifferenceSurvives(p[16..], Absorb(v, p), Absorb(v, q));
      } else {
        assert Absorb(v, p) == Absorb(v, q) by { SameStripe(v, p, q); }
        StripeByteCounts(p[16..], q[16..], Absorb(v, p), k - 16);
      }
    }
  }

  lemma SameStripe(v: Lanes, p: seq<bv8>, q: seq<bv8>)
    requires |p| >= 16 && |q| >= 16 && p[..16] == q[..16]
    ensures Absorb(v, p) == Absorb(v, q)
  {
    hide RoundXxHash, Word;
    assert forall i :: 0 <= i < 16 ==> p[i] == p[..16][i] && q[i] == q[..16][i];
  }

  /** Every byte of every input is hashed, and hashed injectively: changing any single byte
      always changes the hash. */
  lemma EveryByteCounts(p: seq<bv8>, q: seq<bv8>, seed: bv32, k: nat)
    requires |p| < 0x1_0000_0000 && DifferAt(p, q, k)
    ensures XxHash32(p, seed) != XxHash32(q, seed)
  {
    hide Finalize, Start, StripesEnd;
    var e := StripesEnd(|p|);
    DifferInTail(p, q, k, e);
    StartDiffers(p, q, seed, k);
    if k < e {
      FinalizeInjective(Start(p, seed), Start(q, seed), p[e..]);
    } else {
      TailByteCounts(Start(p, seed), p[e..], q[e..], k - e);
    }
  }

  lemma StartDiffers(p: seq<bv8>, q: seq<bv8>, seed: bv32, k: nat)
    requires |p| < 0x1_0000_0000 && DifferAt(p, q, k)
    ensures Start(p, seed) != Start(q, seed) <==> k < StripesEnd(|p|)
  {
    hide H16Bytes4, Plus, Seeded;
    if |p| >= 16 {
      StripeByteCounts(p, q, Seeded(seed), k);
      if k < StripesEnd(|p|) {
        PlusInjective(H16Bytes3(p, seed), H16Bytes3(q, seed), |p| as bv32);
      }
    }
  }
}
