// The checksum engine of module/helpers.c: the 32-bit end-around-carry loop that is
// compiled in, and the 64-bit add-with-carry version it can be swapped for.
//
// A C buffer is a sequence of bytes (`buff`, readable from index 0) together with the
// address of its first byte, whose low bits steer the alignment prologue of DoCsum.

module Checksum {
  import opened Machine
  import opened OnesComplement
  import opened DivMod

  // ----- folding

  function From32To16(x: u32): (r: u16)
    ensures r == Canon(x)
  {
    var once := x % TWO16 + x / TWO16;
    var r := once % TWO16 + once / TWO16;
    assert Same(x, once) && Same(once, r) by {
      SameFold16(x / TWO16, x % TWO16);
      SameFold16(once / TWO16, once % TWO16);
    }
    assert Canon(r) == r by { CanonOfWord(r); }
    r
  }

  // ----- the 32-bit version

  /** The bytes in the phase in which DoCsum adds them up: an odd start address puts the
      first byte in the high half of a word. */
  ghost function Phased(s: seq<byte>, odd: bool): seq<byte> {
    if odd then [0] + s else s
  }

  lemma PhaseStart(s: seq<byte>)
    requires s != []
    ensures WordSum(Phased(s, false)[..0]) == 0
    ensures WordSum(Phased(s, true)[..2]) == TWO8 * s[0]
  {
    assert ([0] + s)[..2] == [0, s[0]] && [0, s[0]][2..] == [];
  }

  method DoCsum(buff: seq<byte>, addr: nat, len: int) returns (result: u32)
    requires len <= |buff|
    ensures len <= 0 ==> result == 0
    ensures 0 < len ==> result == Canon(WordSum(buff[..len]))
  {
    hide Canon, WordSum, Swap16, BitSet;
    if len <= 0 {
      return 0;
    }
    ghost var s := buff[..len];
    PhaseStart(s);
    if BitSet(addr, 1) {
      ghost var g := Phased(s, true);
      var sum := SumHalfWords(buff, addr, 1, len - 1, TWO8 * buff[0], g, 1);
      assert g[..|g|] == g;
      result := From32To16(sum);
      SwapUndoesPhase(s);
      result := SwapHalves(result);
    } else {
      var sum := SumHalfWords(buff, addr, 0, len, 0, s, 0);
      assert s[..|s|] == s;
      result := From32To16(sum);
    }
  }

  /** `mask & x` for a one-bit mask, in two's complement for a negative x. */
  predicate BitSet(x: int, mask: nat)
    requires mask > 0
  {
    x / mask % 2 == 1
  }

  function SwapHalves(x: u16): (r: u16)
    ensures r == Swap16(x)
  {
    (x / TWO8) % TWO8 + TWO8 * (x % TWO8)
  }

  /** Everything after the odd first byte: an aligning 16-bit word, the loop over 32-bit
      words with a first fold, a trailing 16-bit word and a trailing byte. The ghost g is
      the phased buffer, of which the bytes before start, d more than in buff, are summed. */
  method SumHalfWords(buff: seq<byte>, addr: nat, start: nat, len: nat, acc: u16, ghost g: seq<byte>, ghost d: nat)
    returns (sum: u32)
    requires start == d <= 1 && start + len <= |buff| && start + len + d == |g|
    requires forall i :: start <= i < start + len ==> g[i + d] == buff[i]
    requires Same(acc, WordSum(g[..2 * d]))
    ensures Same(sum, WordSum(g[..|g|]))
  {
    hide Canon, WordSum, Load32, BitSet;
    var p, n := start, len;
    sum := acc;
    ghost var h := d;
    if n >= 2 && BitSet(addr + start, 2) {
      sum := AddHalfWord(sum, Load16(buff, p), g, h);
      n, p, h := n - 2, p + 2, h + 1;
    }
    if n >= 4 {
      sum, p := AddWords(buff, p, n / 4, sum, g, d, h);
      sum := FoldOnce(sum);
      h := h + 2 * (n / 4);
      n := n % 4;
    }
    sum := AddTail(buff, p, n, sum, g, d, h);
  }

  method FoldOnce(sum: u32) returns (r: u32)
    ensures r < 2 * TWO16 && Same(r, sum)
  {
    SameFold16(sum / TWO16, sum % TWO16);
    r := sum % TWO16 + sum / TWO16;
  }

  method AddTail(buff: seq<byte>, p: nat, len: nat, acc: u32, ghost g: seq<byte>, ghost d: nat, ghost h: nat)
    returns (sum: u32)
    requires len < 4 && acc < 2 * TWO16
    requires p + len <= |buff| && p + len + d == |g| && p + d == 2 * h
    requires forall i :: p <= i < p + len ==> g[i + d] == buff[i]
    requires Same(acc, WordSum(g[..2 * h]))
    ensures Same(sum, WordSum(g[..|g|]))
  {
    hide Canon, WordSum;
    sum := acc;
    if len == 2 || len == 3 {
      sum := AddHalfWord(sum, Load16(buff, p), g, h);
    }
    if len == 1 {
      sum := AddByte(sum, buff[p], g, h);
    } else if len == 3 {
      sum := AddByte(sum, buff[p + 2], g, h + 1);
    }
  }

  method AddHalfWord(sum: u32, w: u16, ghost g: seq<byte>, ghost h: nat) returns (r: u32)
    requires sum < TWO32 - TWO16
    requires 2 * h + 2 <= |g| && w == Load16(g, 2 * h)
    requires Same(sum, WordSum(g[..2 * h]))
    ensures r == sum + w && Same(r, WordSum(g[..2 * h + 2]))
  {
    hide Canon, WordSum, Load16;
    WordSumStep16(g, h);
    SameAdd(sum, WordSum(g[..2 * h]), w);
    r := sum + w;
  }

  method AddByte(sum: u32, b: byte, ghost g: seq<byte>, ghost h: nat) returns (r: u32)
    requires sum < TWO32 - TWO16
    requires 2 * h + 1 <= |g| && b == g[2 * h]
    requires Same(sum, WordSum(g[..2 * h]))
    ensures r == sum + b && Same(r, WordSum(g[..2 * h + 1]))
  {
    hide Canon, WordSum;
    WordSumStepByte(g, h);
    SameAdd(sum, WordSum(g[..2 * h]), b);
    r := sum + b;
  }

  /** One round of the loop, `result += carry; result += w; carry = (w > result)`. Nothing
      is lost: a set carry leaves room to be added back, and sum and carry together stand
      for the words added so far. */
  method AddWord(result: u32, carry: u32, w: u32, ghost g: seq<byte>, ghost h: nat)
    returns (sum: u32, c: u32)
    requires carry <= 1 && (carry == 1 ==> result <= TWO32 - 2)
    requires 2 * h + 4 <= |g| && w == Load32(g, 2 * h)
    requires Same(result + carry, WordSum(g[..2 * h]))
    ensures c <= 1 && (c == 1 ==> sum <= TWO32 - 2)
    ensures result + carry + w == sum + TWO32 * c
    ensures Same(sum + c, WordSum(g[..2 * h + 4]))
  {
    hide Canon, WordSum, Load32;
    sum := (result + carry) % TWO32;
    sum := (sum + w) % TWO32;
    c := if w > sum then 1 else 0;
    SameStep32(g, h, result + carry, 0);
    SameFold32(c, sum);
  }

  lemma LoadPhased(buff: seq<byte>, p: nat, g: seq<byte>, d: nat, n: nat)
    requires p + n <= |buff| && p + n + d <= |g| && n >= 4
    requires forall i :: p <= i < p + n ==> g[i + d] == buff[i]
    ensures Load32(buff, p) == Load32(g, p + d)
  {
  }

  /** The do-while loop of DoCsum over `words` 32-bit words. */
  method AddWords(buff: seq<byte>, start: nat, words: nat, acc: u32, ghost g: seq<byte>, ghost d: nat, ghost h: nat)
    returns (result: u32, p: nat)
    requires words > 0 && start + 4 * words <= |buff|
    requires start + 4 * words + d <= |g| && start + d == 2 * h
    requires forall i :: start <= i < start + 4 * words ==> g[i + d] == buff[i]
    requires Same(acc, WordSum(g[..2 * h]))
    ensures p == start + 4 * words
    ensures Same(result, WordSum(g[..2 * h + 4 * words]))
  {
    hide Canon, WordSum, Load32;
    var end := start + 4 * words;
    var carry: u32 := 0;
    result, p := acc, start;
    ghost var done := 0;
    while true
      invariant 0 <= done < words && p == start + 4 * done
      invariant carry <= 1 && (carry == 1 ==> result <= TWO32 - 2)
      invariant Same(result + carry, WordSum(g[..2 * (h + 2 * done)]))
      decreases words - done
    {
      LoadPhased(buff, p, g, d, end - p);
      result, carry := AddWord(result, carry, Load32(buff, p), g, h + 2 * done);
      p := p + 4;
      done := done + 1;
      if p >= end {
        break;
      }
    }
    result := result + carry;
  }

  /** 32-bit addition with the carry added back. */
  ghost function EndAround32(a: u32, b: u32): u32 {
    if a + b < TWO32 then a + b else a + b - TWO32 + 1
  }

  lemma SameEndAround(a: u32, b: u32)
    ensures Same(EndAround32(a, b), a + b)
  {
    if a + b >= TWO32 {
      SameFold32(1, a + b - TWO32);
    }
  }

  method CsumPartial(buff: seq<byte>, addr: nat, len: int, wsum: u32) returns (result: u32)
    requires len <= |buff|
    ensures result == if len <= 0 then wsum else EndAround32(Canon(WordSum(buff[..len])), wsum)
    ensures 0 < len ==> Same(result, wsum + WordSum(buff[..len]))
  {
    hide Canon, WordSum;
    var part := DoCsum(buff, addr, len);
    result := (part + wsum) % TWO32;
    if wsum > result {
      result := result + 1;
    }
    if 0 < len {
      CanonIdempotent(WordSum(buff[..len]));
      SameAdd(part, WordSum(buff[..len]), wsum);
      SameEndAround(part, wsum);
    }
  }

  // ----- the 64-bit version

  /** The machine state of an add-with-carry chain: a 64-bit register and the carry flag. */
  datatype Acc = Acc(word: u64, carry: bool) {
    /** The number the register and the flag stand for together. */
    ghost function Value(): nat {
      word + if carry then 1 else 0
    }
  }

  /** addq and adcq: the carry in, and the carry out of bit 63. */
  function Adc(a: Acc, m: u64): Acc {
    var t := a.word + m + if a.carry then 1 else 0;
    Acc(t % TWO64, t >= TWO64)
  }

  /** A chain started by addq never loses a carry: whenever the flag is set the register is
      at most 2^64 - 2, so a further adcq, the closing `adcq $0` included, folds it in. */
  lemma AdcKeepsRoom(a: Acc, m: u64)
    requires a.Value() < TWO64
    ensures Adc(a, m).Value() < TWO64
    ensures Adc(a, m).carry ==> Adc(a, m).word <= TWO64 - 2
    ensures Same(Adc(a, m).Value(), a.Value() + m)
  {
    var r := Adc(a, m);
    if r.carry {
      SameFold(1, r.word, 0x1_0001_0001_0001);
    }
  }

  lemma AdcZero(a: Acc)
    requires a.Value() < TWO64
    ensures Adc(a, 0) == Acc(a.Value(), false)
  {
  }

  lemma LoadOfSlice(m: seq<byte>, at: nat, n: nat, i: nat)
    requires at + n <= |m| && i + 8 <= n
    ensures Load64(m[at..at + n], i) == Load64(m, at + i)
  {
  }

  lemma AdcStep(a: Acc, s: seq<byte>, h: nat, seed: nat)
    requires a.Value() < TWO64
    requires 2 * h + 8 <= |s|
    requires Same(a.Value(), seed + WordSum(s[..2 * h]))
    ensures Adc(a, Load64(s, 2 * h)).Value() < TWO64
    ensures Same(Adc(a, Load64(s, 2 * h)).Value(), seed + WordSum(s[..2 * h + 8]))
  {
    hide Canon, WordSum, Load64, Adc;
    AdcKeepsRoom(a, Load64(s, 2 * h));
    SameStep64(s, h, a.Value(), seed);
  }

  /** One link of a chain started with the value seed at byte `at` of m. */
  lemma ChainStep(a: Acc, m: seq<byte>, at: nat, i: nat, seed: nat)
    requires at + 8 * i + 8 <= |m|
    requires a.Value() < TWO64
    requires Same(a.Value(), seed + WordSum(m[at..at + 8 * i]))
    ensures Adc(a, Load64(m, at + 8 * i)).Value() < TWO64
    ensures Same(Adc(a, Load64(m, at + 8 * i)).Value(), seed + WordSum(m[at..at + 8 * i + 8]))
  {
    hide Canon, WordSum, Adc, Load64;
    var n, q := 8 * i + 8, 8 * i;
    var s := m[at..at + n];
    assert s[..q] == m[at..at + q] && s[..q + 8] == s;
    LoadOfSlice(m, at, n, q);
    AdcStep(a, s, 4 * i, seed);
  }

  /** `addq m[0]; adcq m[1]; ...; adcq $0` over consecutive 64-bit words. */
  method AddChain(acc: u64, m: seq<byte>, at: nat, words: nat) returns (result: u64)
    requires at + 8 * words <= |m|
    ensures Same(result, acc + WordSum(m[at..at + 8 * words]))
  {
    hide Canon, WordSum, Load64, Adc;
    var a := Acc(acc, false);
    EmptySum(m[at..at]);
    for i := 0 to words
      invariant a.Value() < TWO64
      invariant Same(a.Value(), acc + WordSum(m[at..at + 8 * i]))
    {
      ChainStep(a, m, at, i, acc);
      a := Adc(a, Load64(m, at + 8 * i));
    }
    AdcZero(a);
    result := Adc(a, 0).word;
  }

  method UpdateCsum40b(sum: u64, m: seq<byte>, at: nat) returns (result: u64)
    requires at + 40 <= |m|
    ensures Same(result, sum + WordSum(m[at..at + 40]))
  {
    result := AddChain(sum, m, at, 5);
  }

  function Ror64By32(w: u64): u64 {
    w / TWO32 + TWO32 * (w % TWO32)
  }

  /** Adding a word to its own rotation leaves the end-around sum of its halves on top. */
  lemma TopHalf(temp64: u64)
    ensures var h, l := temp64 / TWO32, temp64 % TWO32;
      (temp64 + Ror64By32(temp64)) % TWO64 / TWO32 == if h + l < TWO32 then h + l else h + l - TWO32 + 1
  {
    var h, l := temp64 / TWO32, temp64 % TWO32;
    assert temp64 + Ror64By32(temp64) == (h + l) * TWO32 + (h + l);
    if h + l >= TWO32 {
      assert (temp64 + Ror64By32(temp64)) % TWO64 == (h + l - TWO32 + 1) * TWO32 + (h + l - TWO32);
    }
  }

  lemma SameHalves(h: u32, l: u32)
    ensures Same(if h + l < TWO32 then h + l else h + l - TWO32 + 1, h * TWO32 + l)
  {
    hide Canon;
    SameFold32(h, l);
    if h + l >= TWO32 {
      SameFold32(1, h + l - TWO32);
    }
  }

  function CsumFinalizeSum(temp64: u64): (r: u32)
    ensures Same(r, temp64)
  {
    TopHalf(temp64);
    SameHalves(temp64 / TWO32, temp64 % TWO32);
    (temp64 + Ror64By32(temp64)) % TWO64 / TWO32
  }

  /** SameExtend for one of two accumulators kept side by side. */
  lemma SameExtendBeside(acc: nat, other: nat, seed: nat, m: seq<byte>, h: nat, n: nat, next: nat)
    requires 2 * h + n <= |m|
    requires Same(acc + other, seed + WordSum(m[..2 * h]))
    requires Same(next, acc + WordSum(m[2 * h..2 * h + n]))
    ensures Same(next + other, seed + WordSum(m[..2 * h + n]))
  {
    hide WordSum, Canon;
    SameAdd(next, acc + WordSum(m[2 * h..2 * h + n]), other);
    SameExtend(acc + other, seed, m, h, n, next + other);
  }

  /** The bytes that whole 64-bit loads over n bytes touch. */
  function RoundUp8(n: nat): nat {
    (n + 7) / 8 * 8
  }

  lemma RoundUp8Shift(k: nat, n: nat)
    ensures RoundUp8(8 * k + n) == 8 * k + RoundUp8(n) && RoundUp8(n) >= n
  {
  }

  /** How many bytes the 64-bit csum_partial sums up. It tests the low six bits of a negative
      length too. */
  function Covered(len: int): nat {
    if len < 0 then len % 64 else len
  }

  /** The 64-bit csum_partial from the start of mem. The trailing word is loaded whole, so the
      bytes up to the next multiple of eight must be readable; what they hold does not matter. */
  method CsumPartial64(mem: seq<byte>, len: int, sum: u32) returns (result: u32)
    requires RoundUp8(Covered(len)) <= |mem|
    ensures Covered(len) <= |mem| && Same(result, sum + WordSum(mem[..Covered(len)]))
  {
    hide Canon, WordSum, RoundUp8;
    var buff, n := 0, len;
    var temp64: u64 := sum;
    EmptySum(mem[..0]);
    RoundUp8Shift(0, Covered(len));
    ghost var h := 0;
    if n >= 80 {
      temp64, buff := AddPairs(mem, n / 80, sum);
      RoundUp8Shift(10 * (n / 80), n % 80);
      h := 40 * (n / 80);
      n := n % 80;
    }
    result := Under80(mem, buff, n, temp64, sum, h);
  }

  method Under80(mem: seq<byte>, start: nat, len: int, acc: u64, ghost sum: u32, ghost h: nat) returns (result: u32)
    requires len < 80 && start == 2 * h && Covered(len) <= RoundUp8(Covered(len))
    requires start + RoundUp8(Covered(len)) <= |mem|
    requires Same(acc, sum + WordSum(mem[..start]))
    ensures Same(result, sum + WordSum(mem[..start + Covered(len)]))
  {
    hide Canon, WordSum, RoundUp8;
    if len >= 40 {
      var temp64 := UpdateCsum40b(acc, mem, start);
      SameExtend(acc, sum, mem, h, 40, temp64);
      if len == 40 {
        return CsumFinalizeSum(temp64);
      }
      RoundUp8Shift(5, len - 40);
      temp64 := AddBlocks(mem, start + 40, len - 40, temp64, sum, h + 20);
      return CsumFinalizeSum(temp64);
    }
    var temp64 := AddBlocks(mem, start, len, acc, sum, h);
    result := CsumFinalizeSum(temp64);
  }

  /** The loop over pairs of 40-byte chunks, with two accumulators joined at the end. */
  method AddPairs(mem: seq<byte>, pairs: nat, sum: u32) returns (temp64: u64, buff: nat)
    requires pairs > 0 && 80 * pairs <= |mem|
    ensures buff == 80 * pairs && Same(temp64, sum + WordSum(mem[..buff]))
  {
    hide Canon, WordSum;
    var temp64_2: u64 := 0;
    temp64, buff := sum, 0;
    EmptySum(mem[..0]);
    for i := 0 to pairs
      invariant buff == 80 * i
      invariant Same(temp64 + temp64_2, sum + WordSum(mem[..80 * i]))
    {
      var next := UpdateCsum40b(temp64, mem, buff);
      var next_2 := UpdateCsum40b(temp64_2, mem, buff + 40);
      PairStep(temp64, temp64_2, next, next_2, mem, i, sum);
      temp64, temp64_2, buff := next, next_2, buff + 80;
    }
    temp64 := AddEndAround(temp64, temp64_2);
  }

  lemma PairStep(acc: nat, acc2: nat, next: nat, next2: nat, mem: seq<byte>, i: nat, seed: nat)
    requires 80 * i + 80 <= |mem|
    requires Same(acc + acc2, seed + WordSum(mem[..80 * i]))
    requires Same(next, acc + WordSum(mem[80 * i..80 * i + 40]))
    requires Same(next2, acc2 + WordSum(mem[80 * i + 40..80 * i + 80]))
    ensures Same(next + next2, seed + WordSum(mem[..80 * i + 80]))
  {
    hide Canon, WordSum;
    SameExtendBeside(acc, acc2, seed, mem, 40 * i, 40, next);
    SameExtendBeside(acc2, next, seed, mem, 40 * i + 20, 40, next2);
  }

  /** `addq m; adcq $0`. */
  method AddEndAround(acc: u64, m: u64) returns (r: u64)
    ensures Same(r, acc + m)
  {
    var a := Adc(Acc(acc, false), m);
    AdcKeepsRoom(Acc(acc, false), m);
    AdcZero(a);
    r := Adc(a, 0).word;
  }

  /** The 32-, 16- and 8-byte blocks selected by the bits of the length, then the rest of
      the last word, its unwanted high bytes shifted out. */
  method AddBlocks(mem: seq<byte>, start: nat, len: int, acc: u64, ghost sum: u32, ghost h: nat) returns (temp64: u64)
    requires start == 2 * h && start + RoundUp8(len % 64) <= |mem|
    requires Same(acc, sum + WordSum(mem[..start]))
    ensures start + len % 64 <= |mem| && Same(temp64, sum + WordSum(mem[..start + len % 64]))
  {
    hide Canon, WordSum, BitSet, RoundUp8;
    BlocksCover(len);
    var buff;
    ghost var k := h;
    temp64, buff, k := AddBlock(mem, start, len, 32, acc, sum, k);
    temp64, buff, k := AddBlock(mem, buff, len, 16, temp64, sum, k);
    temp64, buff, k := AddBlock(mem, buff, len, 8, temp64, sum, k);
    if len % 8 != 0 {
      temp64 := AddTrail(mem, buff, len, temp64, sum, k);
    }
  }

  ghost function BlockSize(len: int, size: nat): nat
    requires size > 0
  {
    if BitSet(len, size) then size else 0
  }

  lemma LowBits(w: int)
    ensures w % 8 == 4 * (w / 4 % 2) + 2 * (w / 2 % 2) + w % 2
  {
    var v := w / 2;
    assert w == 2 * v + w % 2 && w / 4 == v / 2;
  }

  lemma LengthParts(len: int)
    ensures len % 64 == 8 * (len / 8 % 8) + len % 8
    ensures len / 32 == len / 8 / 4 && len / 16 == len / 8 / 2
  {
    LengthHalves(len);
    var w := len / 8;
    assert len == 8 * w + len % 8 && w == 8 * (w / 8) + w % 8;
  }

  lemma LengthHalves(len: int)
    ensures len / 32 == len / 8 / 4 && len / 16 == len / 8 / 2
  {
  }

  /** The blocks and the trailing bytes are the length modulo 64. */
  lemma BlocksCover(len: int)
    ensures len % 64 == BlockSize(len, 32) + BlockSize(len, 16) + BlockSize(len, 8) + len % 8
    ensures RoundUp8(len % 64) == len % 64 - len % 8 + (if len % 8 == 0 then 0 else 8)
  {
    LengthParts(len);
    LowBits(len / 8);
    RoundUpParts(len / 8 % 8, len % 8);
  }

  lemma RoundUpParts(w: nat, r: nat)
    requires r < 8
    ensures RoundUp8(8 * w + r) == 8 * w + (if r == 0 then 0 else 8)
  {
  }

  method AddBlock(mem: seq<byte>, start: nat, len: int, size: nat, acc: u64, ghost sum: u32, ghost h: nat)
    returns (temp64: u64, buff: nat, ghost k: nat)
    requires size in {8, 16, 32} && start == 2 * h && start + BlockSize(len, size) <= |mem|
    requires Same(acc, sum + WordSum(mem[..start]))
    ensures buff == start + BlockSize(len, size) == 2 * k
    ensures Same(temp64, sum + WordSum(mem[..buff]))
  {
    hide Canon, WordSum, BitSet;
    temp64, buff, k := acc, start, h;
    if BitSet(len, size) {
      temp64 := AddChain(temp64, mem, buff, size / 8);
      SameExtend(acc, sum, mem, h, size, temp64);
      buff, k := buff + size, h + size / 2;
    }
  }

  method AddTrail(mem: seq<byte>, buff: nat, len: int, acc: u64, ghost sum: u32, ghost h: nat) returns (temp64: u64)
    requires len % 8 != 0 && buff == 2 * h && buff + 8 <= |mem|
    requires Same(acc, sum + WordSum(mem[..buff]))
    ensures Same(temp64, sum + WordSum(mem[..buff + len % 8]))
  {
    hide Canon, WordSum, ShiftOut;
    TrailingBytes(mem, buff, len);
    var trail := ShiftOut(Load64(mem, buff), len);
    temp64 := AddEndAround(acc, trail);
    SameAdd(trail, WordSum(mem[buff..buff + len % 8]), acc);
    SameExtend(acc, sum, mem, h, len % 8, temp64);
  }

  /** `(w << shift) >> shift` for `shift = (-len << 3) & 63`, that is (-len) & 7 bytes. */
  function ShiftOut(w: u64, len: int): int {
    var shift := Pow256((-len) % 8);
    w * shift % TWO64 / shift
  }

  function Pow256(n: nat): (r: nat)
    ensures r > 0
  {
    if n == 0 then 1 else TWO8 * Pow256(n - 1)
  }

  lemma {:induction false} Pow256Add(a: nat, b: nat)
    ensures Pow256(a + b) == Pow256(a) * Pow256(b)
  {
    if a > 0 {
      Pow256Add(a - 1, b);
    }
  }

  /** A left shift that overflows, undone by a right shift, keeps the low part. */
  lemma ShiftBack(w: nat, a: nat, b: nat)
    requires a > 0 && b > 0
    ensures a * b > 0 && w * a % (a * b) / a == w % b
  {
    var q, r := w / b, w % b;
    assert w * a == (a * b) * q + r * a by { assert w == b * q + r; }
    assert 0 <= r * a < a * b;
    DivModUnique(w * a, a * b, q, r * a);
    DivModUnique(r * a, a, r, 0);
  }

  /** The number whose little-endian bytes are s. */
  ghost function LittleEndian(s: seq<byte>): nat {
    if s == [] then 0 else s[0] + TWO8 * LittleEndian(s[1..])
  }

  lemma {:induction false} LittleEndianSplit(a: seq<byte>, b: seq<byte>)
    ensures LittleEndian(a) < Pow256(|a|)
    ensures LittleEndian(a + b) == LittleEndian(a) + Pow256(|a|) * LittleEndian(b)
  {
    if a == [] {
      assert a + b == b;
    } else {
      LittleEndianSplit(a[1..], b);
      assert (a + b)[1..] == a[1..] + b;
      assert TWO8 * (Pow256(|a| - 1) * LittleEndian(b)) == Pow256(|a|) * LittleEndian(b);
    }
  }

  lemma {:induction false} LittleEndianZeros(n: nat)
    ensures LittleEndian(Zeros(n)) == 0
  {
    if n > 0 {
      LittleEndianZeros(n - 1);
      assert Zeros(n)[1..] == Zeros(n - 1);
    }
  }

  lemma LoadIsLittleEndian(s: seq<byte>)
    requires |s| == 8
    ensures Load64(s, 0) == LittleEndian(s)
  {
    LittleEndian2(s[6..]); LittleEndian2(s[4..]); LittleEndian2(s[2..]); LittleEndian2(s);
  }

  lemma LittleEndian2(s: seq<byte>)
    requires |s| >= 2
    ensures LittleEndian(s) == Load16(s, 0) + TWO16 * LittleEndian(s[2..])
  {
    assert s[1..][1..] == s[2..];
  }

  lemma {:induction false} ZeroSum(n: nat)
    ensures WordSum(Zeros(n)) == 0
  {
    if n >= 2 {
      ZeroSum(n - 2);
      assert Zeros(n)[2..] == Zeros(n - 2);
    }
  }

  lemma PadZeros(s: seq<byte>, n: nat)
    ensures WordSum(s + Zeros(n)) == WordSum(s)
  {
    var h := |s| / 2;
    var e, t := s[..2 * h], s[2 * h..];
    assert s == e + t && s + Zeros(n) == e + (t + Zeros(n));
    WordSumAppend(e, t, h);
    WordSumAppend(e, t + Zeros(n), h);
    if t == [] {
      assert t + Zeros(n) == Zeros(n);
      ZeroSum(n);
    } else if n > 0 {
      assert (t + Zeros(n))[2..] == Zeros(n - 1);
      ZeroSum(n - 1);
    }
  }

  lemma Pow256Of8()
    ensures Pow256(8) == TWO64
  {
    assert Pow256(2) == TWO16;
    Pow256Add(2, 2);
    Pow256Add(4, 4);
  }

  lemma ShiftOutBytes(w: u64, len: int)
    requires len % 8 != 0
    ensures ShiftOut(w, len) == w * Pow256(8 - len % 8) % TWO64 / Pow256(8 - len % 8)
  {
    hide Pow256;
    assert (-len) % 8 == 8 - len % 8;
  }

  /** Shifting the trailing word left and back right leaves the bytes of the buffer. */
  lemma TrailingBytes(mem: seq<byte>, at: nat, len: int)
    requires len % 8 != 0 && at + 8 <= |mem|
    ensures 0 <= ShiftOut(Load64(mem, at), len) < TWO64
    ensures Same(ShiftOut(Load64(mem, at), len), WordSum(mem[at..at + len % 8]))
  {
    hide Canon, WordSum, Pow256, LittleEndian, ShiftOut;
    var k := len % 8;
    ShiftOutBytes(Load64(mem, at), len);
    var w, s := mem[at..at + 8], mem[at..at + k];
    assert Load64(mem, at) == Load64(w, 0);
    Pow256Add(8 - k, k);
    Pow256Of8();
    ShiftBack(Load64(w, 0), Pow256(8 - k), Pow256(k));
    assert ShiftOut(Load64(mem, at), len) == LittleEndian(w) % Pow256(k) by {
      LoadIsLittleEndian(w);
    }
    var v := s + Zeros(8 - k);
    LowBytes(w, k);
    assert w[..k] == s;
    LoadIsLittleEndian(v);
    PadZeros(s, 8 - k);
    EmptySum(v[..0]);
    SameStep64(v, 0, 0, 0);
    assert v[..8] == v;
  }

  /** Clearing the high bytes of a word. */
  lemma LowBytes(w: seq<byte>, k: nat)
    requires k <= |w|
    ensures LittleEndian(w) % Pow256(k) == LittleEndian(w[..k] + Zeros(|w| - k))
  {
    hide LittleEndian, Pow256;
    assert w == w[..k] + w[k..];
    LittleEndianSplit(w[..k], w[k..]);
    LittleEndianSplit(w[..k], Zeros(|w| - k));
    LittleEndianZeros(|w| - k);
    DivModUnique(LittleEndian(w), Pow256(k), LittleEndian(w[k..]), LittleEndian(w[..k]));
  }

  /** Folded to 16 bits, the two versions of csum_partial return the same number for every
      buffer, alignment, seed and non-negative length. For a negative length the first returns
      its seed and the second sums up to 63 bytes, so they agree exactly when those bytes are
      all zero, or sum to a multiple of 0xffff while the seed is not zero. */
  method VersionsAgree(mem: seq<byte>, addr: nat, len: int, seed: u32) returns (slow: u16, fast: u16)
    requires RoundUp8(Covered(len)) <= |mem|
    ensures Covered(len) <= |mem|
    ensures slow == if len < 0 then Canon(seed) else Canon(seed + WordSum(mem[..len]))
    ensures fast == Canon(seed + WordSum(mem[..Covered(len)]))
    ensures slow == fast <==>
      (var w := WordSum(mem[..Covered(len)]); len >= 0 || w == 0 || (seed > 0 && w % 0xffff == 0))
  {
    hide RoundUp8, WordSum, Canon;
    RoundUp8Shift(0, Covered(len));
    AddsNothing(seed, WordSum(mem[..Covered(len)]));
    var s := CsumPartial(mem, addr, len, seed);
    var f := CsumPartial64(mem, len, seed);
    EmptySum(mem[..0]);
    slow, fast := From32To16(s), From32To16(f);
  }

  /** The versions disagree on length -56: the 64-bit one adds the first eight bytes. No caller
      in the repository passes a negative length (see CsumDiff.PadVersionsAgree). */
  method NegativeLength(addr: nat) returns (slow: u16, fast: u16)
    ensures slow == 0 && fast == 1
  {
    var mem: seq<byte> := [1, 0, 0, 0, 0, 0, 0, 0];
    ZeroMessage(mem[2..]);
    slow, fast := VersionsAgree(mem, addr, -56, 0);
    assert mem[..8] == mem;
  }
}
