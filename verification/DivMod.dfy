// Quotients and remainders by a variable divisor.

module DivMod {
  import opened Machine

  lemma DivModUnique(x: nat, d: nat, q: nat, r: nat)
    requires x == d * q + r && r < d
    ensures x / d == q && x % d == r
  {
    assert x == d * (x / d) + x % d;
    assert d * (x / d - q) == r - x % d;
    if x / d > q {
      MulAtLeast(d, x / d - q);
      assert false;
    } else if x / d < q {
      MulAtLeast(d, q - x / d);
      assert false;
    }
  }

  lemma MulAtLeast(d: nat, e: nat)
    requires e >= 1
    ensures d * e >= d
  {
  }

  /** Reducing a 32-bit sum at every step or once at the end. */
  lemma ModAdd(a: nat, b: nat)
    ensures (a % TWO32 + b) % TWO32 == (a + b) % TWO32
  {
  }

  /** Two indices less than `size` apart fall on different slots. */
  lemma SlotsDiffer(i: nat, j: nat, size: nat)
    requires i < j < i + size
    ensures i % size != j % size
  {
    var q, r, k := i / size, i % size, j - i;
    assert i == size * q + r;
    if r + k < size {
      DivModUnique(j, size, q, r + k);
    } else {
      assert size * (q + 1) == size * q + size;
      DivModUnique(j, size, q + 1, r + k - size);
    }
  }
}
