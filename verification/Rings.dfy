// The AF_XDP rings that xdpsock.c shares with the kernel, as its ring helpers use them.
//
// Every ring has an array of slots and four indices: the shared producer and consumer, and the
// user's cached copies. The fields count without bound, and the operations see them modulo 2^32
// as the source does: in `Slot`, which picks the slot of an index, and in `Gap`, which takes the
// distance of two. The ghost `log` is everything ever written, by index, and the invariant
// says that what is still to be read has not been overwritten.

module Rings {
  import opened DivMod
  import opened Machine

  /** The indices of the source are 32-bit and wrap. For a ring size that divides 2^32 this
      changes neither the slot of an index nor the distance of two indices. */
  lemma WrapAroundHarmless(i: nat, j: nat, size: nat, k: nat)
    requires size > 0 && size * k == TWO32 && j <= i < j + TWO32
    ensures i % TWO32 % size == i % size
    ensures (i % TWO32 - j % TWO32) % TWO32 == i - j
  {
    SlotAfterWrap(i / TWO32, i % TWO32, size, k);
  }

  lemma SlotAfterWrap(q: nat, w: nat, size: nat, k: nat)
    requires size > 0 && size * k == TWO32
    ensures w % size == (TWO32 * q + w) % size
  {
    var n := w / size;
    Product(size, k, q, n);
    DivModUnique(TWO32 * q + w, size, k * q + n, w % size);
  }

  lemma Product(size: nat, k: nat, q: nat, n: nat)
    ensures size * (k * q + n) == (size * k) * q + size * n && k * q + n >= 0
  {
    assert size * (k * q) == (size * k) * q;
  }

  /** The sizes that a mask can index, that is the powers of two. */
  ghost predicate RingSize(n: nat) {
    0 < n < TWO32 && exists k: nat :: n * k == TWO32
  }

  function Wrapped(i: int): u32 {
    i % TWO32
  }

  /** `index & mask` for a 32-bit index. */
  function Slot(i: nat, size: nat): (s: nat)
    requires RingSize(size)
    ensures s == i % size
  {
    ghost var k: nat :| size * k == TWO32;
    WrapAroundHarmless(i, i, size, k);
    Wrapped(i) % size
  }

  /** The 32-bit difference of two 32-bit indices. */
  function Gap(i: nat, j: nat): (d: nat)
    requires j <= i < j + TWO32
    ensures d == i - j
  {
    WrapAroundHarmless(i, j, 1, TWO32);
    Wrapped(Wrapped(i) - Wrapped(j))
  }

  /** A ring written by the user: fill and tx. */
  class ProdRing<T(0)> {
    const size: nat
    const slots: array<T>
    var producer: nat
    var consumer: nat
    var cachedProd: nat
    var cachedCons: nat  // size more than the last consumer index seen
    ghost var log: seq<T>

    ghost predicate Valid()
      reads this, slots
    {
      && slots.Length == size && RingSize(size)
      && consumer <= producer <= |log| <= cachedProd <= cachedCons <= consumer + size
      && Kept()
    }

    ghost predicate Kept()
      requires slots.Length == size > 0
      reads this, slots
    {
      forall i :: consumer <= i < |log| ==> slots[i % size] == log[i]
    }

    constructor (n: nat)
      requires RingSize(n)
      ensures Valid() && fresh(slots) && size == n
      ensures producer == consumer == cachedProd == 0 && log == []
    {
      size := n;
      slots := new T[n];
      producer, consumer, cachedProd, cachedCons := 0, 0, 0, n;
      log := [];
    }

    /** xsk_ring_prod__reserve: all n entries or none. It refreshes its view of the consumer
        only when the cached one shows too little room. */
    method Reserve(nb: nat) returns (n: nat, idx: nat)
      requires Valid()
      modifies this`cachedProd, this`cachedCons
      ensures Valid()
      ensures n == if old(cachedProd) + nb <= consumer + size then nb else 0
      ensures idx == old(cachedProd) && cachedProd == old(cachedProd) + n
    {
      idx := cachedProd;
      if Gap(cachedCons, cachedProd) < nb {
        cachedCons := consumer + size;
      }
      if Gap(cachedCons, cachedProd) < nb {
        return 0, idx;
      }
      cachedProd := cachedProd + nb;
      n := nb;
    }

    /** Writes the next reserved entry. */
    method Put(idx: nat, x: T)
      requires Valid() && idx == |log| < cachedProd
      modifies this`log, slots
      ensures Valid() && log == old(log) + [x]
    {
      forall i | consumer <= i < |log|
        ensures i % size != idx % size
      {
        SlotsDiffer(i, idx, size);
      }
      slots[Slot(idx, size)] := x;
      log := log + [x];
    }

    method Submit(nb: nat)
      requires Valid() && producer + nb <= |log|
      modifies this`producer
      ensures Valid() && producer == old(producer) + nb
    {
      producer := producer + nb;
    }

    /** The kernel reads the oldest submitted entry and publishes that it did. */
    method KernelTake() returns (x: T)
      requires Valid() && consumer < producer
      modifies this`consumer
      ensures Valid() && consumer == old(consumer) + 1
      ensures x == log[old(consumer)]
    {
      x := slots[Slot(consumer, size)];
      consumer := consumer + 1;
    }
  }

  ghost function Least(a: int, b: int): int {
    if a < b then a else b
  }

  /** A ring read by the user: rx and completion. */
  class ConsRing<T(0)> {
    const size: nat
    const slots: array<T>
    var producer: nat
    var consumer: nat
    var cachedProd: nat
    var cachedCons: nat
    ghost var log: seq<T>

    ghost predicate Valid()
      reads this, slots
    {
      && slots.Length == size && RingSize(size)
      && consumer <= cachedCons <= cachedProd <= producer == |log| <= consumer + size
      && Kept()
    }

    ghost predicate Kept()
      requires slots.Length == size > 0
      reads this, slots
    {
      forall i :: consumer <= i < |log| ==> slots[i % size] == log[i]
    }

    constructor (n: nat)
      requires RingSize(n)
      ensures Valid() && fresh(slots) && size == n
      ensures producer == consumer == cachedCons == 0 && log == []
    {
      size := n;
      slots := new T[n];
      producer, consumer, cachedProd, cachedCons := 0, 0, 0, 0;
      log := [];
    }

    /** xsk_ring_cons__peek: up to nb entries; the producer index is read again only when all
        entries seen so far have been peeked. */
    method Peek(nb: nat) returns (n: nat, idx: nat)
      requires Valid()
      modifies this`cachedProd, this`cachedCons
      ensures Valid()
      ensures n <= nb && idx == old(cachedCons) && cachedCons == old(cachedCons) + n
      ensures n == Least(nb, (if old(cachedProd == cachedCons) then producer else old(cachedProd)) - idx)
      ensures n == 0 <==> nb == 0 || old(cachedCons) == producer
    {
      idx := cachedCons;
      if Gap(cachedProd, cachedCons) == 0 {
        cachedProd := producer;
      }
      n := if Gap(cachedProd, cachedCons) > nb then nb else Gap(cachedProd, cachedCons);
      cachedCons := cachedCons + n;
    }

    /** Reads a peeked entry. */
    method Get(idx: nat) returns (x: T)
      requires Valid() && consumer <= idx < cachedCons
      ensures x == log[idx]
    {
      x := slots[Slot(idx, size)];
    }

    method Release(nb: nat)
      requires Valid() && consumer + nb <= cachedCons
      modifies this`consumer
      ensures Valid() && consumer == old(consumer) + nb
    {
      consumer := consumer + nb;
    }

    /** The kernel appends an entry. */
    method KernelPut(x: T)
      requires Valid() && producer < consumer + size
      modifies this`producer, this`log, slots
      ensures Valid() && log == old(log) + [x]
    {
      forall i | consumer <= i < producer
        ensures i % size != producer % size
      {
        SlotsDiffer(i, producer, size);
      }
      slots[Slot(producer, size)] := x;
      log := log + [x];
      producer := producer + 1;
    }
  }
}
