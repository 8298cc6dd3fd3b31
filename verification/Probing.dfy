// Linear probing with wrap-around over a table of buckets: the table that
// xdp_progs/includes/hash_map.h keeps in its byte buffer, as a value.

module Probing {
  import opened Machine
  import opened DivMod

  type Bytes = seq<byte>
  datatype Entry = Entry(key: Bytes, value: Bytes)
  type Bucket = Option<Entry>

  /** hash_func: base 31, modulo 2^32. */
  ghost function Hash(key: Bytes): u32 {
    if key == [] then 0 else (Hash(key[..|key| - 1]) * 31 + key[|key| - 1]) % TWO32
  }

  ghost function Power31(n: nat): nat {
    if n == 0 then 1 else 31 * Power31(n - 1)
  }

  /** The sum of key[i] times 31 to the power |key| - 1 - i. */
  ghost function Polynomial(key: Bytes): nat {
    if key == [] then 0 else Power31(|key| - 1) * key[0] + Polynomial(key[1..])
  }

  /** The hash as one sum, reduced once at the end. */
  lemma {:induction false} HashIsPolynomial(key: Bytes)
    ensures Hash(key) == Polynomial(key) % 0x1_0000_0000
  {
    if key != [] {
      var n := |key| - 1;
      HashIsPolynomial(key[..n]);
      AppendByte(key[..n], key[n]);
      assert key == key[..n] + [key[n]];
      Reduce(Polynomial(key[..n]), key[n]);
    }
  }

  lemma {:induction false} AppendByte(key: Bytes, b: byte)
    ensures Polynomial(key + [b]) == 31 * Polynomial(key) + b
  {
    var all := key + [b];
    if key == [] {
      assert all[1..] == [] && Power31(0) == 1;
    } else {
      AppendByte(key[1..], b);
      assert all[1..] == key[1..] + [b];
      Regroup(Power31(|key| - 1), key[0]);
    }
  }

  lemma Regroup(power: nat, b: nat)
    ensures (31 * power) * b == 31 * (power * b)
  {
  }

  lemma Reduce(a: nat, b: nat)
    ensures (a % TWO32 * 31 + b) % TWO32 == (31 * a + b) % TWO32
  {
    assert 31 * a + b == (a % TWO32 * 31 + b) + TWO32 * (31 * (a / TWO32));
  }

  ghost function Home(key: Bytes, n: nat): (r: nat)
    requires n > 0
    ensures r < n
  {
    Hash(key) % n
  }

  /** The bucket d steps after `home`, and the number of steps to bucket i. */
  ghost function At(home: nat, d: nat, n: nat): (r: nat)
    requires home < n && d <= n
    ensures r < n
    ensures d == 0 || d == n ==> r == home
  {
    if home + d < n then home + d else home + d - n
  }

  /** `index = (index + 1) % num_buckets`; the round is over after n steps, not before. */
  lemma AtNext(home: nat, d: nat, n: nat)
    requires home < n && d < n
    ensures (At(home, d, n) + 1) % n == At(home, d + 1, n)
    ensures At(home, d + 1, n) == home <==> d + 1 == n
  {
    var i := At(home, d, n) + 1;
    if i < n {
      DivModUnique(i, n, 0, i);
    } else {
      DivModUnique(i, n, 1, 0);
    }
  }

  ghost function Dist(home: nat, i: nat, n: nat): (d: nat)
    requires home < n && i < n
    ensures d < n && At(home, d, n) == i
    ensures forall e :: 0 <= e < n && At(home, e, n) == i ==> e == d
  {
    if i >= home then i - home else i + n - home
  }

  // ----- the operations

  datatype Found = Hit(i: nat) | Free(i: nat) | Full

  /** The probe for a key, d buckets from home: stops at the key, at an empty bucket, or after
      one round. */
  ghost function Probe(t: seq<Bucket>, key: Bytes, d: nat): (f: Found)
    requires |t| > 0 && d <= |t|
    ensures f.Hit? ==> f.i < |t| && t[f.i].Some? && t[f.i].value.key == key
    ensures f.Free? ==> f.i < |t| && t[f.i].None?
    decreases |t| - d
  {
    var i := At(Home(key, |t|), d, |t|);
    if d == |t| then Full
    else if t[i].None? then Free(i)
    else if t[i].value.key == key then Hit(i)
    else Probe(t, key, d + 1)
  }

  /** One step of a probe. */
  lemma ProbeStep(t: seq<Bucket>, key: Bytes, d: nat)
    requires |t| > 0 && d < |t|
    ensures var i := At(Home(key, |t|), d, |t|);
      Probe(t, key, d) == if t[i].None? then Free(i) else if t[i].value.key == key then Hit(i) else Probe(t, key, d + 1)
    ensures Probe(t, key, |t|) == Full
  {
  }

  ghost function Lookup(t: seq<Bucket>, key: Bytes): Option<Bytes>
    requires |t| > 0
  {
    var f := Probe(t, key, 0);
    if f.Hit? then Some(t[f.i].value.value) else None
  }

  ghost function Update(t: seq<Bucket>, key: Bytes, value: Bytes): (r: (seq<Bucket>, bool))
    requires |t| > 0
    ensures |r.0| == |t|
  {
    var f := Probe(t, key, 0);
    if f.Full? then (t, false) else (t[f.i := Some(Entry(key, value))], true)
  }

  ghost function Delete(t: seq<Bucket>, key: Bytes): (r: (seq<Bucket>, bool))
    requires |t| > 0
    ensures |r.0| == |t|
  {
    var f := Probe(t, key, 0);
    if f.Hit? then (t[f.i := None], true) else (t, false)
  }

  ghost function Count(t: seq<Bucket>): nat {
    if t == [] then 0 else Count(t[..|t| - 1]) + if t[|t| - 1].Some? then 1 else 0
  }

  // ----- the probe invariant

  /** Every bucket on the way from a key's home to bucket i is filled, with another key. */
  ghost predicate Clear(t: seq<Bucket>, key: Bytes, i: nat)
    requires i < |t|
  {
    var home := Home(key, |t|);
    forall d :: 0 <= d < Dist(home, i, |t|) ==>
      var b := t[At(home, d, |t|)]; b.Some? && b.value.key != key
  }

  ghost predicate ProbeInv(t: seq<Bucket>) {
    |t| > 0 && forall i :: 0 <= i < |t| && t[i].Some? ==> Clear(t, t[i].value.key, i)
  }

  /** Bucket j lies on the way from a key's home to its bucket i. */
  ghost predicate Crosses(t: seq<Bucket>, i: nat, j: nat)
    requires i < |t| && j < |t| && t[i].Some?
  {
    var home := Home(t[i].value.key, |t|);
    Dist(home, j, |t|) < Dist(home, i, |t|)
  }

  lemma {:induction false} ClearIsHit(t: seq<Bucket>, i: nat, d: nat)
    requires |t| > 0 && i < |t| && t[i].Some? && Clear(t, t[i].value.key, i)
    requires d <= Dist(Home(t[i].value.key, |t|), i, |t|)
    ensures Probe(t, t[i].value.key, d) == Hit(i)
    decreases |t| - d
  {
    hide Hash, Home, At, Dist;
    var key := t[i].value.key;
    if d < Dist(Home(key, |t|), i, |t|) {
      ClearIsHit(t, i, d + 1);
    }
  }

  /** Where a probe ends, everything before it was filled with other keys. */
  lemma {:induction false} ProbePassed(t: seq<Bucket>, key: Bytes, d: nat)
    requires |t| > 0 && d <= |t|
    requires forall e :: 0 <= e < d ==>
      var b := t[At(Home(key, |t|), e, |t|)]; b.Some? && b.value.key != key
    ensures var f := Probe(t, key, d);
      if f.Full? then forall i :: 0 <= i < |t| ==> t[i].Some? && t[i].value.key != key
      else Clear(t, key, f.i)
    decreases |t| - d
  {
    hide Hash, Home, At, Dist;
    var home := Home(key, |t|);
    if d == |t| {
      forall i | 0 <= i < |t|
        ensures t[i].Some? && t[i].value.key != key
      {
        assert t[At(home, Dist(home, i, |t|), |t|)] == t[i];
      }
    } else {
      var b := t[At(home, d, |t|)];
      if b.Some? && b.value.key != key {
        ProbePassed(t, key, d + 1);
      }
    }
  }

  /** Under the invariant a key is found exactly where it is stored. */
  lemma FoundIffStored(t: seq<Bucket>, key: Bytes)
    requires ProbeInv(t)
    ensures |t| > 0
    ensures Probe(t, key, 0).Hit? <==> exists i :: 0 <= i < |t| && t[i].Some? && t[i].value.key == key
    ensures forall i :: 0 <= i < |t| && t[i].Some? && t[i].value.key == key ==> Probe(t, key, 0) == Hit(i)
  {
    hide Hash, Home, Clear, Probe;
    forall i | 0 <= i < |t| && t[i].Some? && t[i].value.key == key
      ensures Probe(t, key, 0) == Hit(i)
    {
      ClearIsHit(t, i, 0);
    }
  }

  lemma UpdateKeepsInv(t: seq<Bucket>, key: Bytes, value: Bytes)
    requires ProbeInv(t)
    ensures ProbeInv(Update(t, key, value).0)
  {
    hide Hash, Home, At, Dist, Probe;
    var f := Probe(t, key, 0);
    ProbePassed(t, key, 0);
    FoundIffStored(t, key);
    if !f.Full? {
      var t' := Update(t, key, value).0;
      forall i | 0 <= i < |t| && t'[i].Some?
        ensures Clear(t', t'[i].value.key, i)
      {
        var k := t'[i].value.key;
        var home := Home(k, |t|);
        assert Clear(t, k, i);
        forall d | 0 <= d < Dist(home, i, |t|)
          ensures var b := t'[At(home, d, |t|)]; b.Some? && b.value.key != k
        {
          var j := At(home, d, |t|);
          assert t[j].Some? && t[j].value.key != k;
        }
      }
    }
  }

  /** No other stored key's way crosses the bucket in which the key is found. */
  ghost predicate NoOtherCrosses(t: seq<Bucket>, key: Bytes)
    requires |t| > 0
  {
    var f := Probe(t, key, 0);
    f.Hit? ==> forall i :: 0 <= i < |t| && i != f.i && t[i].Some? ==> !Crosses(t, i, f.i)
  }

  /** Deleting keeps the invariant exactly when no other stored key's way crosses the bucket
      that becomes empty. */
  lemma DeleteKeepsInvIff(t: seq<Bucket>, key: Bytes)
    requires ProbeInv(t)
    ensures ProbeInv(Delete(t, key).0) <==> NoOtherCrosses(t, key)
  {
    hide Hash, Home, At, Probe;
    if !Probe(t, key, 0).Hit? {
      return;
    }
    var j := Probe(t, key, 0).i;
    var t' := Delete(t, key).0;
    if forall i :: 0 <= i < |t| && i != j && t[i].Some? ==> !Crosses(t, i, j) {
      forall i | 0 <= i < |t| && t'[i].Some?
        ensures Clear(t', t'[i].value.key, i)
      {
        var home := Home(t[i].value.key, |t|);
        assert Clear(t, t[i].value.key, i) && !Crosses(t, i, j);
        forall d | 0 <= d < Dist(home, i, |t|)
          ensures var b := t'[At(home, d, |t|)]; b.Some? && b.value.key != t[i].value.key
        {
          assert At(home, d, |t|) != j;
          var b := t[At(home, d, |t|)];
          assert b.Some? && b.value.key != t[i].value.key;
        }
      }
    }
    forall i | 0 <= i < |t| && i != j && t[i].Some? && Crosses(t, i, j)
      ensures !ProbeInv(t')
    {
      var home := Home(t[i].value.key, |t|);
      var d := Dist(home, j, |t|);
      assert t'[At(home, d, |t|)].None?;
      assert !Clear(t', t'[i].value.key, i);
    }
  }

  /** A probe whose way leads to an empty bucket gives up there. */
  lemma {:induction false} StopsAtGap(t: seq<Bucket>, key: Bytes, j: nat, d: nat)
    requires |t| > 0 && j < |t| && t[j].None? && Clear(t, key, j)
    requires d <= Dist(Home(key, |t|), j, |t|)
    ensures Probe(t, key, d) == Free(j)
    decreases |t| - d
  {
    hide Hash, Home, At, Dist;
    if d < Dist(Home(key, |t|), j, |t|) {
      StopsAtGap(t, key, j, d + 1);
    }
  }
}
