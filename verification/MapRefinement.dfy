// What histories of the probing table mean: without deletes it is a finite map of bounded
// size; with them, a lookup still returns only what was written for its key.

module MapRefinement {
  import opened Machine
  import opened Probing

  // ----- the abstract map

  ghost function StoredKeys(t: seq<Bucket>): set<Bytes> {
    set i | 0 <= i < |t| && t[i].Some? :: t[i].value.key
  }

  ghost function Abs(t: seq<Bucket>): map<Bytes, Bytes>
    requires |t| > 0
  {
    map k | k in StoredKeys(t) && Lookup(t, k).Some? :: Lookup(t, k).value
  }

  ghost function Get(m: map<Bytes, Bytes>, key: Bytes): Option<Bytes> {
    if key in m then Some(m[key]) else None
  }

  /** A map that holds at most n keys. */
  ghost function Put(m: map<Bytes, Bytes>, n: nat, key: Bytes, value: Bytes): (map<Bytes, Bytes>, bool) {
    if key in m || |m| < n then (m[key := value], true) else (m, false)
  }

  lemma NonEmpty(t: seq<Bucket>)
    requires ProbeInv(t)
    ensures |t| > 0
  {
  }

  lemma AbsLookup(t: seq<Bucket>, key: Bytes)
    requires ProbeInv(t)
    ensures Lookup(t, key) == Get(Abs(t), key)
  {
    hide Probe, ProbeInv;
    FoundIffStored(t, key);
  }

  lemma AbsKeys(t: seq<Bucket>)
    requires ProbeInv(t)
    ensures |t| > 0 && Abs(t).Keys == StoredKeys(t)
  {
    NonEmpty(t);
    hide Probe, ProbeInv;
    forall k | k in StoredKeys(t)
      ensures k in Abs(t)
    {
      FoundIffStored(t, k);
    }
  }

  // ----- counting

  lemma StoredKeysStep(s: seq<Bucket>, b: Bucket)
    ensures StoredKeys(s + [b]) == StoredKeys(s) + if b.Some? then {b.value.key} else {}
  {
    var t := s + [b];
    forall k | k in StoredKeys(s)
      ensures k in StoredKeys(t)
    {
      var i :| 0 <= i < |s| && s[i].Some? && s[i].value.key == k;
      assert t[i] == s[i];
    }
    assert t[|s|] == b;
  }

  lemma {:induction false} CountKeys(t: seq<Bucket>)
    requires forall i, j :: 0 <= i < j < |t| && t[i].Some? && t[j].Some? ==> t[i].value.key != t[j].value.key
    ensures Count(t) == |StoredKeys(t)| && Count(t) <= |t|
    ensures Count(t) == |t| <==> forall i :: 0 <= i < |t| ==> t[i].Some?
  {
    if t != [] {
      var s, last := t[..|t| - 1], t[|t| - 1];
      CountKeys(s);
      assert t == s + [last];
      StoredKeysStep(s, last);
      if last.Some? {
        assert last.value.key !in StoredKeys(s);
      }
    } else {
      assert StoredKeys(t) == {};
    }
  }

  lemma KeysDiffer(t: seq<Bucket>)
    requires ProbeInv(t)
    ensures forall i, j :: 0 <= i < j < |t| && t[i].Some? && t[j].Some? ==> t[i].value.key != t[j].value.key
  {
    hide Probe, ProbeInv;
    forall i, j | 0 <= i < j < |t| && t[i].Some? && t[j].Some?
      ensures t[i].value.key != t[j].value.key
    {
      FoundIffStored(t, t[i].value.key);
    }
  }

  /** get_elem_count is the size of the map. */
  lemma CountIsSize(t: seq<Bucket>)
    requires ProbeInv(t)
    ensures |t| > 0 && Count(t) == |Abs(t)| <= |t|
    ensures |Abs(t)| == |t| <==> forall i :: 0 <= i < |t| ==> t[i].Some?
  {
    hide Abs, ProbeInv;
    KeysDiffer(t);
    CountKeys(t);
    AbsKeys(t);
    assert |Abs(t)| == |Abs(t).Keys|;
  }

  // ----- one update

  /** An update fails exactly when the key is absent and every bucket is filled. */
  lemma AbsUpdate(t: seq<Bucket>, key: Bytes, value: Bytes)
    requires ProbeInv(t)
    ensures var (t', ok) := Update(t, key, value);
      ProbeInv(t') && (Abs(t'), ok) == Put(Abs(t), |t|, key, value)
  {
    var (t', ok) := Update(t, key, value);
    UpdateKeepsInv(t, key, value);
    UpdateSucceeds(t, key, value);
    if ok {
      UpdateStores(t, key, value);
    }
  }

  lemma UpdateSucceeds(t: seq<Bucket>, key: Bytes, value: Bytes)
    requires ProbeInv(t)
    ensures Update(t, key, value).1 <==> key in Abs(t) || |Abs(t)| < |t|
  {
    hide ProbeInv, Probe, Abs;
    FoundIffStored(t, key);
    ProbePassed(t, key, 0);
    CountIsSize(t);
    AbsKeys(t);
  }

  lemma UpdateStores(t: seq<Bucket>, key: Bytes, value: Bytes)
    requires ProbeInv(t) && Update(t, key, value).1
    ensures Abs(Update(t, key, value).0) == Abs(t)[key := value]
  {
    hide ProbeInv, Probe, Abs, Lookup, StoredKeys;
    FoundIffStored(t, key);
    var t' := Update(t, key, value).0;
    UpdateKeepsInv(t, key, value);
    AbsKeys(t);
    AbsKeys(t');
    StoredKeysUpdate(t, Probe(t, key, 0).i, key, value);
    forall k | k in Abs(t')
      ensures Abs(t')[k] == Abs(t)[key := value][k]
    {
      LookupAfterUpdate(t, key, value, k);
      AbsLookup(t', k);
      AbsLookup(t, k);
    }
  }

  lemma StoredKeysUpdate(t: seq<Bucket>, j: nat, key: Bytes, value: Bytes)
    requires j < |t| && (t[j].Some? ==> t[j].value.key == key)
    ensures StoredKeys(t[j := Some(Entry(key, value))]) == StoredKeys(t) + {key}
  {
    var t' := t[j := Some(Entry(key, value))];
    assert t'[j].value.key == key;
    forall k | k in StoredKeys(t)
      ensures k in StoredKeys(t')
    {
      var i :| 0 <= i < |t| && t[i].Some? && t[i].value.key == k;
      assert t'[i].value.key == k;
    }
  }

  lemma LookupAfterUpdate(t: seq<Bucket>, key: Bytes, value: Bytes, k: Bytes)
    requires ProbeInv(t) && Update(t, key, value).1
    ensures ProbeInv(Update(t, key, value).0)
    ensures Lookup(Update(t, key, value).0, k) == if k == key then Some(value) else Lookup(t, k)
  {
    hide ProbeInv, Probe;
    var t' := Update(t, key, value).0;
    var j := Probe(t, key, 0).i;
    UpdateKeepsInv(t, key, value);
    FoundIffStored(t', k);
    FoundIffStored(t, k);
    assert t'[j].value.key == key;
    if k != key {
      assert forall i :: 0 <= i < |t| && i != j ==> t'[i] == t[i];
    }
  }

  // ----- histories

  datatype Op = OpUpdate(key: Bytes, value: Bytes) | OpLookup(key: Bytes) | OpDelete(key: Bytes) | OpCount
  datatype Out = Did(ok: bool) | Saw(value: Option<Bytes>) | Counted(n: nat)

  ghost function Step(t: seq<Bucket>, op: Op): (r: (seq<Bucket>, Out))
    requires |t| > 0
    ensures |r.0| == |t|
  {
    match op
    case OpUpdate(k, v) => var (t', ok) := Update(t, k, v); (t', Did(ok))
    case OpLookup(k) => (t, Saw(Lookup(t, k)))
    case OpDelete(k) => var (t', ok) := Delete(t, k); (t', Did(ok))
    case OpCount => (t, Counted(Count(t)))
  }

  /** The table after a history, and everything the history answered. */
  ghost function Run(t: seq<Bucket>, ops: seq<Op>): (r: (seq<Bucket>, seq<Out>))
    requires |t| > 0
    ensures |r.0| == |t| && |r.1| == |ops|
  {
    if ops == [] then (t, [])
    else
      var (t1, outs) := Run(t, ops[..|ops| - 1]);
      var (t2, out) := Step(t1, ops[|ops| - 1]);
      (t2, outs + [out])
  }

  /** The same history on a map of at most n keys. */
  ghost function RunMap(n: nat, ops: seq<Op>): (map<Bytes, Bytes>, seq<Out>)
  {
    if ops == [] then (map[], [])
    else
      var (m, outs) := RunMap(n, ops[..|ops| - 1]);
      match ops[|ops| - 1]
      case OpUpdate(k, v) => var (m', ok) := Put(m, n, k, v); (m', outs + [Did(ok)])
      case OpLookup(k) => (m, outs + [Saw(Get(m, k))])
      case OpDelete(k) => (m - {k}, outs + [Did(k in m)])
      case OpCount => (m, outs + [Counted(|m|)])
  }

  ghost function EmptyTable(n: nat): (t: seq<Bucket>)
    ensures |t| == n
  {
    seq(n, _ => None)
  }

  lemma EmptyIsEmpty(n: nat)
    requires n > 0
    ensures ProbeInv(EmptyTable(n)) && Abs(EmptyTable(n)) == map[]
  {
    AbsKeys(EmptyTable(n));
    assert StoredKeys(EmptyTable(n)) == {};
  }

  /** A delete that keeps the invariant removes exactly its key. */
  lemma AbsDelete(t: seq<Bucket>, key: Bytes)
    requires ProbeInv(t) && ProbeInv(Delete(t, key).0)
    ensures Abs(Delete(t, key).0) == Abs(t) - {key}
    ensures Delete(t, key).1 <==> key in Abs(t)
  {
    hide ProbeInv, Probe, Abs, Lookup, StoredKeys;
    NonEmpty(t);
    var t' := Delete(t, key).0;
    AbsKeys(t);
    AbsKeys(t');
    StoredKeysDelete(t, key);
    forall k | k in Abs(t')
      ensures Abs(t')[k] == Abs(t)[k]
    {
      LookupAfterDelete(t, key, k);
      AbsLookup(t', k);
      AbsLookup(t, k);
    }
  }

  lemma StoredKeysDelete(t: seq<Bucket>, key: Bytes)
    requires ProbeInv(t)
    ensures |t| > 0 && StoredKeys(Delete(t, key).0) == StoredKeys(t) - {key}
    ensures Delete(t, key).1 <==> key in StoredKeys(t)
  {
    hide ProbeInv, Probe;
    FoundIffStored(t, key);
    KeysDiffer(t);
    var t' := Delete(t, key).0;
    forall k | k in StoredKeys(t) && k != key
      ensures k in StoredKeys(t')
    {
      var i :| 0 <= i < |t| && t[i].Some? && t[i].value.key == k;
      assert t'[i] == t[i];
    }
  }

  lemma LookupAfterDelete(t: seq<Bucket>, key: Bytes, k: Bytes)
    requires ProbeInv(t) && ProbeInv(Delete(t, key).0) && k != key
    ensures Lookup(Delete(t, key).0, k) == Lookup(t, k)
  {
    hide ProbeInv, Probe;
    FoundIffStored(t, k);
    var t' := Delete(t, key).0;
    FoundIffStored(t', k);
    if Probe(t, k, 0).Hit? {
      assert t'[Probe(t, k, 0).i] == t[Probe(t, k, 0).i];
    }
  }

  /** A crossed delete makes the other key invisible. */
  lemma CrossedKeyIsLost(t: seq<Bucket>, key: Bytes, i: nat)
    requires ProbeInv(t) && Probe(t, key, 0).Hit? && i < |t| && i != Probe(t, key, 0).i
    requires t[i].Some? && Crosses(t, i, Probe(t, key, 0).i)
    ensures Lookup(Delete(t, key).0, t[i].value.key) == None
    ensures t[i].value.key in Abs(t) && t[i].value.key != key
  {
    hide Home, At, Dist, ProbeInv, Probe, Abs;
    var k, j := t[i].value.key, Probe(t, key, 0).i;
    var t' := Delete(t, key).0;
    FoundIffStored(t, key);
    AbsKeys(t);
    assert Clear(t', k, j) by { ClearUpToGap(t, i, j, key); }
    StopsAtGap(t', k, j, 0);
  }

  lemma ClearUpToGap(t: seq<Bucket>, i: nat, j: nat, key: Bytes)
    requires ProbeInv(t) && i < |t| && j < |t| && t[i].Some? && Crosses(t, i, j)
    ensures Clear(t[j := None], t[i].value.key, j)
  {
    hide Home, At, Dist;
    var k := t[i].value.key;
    var home := Home(k, |t|);
    assert Clear(t, k, i);
    forall d | 0 <= d < Dist(home, j, |t|)
      ensures var b := t[j := None][At(home, d, |t|)]; b.Some? && b.value.key != k
    {
      var b := t[At(home, d, |t|)];
      assert b.Some? && b.value.key != k;
      assert At(home, d, |t|) != j;
    }
  }

  /** A delete acts as removal from the map exactly when no other stored key's way crosses
      the freed bucket. */
  lemma DeleteRefinesIff(t: seq<Bucket>, key: Bytes)
    requires ProbeInv(t)
    ensures (forall k :: Lookup(Delete(t, key).0, k) == Get(Abs(t) - {key}, k)) <==> NoOtherCrosses(t, key)
    ensures NoOtherCrosses(t, key) ==>
      ProbeInv(Delete(t, key).0) && Abs(Delete(t, key).0) == Abs(t) - {key}
    ensures Delete(t, key).1 <==> key in Abs(t)
  {
    hide ProbeInv, Probe, Abs, Lookup, Crosses;
    NonEmpty(t);
    AbsKeys(t);
    StoredKeysDelete(t, key);
    DeleteKeepsInvIff(t, key);
    var t' := Delete(t, key).0;
    if NoOtherCrosses(t, key) {
      AbsDelete(t, key);
      forall k
        ensures Lookup(t', k) == Get(Abs(t) - {key}, k)
      {
        AbsLookup(t', k);
      }
    } else {
      var i :| 0 <= i < |t| && i != Probe(t, key, 0).i && t[i].Some? && Crosses(t, i, Probe(t, key, 0).i);
      CrossedKeyIsLost(t, key, i);
      assert Lookup(t', t[i].value.key) != Get(Abs(t) - {key}, t[i].value.key);
    }
  }

  /** Every delete of the history meets the condition when it is made. */
  ghost predicate SafeDeletes(n: nat, ops: seq<Op>)
    requires n > 0
  {
    ops == [] ||
    (SafeDeletes(n, ops[..|ops| - 1]) &&
     var op := ops[|ops| - 1];
     op.OpDelete? ==> NoOtherCrosses(Run(EmptyTable(n), ops[..|ops| - 1]).0, op.key))
  }

  /** Over every history whose deletes are safe the table answers like the map. */
  lemma {:induction false} RefinesMap(n: nat, ops: seq<Op>)
    requires n > 0 && SafeDeletes(n, ops)
    ensures Run(EmptyTable(n), ops).1 == RunMap(n, ops).1
    ensures ProbeInv(Run(EmptyTable(n), ops).0) && Abs(Run(EmptyTable(n), ops).0) == RunMap(n, ops).0
  {
    hide ProbeInv, Abs, Update, Lookup, Delete, Count, Put, Get, EmptyTable, NoOtherCrosses;
    if ops == [] {
      EmptyIsEmpty(n);
    } else {
      var before, op := ops[..|ops| - 1], ops[|ops| - 1];
      RefinesMap(n, before);
      var t := Run(EmptyTable(n), before).0;
      match op {
        case OpUpdate(k, v) => AbsUpdate(t, k, v);
        case OpLookup(k) => AbsLookup(t, k);
        case OpDelete(k) => DeleteRefinesIff(t, k);
        case OpCount => CountIsSize(t);
      }
    }
  }

  /** After a history every lookup would answer like the map. */
  ghost predicate LooksLikeMap(n: nat, ops: seq<Op>)
    requires n > 0
  {
    forall k :: Lookup(Run(EmptyTable(n), ops).0, k) == Get(RunMap(n, ops).0, k)
  }

  /** The table looks like the map after every step of a history exactly when every delete was
      safe when it was made. */
  lemma {:induction false} AlwaysLikeMapIff(n: nat, ops: seq<Op>)
    requires n > 0
    ensures (forall m :: 0 <= m <= |ops| ==> LooksLikeMap(n, ops[..m])) <==> SafeDeletes(n, ops)
  {
    hide LooksLikeMap, SafeDeletes;
    assert ops[..|ops|] == ops;
    if ops == [] {
      SafeStart(n);
      SafeLooks(n, ops);
    } else {
      var before, op := ops[..|ops| - 1], ops[|ops| - 1];
      AlwaysLikeMapIff(n, before);
      assert forall m :: 0 <= m < |ops| ==> before[..m] == ops[..m];
      SafeLast(n, ops);
      if SafeDeletes(n, ops) {
        SafeLooks(n, ops);
      } else if SafeDeletes(n, before) {
        UnsafeLooks(n, before, op.key);
        assert before + [op] == ops;
      }
    }
  }

  lemma SafeStart(n: nat)
    requires n > 0
    ensures SafeDeletes(n, [])
  {
  }

  lemma SafeLast(n: nat, ops: seq<Op>)
    requires n > 0 && ops != []
    ensures var before, op := ops[..|ops| - 1], ops[|ops| - 1];
      SafeDeletes(n, ops) <==>
        SafeDeletes(n, before) && (op.OpDelete? ==> NoOtherCrosses(Run(EmptyTable(n), before).0, op.key))
  {
  }

  lemma SafeLooks(n: nat, ops: seq<Op>)
    requires n > 0 && SafeDeletes(n, ops)
    ensures LooksLikeMap(n, ops)
  {
    hide Lookup, Run, RunMap, SafeDeletes, Abs, ProbeInv;
    RefinesMap(n, ops);
    forall k ensures Lookup(Run(EmptyTable(n), ops).0, k) == Get(RunMap(n, ops).0, k) {
      AbsLookup(Run(EmptyTable(n), ops).0, k);
    }
  }

  lemma UnsafeLooks(n: nat, before: seq<Op>, key: Bytes)
    requires n > 0 && SafeDeletes(n, before)
    requires !NoOtherCrosses(Run(EmptyTable(n), before).0, key)
    ensures !LooksLikeMap(n, before + [OpDelete(key)])
  {
    hide Lookup, SafeDeletes, Abs, ProbeInv, NoOtherCrosses, Delete;
    var t, ops := Run(EmptyTable(n), before).0, before + [OpDelete(key)];
    RefinesMap(n, before);
    DeleteRefinesIff(t, key);
    var k :| Lookup(Delete(t, key).0, k) != Get(Abs(t) - {key}, k);
    assert ops[..|before|] == before;
    RunSnoc(EmptyTable(n), before, OpDelete(key));
    assert Run(EmptyTable(n), ops).0 == Delete(t, key).0 && RunMap(n, ops).0 == Abs(t) - {key};
  }

  /** In particular, over every history of updates, lookups and counts. */
  lemma {:induction false} RefinesMapWithoutDeletes(n: nat, ops: seq<Op>)
    requires n > 0 && forall op :: op in ops ==> !op.OpDelete?
    ensures Run(EmptyTable(n), ops).1 == RunMap(n, ops).1
  {
    NoDeletesAreSafe(n, ops);
    RefinesMap(n, ops);
  }

  lemma {:induction false} NoDeletesAreSafe(n: nat, ops: seq<Op>)
    requires n > 0 && forall op :: op in ops ==> !op.OpDelete?
    ensures SafeDeletes(n, ops)
  {
    if ops != [] {
      assert ops[|ops| - 1] in ops;
      NoDeletesAreSafe(n, ops[..|ops| - 1]);
    }
  }

  lemma HashOfOne(b: byte)
    ensures Hash([b]) == b
  {
    assert [b][..0] == [];
  }

  /** Without the condition a delete can hide another key: 0 and 2 share the first of two buckets. */
  lemma DeleteCanHideAKey(v: Bytes, w: Bytes)
    ensures var ops := [OpUpdate([0], v), OpUpdate([2], w), OpDelete([0]), OpLookup([2])];
      Run(EmptyTable(2), ops).1 == [Did(true), Did(true), Did(true), Saw(None)]
  {
    var ops := [OpUpdate([0], v), OpUpdate([2], w), OpDelete([0]), OpLookup([2])];
    var a: Bytes, b: Bytes := [0], [2];
    HashOfOne(0);
    HashOfOne(2);
    var t0: seq<Bucket> := [None, None];
    var t1 := t0[0 := Some(Entry(a, v))];
    var t2 := t1[1 := Some(Entry(b, w))];
    var t3 := t2[0 := None];
    assert EmptyTable(2) == t0;
    assert Probe(t0, a, 0) == Free(0);
    assert Probe(t1, b, 1) == Free(1);
    assert Probe(t2, a, 0) == Hit(0);
    assert Probe(t3, b, 0) == Free(0);
    RunSnoc(t0, [], ops[0]);
    RunSnoc(t0, [ops[0]], ops[1]);
    RunSnoc(t0, [ops[0], ops[1]], ops[2]);
    RunSnoc(t0, [ops[0], ops[1], ops[2]], ops[3]);
    assert [] + [ops[0]] == [ops[0]] && [ops[0]] + [ops[1]] == [ops[0], ops[1]]
      && [ops[0], ops[1]] + [ops[2]] == [ops[0], ops[1], ops[2]] && [ops[0], ops[1], ops[2]] + [ops[3]] == ops;
  }

  lemma RunSnoc(t: seq<Bucket>, ops: seq<Op>, op: Op)
    requires |t| > 0
    ensures var (t1, outs) := Run(t, ops);
      Run(t, ops + [op]) == (Step(t1, op).0, outs + [Step(t1, op).1])
  {
    assert (ops + [op])[..|ops|] == ops;
  }

  // ----- histories with arbitrary deletes

  /** Everything in the table was written for its key by the history. */
  ghost predicate AllWritten(t: seq<Bucket>, ops: seq<Op>) {
    forall i :: 0 <= i < |t| && t[i].Some? ==> OpUpdate(t[i].value.key, t[i].value.value) in ops
  }

  lemma {:induction false} RunWritten(n: nat, ops: seq<Op>)
    requires n > 0
    ensures AllWritten(Run(EmptyTable(n), ops).0, ops)
  {
    if ops != [] {
      var before, op := ops[..|ops| - 1], ops[|ops| - 1];
      RunWritten(n, before);
      assert forall o :: o in before ==> o in ops;
      assert op in ops;
    }
  }

  /** Whatever a lookup returns was at some earlier time written for that very key, in every
      history, deletes included. */
  lemma LookupReturnsWritten(n: nat, ops: seq<Op>, i: nat)
    requires n > 0 && i < |ops| && ops[i].OpLookup?
    requires Run(EmptyTable(n), ops[..i + 1]).1[i].value.Some?
    ensures OpUpdate(ops[i].key, Run(EmptyTable(n), ops[..i + 1]).1[i].value.value) in ops[..i]
  {
    assert ops[..i + 1][..i] == ops[..i];
    RunWritten(n, ops[..i]);
  }
}
