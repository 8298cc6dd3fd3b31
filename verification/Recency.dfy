// What an LRU cache holds: the most recently used keys, on whole histories of operations.

module Recency {
  import opened Machine

  datatype KV<K, V> = KV(key: K, value: V)

  datatype Op<K, V> = Insert(key: K, value: V) | Lookup(key: K) | Remove(key: K) | Clear

  /** The position of a key in a list, or its length. */
  ghost function Find<K, V>(l: seq<KV<K, V>>, k: K): (i: nat)
    ensures i <= |l| && (i < |l| ==> l[i].key == k) && forall j :: 0 <= j < i ==> l[j].key != k
  {
    if l == [] || l[0].key == k then 0 else 1 + Find(l[1..], k)
  }

  ghost predicate Has<K, V>(l: seq<KV<K, V>>, k: K) {
    Find(l, k) < |l|
  }

  ghost predicate DistinctKeys<K, V>(l: seq<KV<K, V>>) {
    forall i, j :: 0 <= i < j < |l| ==> l[i].key != l[j].key
  }

  ghost function Without<K, V>(l: seq<KV<K, V>>, k: K): seq<KV<K, V>> {
    if Has(l, k) then Cut(l, Find(l, k)) else l
  }

  ghost function Cut<T>(l: seq<T>, i: nat): seq<T>
    requires i < |l|
  {
    l[..i] + l[i + 1..]
  }

  /** The hard limit `maxSize_ + elasticity_` as a 64-bit sum. */
  function MaxAllowed(maxSize: u64, elasticity: u64): u64 {
    (maxSize + elasticity) % TWO64
  }

  /** prune: nothing below the hard limit, otherwise back to the soft limit. */
  ghost function Pruned<K, V>(l: seq<KV<K, V>>, maxSize: u64, elasticity: u64): seq<KV<K, V>> {
    if maxSize == 0 || |l| < MaxAllowed(maxSize, elasticity) || |l| <= maxSize then l else l[..maxSize]
  }

  /** One operation on the cache's list, most recent key first. */
  ghost function Apply<K, V>(l: seq<KV<K, V>>, op: Op<K, V>, maxSize: u64, elasticity: u64): seq<KV<K, V>> {
    match op
    case Insert(k, v) =>
      if Has(l, k) then [KV(k, v)] + Without(l, k) else Pruned([KV(k, v)] + l, maxSize, elasticity)
    case Lookup(k) => if Has(l, k) then [l[Find(l, k)]] + Without(l, k) else l
    case Remove(k) => Without(l, k)
    case Clear => []
  }

  ghost function Run<K, V>(ops: seq<Op<K, V>>, maxSize: u64, elasticity: u64): seq<KV<K, V>> {
    if ops == [] then [] else Apply(Run(ops[..|ops| - 1], maxSize, elasticity), ops[|ops| - 1], maxSize, elasticity)
  }

  /** Every key inserted and not removed since, ordered by its last insert or hit. Only a
      lookup that hits the cache `l` counts as a use. */
  ghost function Used<K, V>(h: seq<KV<K, V>>, l: seq<KV<K, V>>, op: Op<K, V>): seq<KV<K, V>> {
    match op
    case Insert(k, v) => [KV(k, v)] + Without(h, k)
    case Lookup(k) => if Has(l, k) && Has(h, k) then [h[Find(h, k)]] + Without(h, k) else h
    case Remove(k) => Without(h, k)
    case Clear => []
  }

  ghost function History<K, V>(ops: seq<Op<K, V>>, maxSize: u64, elasticity: u64): seq<KV<K, V>> {
    if ops == [] then []
    else
      var before := ops[..|ops| - 1];
      Used(History(before, maxSize, elasticity), Run(before, maxSize, elasticity), ops[|ops| - 1])
  }

  // ----- lists

  lemma WithoutKeys<K, V>(l: seq<KV<K, V>>, k: K)
    requires DistinctKeys(l)
    ensures DistinctKeys(Without(l, k)) && !Has(Without(l, k), k)
    ensures forall e :: e in Without(l, k) ==> e in l && e.key != k
    ensures forall e :: e in l && e.key != k ==> e in Without(l, k)
    ensures |Without(l, k)| == if Has(l, k) then |l| - 1 else |l|
  {
    var w, i := Without(l, k), Find(l, k);
    if i < |l| {
      assert forall j :: 0 <= j < |w| ==> w[j] == if j < i then l[j] else l[j + 1];
      forall e | e in l && e.key != k ensures e in w {
        var j :| 0 <= j < |l| && l[j] == e;
        assert w[if j < i then j else j - 1] == e;
      }
    }
  }

  /** In a prefix of a list a key is where it is in the list, or beyond the prefix. */
  lemma FindInPrefix<K, V>(h: seq<KV<K, V>>, n: nat, k: K)
    requires n <= |h|
    ensures Has(h[..n], k) ==> Find(h[..n], k) == Find(h, k)
    ensures !Has(h[..n], k) ==> n <= Find(h, k)
  {
    hide Find;
    assert forall m :: 0 <= m < n ==> h[..n][m] == h[m];
  }

  ghost predicate PrefixOf<T>(l: seq<T>, h: seq<T>) {
    |l| <= |h| && l == h[..|l|]
  }

  lemma PrefixBefore<T>(h: seq<T>, n: nat, i: nat)
    requires n <= i <= |h|
    ensures PrefixOf(h[..n], h)
    ensures i < |h| ==> PrefixOf(h[..n], Cut(h, i))
  {
    if i < |h| {
      assert (h[..i] + h[i + 1..])[..n] == h[..n];
    }
  }

  lemma PrefixCut<T>(h: seq<T>, n: nat, i: nat)
    requires i < n <= |h|
    ensures PrefixOf(Cut(h[..n], i), Cut(h, i))
  {
    var cut := h[..i] + h[i + 1..];
    assert |h[..n][..i] + h[..n][i + 1..]| == n - 1;
    forall m | 0 <= m < n - 1 ensures (h[..n][..i] + h[..n][i + 1..])[m] == cut[m] {}
  }

  lemma FrontPrefix<T>(e: T, l: seq<T>, h: seq<T>)
    requires PrefixOf(l, h)
    ensures PrefixOf([e] + l, [e] + h)
  {
  }

  lemma PrefixWithout<K, V>(h: seq<KV<K, V>>, n: nat, k: K)
    requires n <= |h|
    ensures PrefixOf(Without(h[..n], k), Without(h, k))
    ensures Has(h[..n], k) ==> Has(h, k) && h[..n][Find(h[..n], k)] == h[Find(h, k)]
  {
    hide Find, PrefixOf, Cut;
    FindInPrefix(h, n, k);
    var i := Find(h, k);
    if i < n {
      PrefixCut(h, n, i);
    } else {
      PrefixBefore(h, n, i);
    }
  }

  // ----- the cache on every history

  /** Everything that one operation keeps: the list is a prefix of the history, keys are
      distinct and the size is bounded. */
  ghost predicate Keeps<K, V>(h: seq<KV<K, V>>, l: seq<KV<K, V>>, maxSize: u64, elasticity: u64) {
    && PrefixOf(l, h) && DistinctKeys(h)
    && (maxSize > 0 ==> |l| <= maxSize || |l| < MaxAllowed(maxSize, elasticity))
    && (maxSize == 0 ==> l == h)
  }

  lemma StepKeeps<K, V>(h: seq<KV<K, V>>, l: seq<KV<K, V>>, op: Op<K, V>, maxSize: u64, elasticity: u64)
    requires Keeps(h, l, maxSize, elasticity)
    ensures Keeps(Used(h, l, op), Apply(l, op, maxSize, elasticity), maxSize, elasticity)
  {
    hide Find, Without, DistinctKeys, PrefixOf, MaxAllowed;
    Prefix(l, h);
    if op.Clear? {
      NoKeys<K, V>();
    } else {
      WithoutKeys(h, op.key);
      PrefixKeys(h, |l|, op.key);
      PrefixWithout(h, |l|, op.key);
      if op.Insert? || (op.Lookup? && Has(l, op.key)) {
        FrontKeeps(h, l, if op.Insert? then KV(op.key, op.value) else h[Find(h, op.key)], op.key);
        PrunedPrefix([KV(op.key, if op.Insert? then op.value else h[Find(h, op.key)].value)] + l, maxSize, elasticity);
      }
    }
  }

  lemma Prefix<T>(l: seq<T>, h: seq<T>)
    requires PrefixOf(l, h)
    ensures |l| <= |h| && h[..|l|] == l
  {
  }

  lemma FrontKeeps<K, V>(h: seq<KV<K, V>>, l: seq<KV<K, V>>, e: KV<K, V>, k: K)
    requires DistinctKeys(h) && PrefixOf(l, h) && e.key == k
    ensures DistinctKeys([e] + Without(h, k))
    ensures PrefixOf([e] + Without(l, k), [e] + Without(h, k))
  {
    hide Find, Without, DistinctKeys, PrefixOf;
    Prefix(l, h);
    WithoutKeys(h, k);
    PrefixWithout(h, |l|, k);
    FrontKeys(e, Without(h, k));
    FrontPrefix(e, Without(l, k), Without(h, k));
  }

  lemma NoKeys<K, V>()
    ensures DistinctKeys<K, V>([]) && PrefixOf<KV<K, V>>([], [])
  {
  }

  lemma PrefixKeys<K, V>(h: seq<KV<K, V>>, n: nat, k: K)
    requires DistinctKeys(h) && n <= |h|
    ensures DistinctKeys(h[..n])
    ensures |Without(h[..n], k)| == if Has(h[..n], k) then n - 1 else n
    ensures !Has(h[..n], k) ==> Without(h[..n], k) == h[..n]
  {
    WithoutKeys(h[..n], k);
  }

  lemma FrontKeys<K, V>(e: KV<K, V>, l: seq<KV<K, V>>)
    requires DistinctKeys(l) && !Has(l, e.key)
    ensures DistinctKeys([e] + l)
  {
    hide Find;
  }

  lemma PrunedPrefix<K, V>(l: seq<KV<K, V>>, maxSize: u64, elasticity: u64)
    ensures forall h :: PrefixOf(l, h) ==> PrefixOf(Pruned(l, maxSize, elasticity), h)
  {
  }

  /** At least the maxSize most recent keys stay, unless keys are removed. */
  ghost predicate Full<K, V>(h: seq<KV<K, V>>, l: seq<KV<K, V>>, maxSize: u64) {
    |l| >= if |h| < maxSize then |h| else maxSize
  }

  lemma StepFull<K, V>(h: seq<KV<K, V>>, l: seq<KV<K, V>>, op: Op<K, V>, maxSize: u64, elasticity: u64)
    requires Keeps(h, l, maxSize, elasticity) && Full(h, l, maxSize) && !op.Remove?
    ensures Full(Used(h, l, op), Apply(l, op, maxSize, elasticity), maxSize)
  {
    hide Find, Without, DistinctKeys, PrefixOf, MaxAllowed;
    Prefix(l, h);
    if !op.Clear? {
      WithoutKeys(h, op.key);
      PrefixKeys(h, |l|, op.key);
      PrefixWithout(h, |l|, op.key);
    }
  }

  /** In every run the list is a prefix of the keys by recency, and with a soft limit its size
      is at most the soft limit or below the hard one. */
  lemma {:induction false} ListIsRecent<K, V>(ops: seq<Op<K, V>>, maxSize: u64, elasticity: u64)
    ensures Keeps(History(ops, maxSize, elasticity), Run(ops, maxSize, elasticity), maxSize, elasticity)
    ensures (forall op :: op in ops ==> !op.Remove?) ==>
      Full(History(ops, maxSize, elasticity), Run(ops, maxSize, elasticity), maxSize)
  {
    if ops != [] {
      var before, op := ops[..|ops| - 1], ops[|ops| - 1];
      ListIsRecent(before, maxSize, elasticity);
      StepKeeps(History(before, maxSize, elasticity), Run(before, maxSize, elasticity), op, maxSize, elasticity);
      if forall o :: o in ops ==> !o.Remove? {
        StepFull(History(before, maxSize, elasticity), Run(before, maxSize, elasticity), op, maxSize, elasticity);
      }
    }
  }

  // ----- nothing is dropped before the hard limit is reached

  function Least(a: nat, b: nat): nat {
    if a < b then a else b
  }

  /** What an insert makes of the list: a known key moves to the front, a new one is put there,
      and only a list that has reached the hard limit is cut, exactly to the soft one. */
  lemma InsertIs<K, V>(l: seq<KV<K, V>>, k: K, v: V, maxSize: u64, elasticity: u64)
    ensures var next := Apply(l, Insert(k, v), maxSize, elasticity);
      && (Has(l, k) ==> next == [KV(k, v)] + Without(l, k))
      && (!Has(l, k) && (maxSize == 0 || |l| + 1 < (maxSize + elasticity) % 0x1_0000_0000_0000_0000) ==>
            next == [KV(k, v)] + l)
      && (!Has(l, k) && maxSize > 0 && |l| + 1 >= (maxSize + elasticity) % 0x1_0000_0000_0000_0000 ==>
            next == ([KV(k, v)] + l)[..Least(maxSize, |l| + 1)])
  {
    hide Find;
  }

  ghost function KeySet<K, V>(l: seq<KV<K, V>>): set<K> {
    set i | 0 <= i < |l| :: l[i].key
  }

  lemma KeySetIs<K, V>(l: seq<KV<K, V>>)
    requires DistinctKeys(l)
    ensures |KeySet(l)| == |l|
    ensures forall k :: k in KeySet(l) ==> Has(l, k)
    ensures forall k :: Has(l, k) ==> k in KeySet(l)
  {
    hide Find;
    KeySetSize(l);
    forall k ensures k in KeySet(l) <==> Has(l, k) {
      if k in KeySet(l) {
        var i :| 0 <= i < |l| && l[i].key == k;
        InList(l, l[i]);
      }
    }
  }

  lemma {:induction false} KeySetSize<K, V>(l: seq<KV<K, V>>)
    requires DistinctKeys(l)
    ensures |KeySet(l)| == |l|
  {
    if l != [] {
      var n := |l| - 1;
      KeySetSize(l[..n]);
      assert KeySet(l) == KeySet(l[..n]) + {l[n].key} && l[n].key !in KeySet(l[..n]);
    }
  }

  /** The keys inserted by a sequence of operations. */
  ghost function Inserted<K, V>(ops: seq<Op<K, V>>): set<K> {
    set i | 0 <= i < |ops| && ops[i].Insert? :: ops[i].key
  }

  ghost predicate OnlyUses<K, V>(ops: seq<Op<K, V>>) {
    forall op :: op in ops ==> op.Insert? || op.Lookup?
  }

  /** A number of entries that the cache can hold. */
  ghost predicate Fits(n: nat, maxSize: u64, elasticity: u64) {
    maxSize == 0 || n <= maxSize || n < (maxSize + elasticity) % 0x1_0000_0000_0000_0000
  }

  /** One insert or lookup, as long as everything fits. */
  lemma StepHoldsAll<K, V>(l: seq<KV<K, V>>, op: Op<K, V>, maxSize: u64, elasticity: u64)
    requires DistinctKeys(l) && (op.Insert? || op.Lookup?)
    requires Fits(|KeySet(l) + if op.Insert? then {op.key} else {}|, maxSize, elasticity)
    ensures DistinctKeys(Apply(l, op, maxSize, elasticity))
    ensures KeySet(Apply(l, op, maxSize, elasticity)) == KeySet(l) + if op.Insert? then {op.key} else {}
  {
    hide Find, Without, Pruned, KeySet, DistinctKeys;
    var next := Apply(l, op, maxSize, elasticity);
    KeySetIs(l);
    WithoutKeys(l, op.key);
    if Has(l, op.key) {
      var front := if op.Insert? then KV(op.key, op.value) else l[Find(l, op.key)];
      FrontKeys(front, Without(l, op.key));
      assert next == [front] + Without(l, op.key);
      MovedKeys(l, front);
    } else if op.Insert? {
      InsertIs(l, op.key, op.value, maxSize, elasticity);
      FrontKeys(KV(op.key, op.value), l);
      NewKey(l, KV(op.key, op.value));
      KeySetIs([KV(op.key, op.value)] + l);
      assert next == [KV(op.key, op.value)] + l;
    }
  }

  lemma MovedKeys<K, V>(l: seq<KV<K, V>>, e: KV<K, V>)
    requires DistinctKeys(l) && Has(l, e.key)
    ensures KeySet([e] + Without(l, e.key)) == KeySet(l) + {e.key}
  {
    hide Find, Without, DistinctKeys;
    var w := Without(l, e.key);
    WithoutKeys(l, e.key);
    forall k | k in KeySet(l) + {e.key} ensures k in KeySet([e] + w) {
      if k != e.key {
        var i :| 0 <= i < |l| && l[i].key == k;
        var j :| 0 <= j < |w| && w[j] == l[i];
        assert ([e] + w)[j + 1].key == k;
      } else {
        assert ([e] + w)[0].key == k;
      }
    }
    forall k | k in KeySet([e] + w) ensures k in KeySet(l) + {e.key} {
      var i :| 0 <= i < |[e] + w| && ([e] + w)[i].key == k;
      if i > 0 {
        assert w[i - 1] in w;
        var j :| 0 <= j < |l| && l[j] == w[i - 1];
      }
    }
  }

  lemma NewKey<K, V>(l: seq<KV<K, V>>, e: KV<K, V>)
    ensures KeySet([e] + l) == KeySet(l) + {e.key}
  {
    forall k | k in KeySet(l) + {e.key} ensures k in KeySet([e] + l) {
      if k != e.key {
        var i :| 0 <= i < |l| && l[i].key == k;
        assert ([e] + l)[i + 1].key == k;
      } else {
        assert ([e] + l)[0].key == k;
      }
    }
    forall k | k in KeySet([e] + l) ensures k in KeySet(l) + {e.key} {
      var i :| 0 <= i < |[e] + l| && ([e] + l)[i].key == k;
      assert i > 0 ==> l[i - 1].key == k;
    }
  }

  /** From any reachable list on, through inserts and lookups, the cache keeps every key that it
      had or that was inserted exactly as long as all of them fit. */
  lemma {:induction false} HoldsAllIff<K, V>(before: seq<Op<K, V>>, more: seq<Op<K, V>>, maxSize: u64, elasticity: u64)
    requires OnlyUses(more)
    ensures var all := KeySet(Run(before, maxSize, elasticity)) + Inserted(more);
      KeySet(Run(before + more, maxSize, elasticity)) == all <==> Fits(|all|, maxSize, elasticity)
    ensures forall k :: k in KeySet(Run(before + more, maxSize, elasticity)) ==>
      Has(Run(before + more, maxSize, elasticity), k)
  {
    hide Run, Has, KeySet, Inserted, DistinctKeys, MaxAllowed, Fits;
    var all := KeySet(Run(before, maxSize, elasticity)) + Inserted(more);
    RunFits(before + more, maxSize, elasticity);
    KeySetIs(Run(before + more, maxSize, elasticity));
    if Fits(|all|, maxSize, elasticity) {
      HoldsAll(before, more, maxSize, elasticity);
    }
  }

  /** The list of every run fits. */
  lemma RunFits<K, V>(ops: seq<Op<K, V>>, maxSize: u64, elasticity: u64)
    ensures DistinctKeys(Run(ops, maxSize, elasticity))
    ensures Fits(|KeySet(Run(ops, maxSize, elasticity))|, maxSize, elasticity)
  {
    hide Run, History, KeySet, Find;
    ListIsRecent(ops, maxSize, elasticity);
    var h, l := History(ops, maxSize, elasticity), Run(ops, maxSize, elasticity);
    assert DistinctKeys(l);
    KeySetIs(l);
  }

  lemma {:induction false} HoldsAll<K, V>(before: seq<Op<K, V>>, more: seq<Op<K, V>>, maxSize: u64, elasticity: u64)
    requires OnlyUses(more)
    requires Fits(|KeySet(Run(before, maxSize, elasticity)) + Inserted(more)|, maxSize, elasticity)
    ensures KeySet(Run(before + more, maxSize, elasticity)) == KeySet(Run(before, maxSize, elasticity)) + Inserted(more)
  {
    hide Run, KeySet, DistinctKeys, Apply, Inserted, OnlyUses, Fits;
    if more == [] {
      NoneInserted<K, V>();
      assert before + more == before;
    } else {
      var less, op := more[..|more| - 1], more[|more| - 1];
      var held := KeySet(Run(before, maxSize, elasticity));
      InsertedStep(more, held);
      FitsLess(held + Inserted(less), held + Inserted(more), maxSize, elasticity);
      HoldsAll(before, less, maxSize, elasticity);
      RunFits(before + less, maxSize, elasticity);
      StepHoldsAll(Run(before + less, maxSize, elasticity), op, maxSize, elasticity);
      RunStep(before + less, op, maxSize, elasticity);
      assert before + less + [op] == before + more;
    }
  }

  lemma NoneInserted<K, V>()
    ensures Inserted<K, V>([]) == {}
  {
  }

  lemma InsertedStep<K, V>(ops: seq<Op<K, V>>, held: set<K>)
    requires ops != [] && OnlyUses(ops)
    ensures var less, op := ops[..|ops| - 1], ops[|ops| - 1];
      && OnlyUses(less) && (op.Insert? || op.Lookup?)
      && held + Inserted(ops) == (held + Inserted(less)) + if op.Insert? then {op.key} else {}
  {
    var less, op := ops[..|ops| - 1], ops[|ops| - 1];
    assert op in ops && forall o :: o in less ==> o in ops;
    assert Inserted(ops) == Inserted(less) + if op.Insert? then {op.key} else {};
  }

  lemma FitsLess<K>(a: set<K>, b: set<K>, maxSize: u64, elasticity: u64)
    requires a <= b && Fits(|b|, maxSize, elasticity)
    ensures Fits(|a|, maxSize, elasticity)
  {
    Smaller(a, b);
  }

  lemma Smaller<K>(a: set<K>, b: set<K>)
    requires a <= b
    ensures |a| <= |b|
  {
    assert b == a + (b - a);
  }

  lemma RunStep<K, V>(before: seq<Op<K, V>>, op: Op<K, V>, maxSize: u64, elasticity: u64)
    ensures Run(before + [op], maxSize, elasticity) == Apply(Run(before, maxSize, elasticity), op, maxSize, elasticity)
  {
    assert (before + [op])[..|before|] == before;
  }

  // ----- order

  /** An operation on a cache with list l inserts a key or hits it. */
  ghost predicate Uses<K, V>(op: Op<K, V>, l: seq<KV<K, V>>, k: K) {
    (op.Insert? && op.key == k) || (op.Lookup? && op.key == k && Has(l, k))
  }

  /** The operation that was the last insert or hit of a key, counted from 1; 0 for none. */
  ghost function LastUse<K, V>(ops: seq<Op<K, V>>, maxSize: u64, elasticity: u64, k: K): (n: nat)
    ensures n <= |ops|
  {
    if ops == [] then 0
    else
      var before, op := ops[..|ops| - 1], ops[|ops| - 1];
      if Uses(op, Run(before, maxSize, elasticity), k) then |ops|
      else LastUse(before, maxSize, elasticity, k)
  }

  /** Earlier entries were used later. */
  ghost predicate Falling<K, V>(l: seq<KV<K, V>>, ops: seq<Op<K, V>>, maxSize: u64, elasticity: u64) {
    forall i, j :: 0 <= i < j < |l| ==>
      LastUse(ops, maxSize, elasticity, l[j].key) < LastUse(ops, maxSize, elasticity, l[i].key)
  }

  lemma FallingWithout<K, V>(l: seq<KV<K, V>>, k: K, ops: seq<Op<K, V>>, maxSize: u64, elasticity: u64)
    requires Falling(l, ops, maxSize, elasticity)
    ensures Falling(Without(l, k), ops, maxSize, elasticity)
  {
    hide Find, LastUse;
    var i := Find(l, k);
    if i < |l| {
      assert forall j :: 0 <= j < |l| - 1 ==> Without(l, k)[j] == l[if j < i then j else j + 1];
    }
  }

  /** An operation changes the last use of no key but its own, and makes it the latest. */
  lemma LastUseStep<K, V>(ops: seq<Op<K, V>>, op: Op<K, V>, maxSize: u64, elasticity: u64, k: K)
    ensures LastUse(ops + [op], maxSize, elasticity, k) ==
      if Uses(op, Run(ops, maxSize, elasticity), k) then |ops| + 1
      else LastUse(ops, maxSize, elasticity, k)
  {
    assert (ops + [op])[..|ops|] == ops;
  }

  lemma FallingStep<K, V>(h: seq<KV<K, V>>, ops: seq<Op<K, V>>, op: Op<K, V>, maxSize: u64, elasticity: u64)
    requires Falling(h, ops, maxSize, elasticity) && Keeps(h, Run(ops, maxSize, elasticity), maxSize, elasticity)
    ensures Falling(Used(h, Run(ops, maxSize, elasticity), op), ops + [op], maxSize, elasticity)
  {
    hide Find, LastUse, Run, Without, PrefixOf, MaxAllowed;
    var l := Run(ops, maxSize, elasticity);
    var next := Used(h, l, op);
    forall k ensures LastUse(ops + [op], maxSize, elasticity, k) ==
      if Uses(op, l, k) then |ops| + 1
      else LastUse(ops, maxSize, elasticity, k)
    {
      LastUseStep(ops, op, maxSize, elasticity, k);
    }
    if !op.Clear? {
      WithoutKeys(h, op.key);
      FallingWithout(h, op.key, ops, maxSize, elasticity);
      Prefix(l, h);
      FindInPrefix(h, |l|, op.key);
      var w := Without(h, op.key);
      assert forall i :: 0 <= i < |w| ==> w[i] in w && w[i].key != op.key;
    }
  }

  /** In every run the keys seen are ordered by their last insert or hit, latest first. */
  lemma {:induction false} HistoryIsByUse<K, V>(ops: seq<Op<K, V>>, maxSize: u64, elasticity: u64)
    ensures Falling(History(ops, maxSize, elasticity), ops, maxSize, elasticity)
  {
    hide Falling, Used, LastUse, Run, Keeps;
    if ops != [] {
      var before, op := ops[..|ops| - 1], ops[|ops| - 1];
      HistoryIsByUse(before, maxSize, elasticity);
      ListIsRecent(before, maxSize, elasticity);
      FallingStep(History(before, maxSize, elasticity), before, op, maxSize, elasticity);
      assert before + [op] == ops;
    } else {
      NothingFalls<K, V>(maxSize, elasticity);
    }
  }

  lemma NothingFalls<K, V>(maxSize: u64, elasticity: u64)
    ensures Falling<K, V>([], [], maxSize, elasticity)
  {
  }

  // ----- values

  /** The value of the last insert of a key, if the key was not removed or cleared since. */
  ghost function LastInserted<K, V>(ops: seq<Op<K, V>>, k: K): Option<V> {
    if ops == [] then None
    else
      match ops[|ops| - 1]
      case Insert(k', v) => if k' == k then Some(v) else LastInserted(ops[..|ops| - 1], k)
      case Lookup(_) => LastInserted(ops[..|ops| - 1], k)
      case Remove(k') => if k' == k then None else LastInserted(ops[..|ops| - 1], k)
      case Clear => None
  }

  /** The history holds exactly the keys inserted and not removed, with their last values. */
  ghost predicate Current<K(!new), V>(h: seq<KV<K, V>>, ops: seq<Op<K, V>>) {
    && DistinctKeys(h)
    && (forall e :: e in h ==> LastInserted(ops, e.key) == Some(e.value))
    && (forall k :: LastInserted(ops, k).Some? ==> Has(h, k))
  }

  lemma {:induction false} HistoryIsCurrent<K(!new), V>(ops: seq<Op<K, V>>, maxSize: u64, elasticity: u64)
    ensures Current(History(ops, maxSize, elasticity), ops)
  {
    hide Current, Find, Used, LastInserted, Run;
    if ops != [] {
      var before, op := ops[..|ops| - 1], ops[|ops| - 1];
      var h, l := History(before, maxSize, elasticity), Run(before, maxSize, elasticity);
      HistoryIsCurrent(before, maxSize, elasticity);
      CurrentStep(h, l, before, op);
      assert before + [op] == ops;
    } else {
      NothingIsCurrent<K, V>();
    }
  }

  lemma NothingIsCurrent<K(!new), V>()
    ensures Current<K, V>([], [])
  {
  }

  lemma InList<K, V>(l: seq<KV<K, V>>, e: KV<K, V>)
    requires e in l
    ensures Has(l, e.key)
  {
    var i :| 0 <= i < |l| && l[i] == e;
  }

  lemma CurrentWithout<K(!new), V>(h: seq<KV<K, V>>, ops: seq<Op<K, V>>, later: seq<Op<K, V>>, k: K)
    requires Current(h, ops) && LastInserted(later, k) == None
    requires forall q :: q != k ==> LastInserted(later, q) == LastInserted(ops, q)
    ensures Current(Without(h, k), later)
  {
    hide Find, Without, DistinctKeys;
    WithoutKeys(h, k);
    forall q | LastInserted(later, q).Some? ensures Has(Without(h, k), q) {
      InList(Without(h, k), h[Find(h, q)]);
    }
  }

  lemma CurrentFront<K(!new), V>(h: seq<KV<K, V>>, ops: seq<Op<K, V>>, later: seq<Op<K, V>>, e: KV<K, V>)
    requires Current(h, ops) && LastInserted(later, e.key) == Some(e.value)
    requires forall q :: q != e.key ==> LastInserted(later, q) == LastInserted(ops, q)
    ensures Current([e] + Without(h, e.key), later)
  {
    hide Find, Without, DistinctKeys;
    var w := Without(h, e.key);
    WithoutKeys(h, e.key);
    FrontKeys(e, w);
    forall d | d in [e] + w ensures LastInserted(later, d.key) == Some(d.value) {
      assert d == e || d in w;
    }
    forall q | LastInserted(later, q).Some? ensures Has([e] + w, q) {
      var d := if q == e.key then e else h[Find(h, q)];
      assert d == e || d in w;
      InList([e] + w, d);
    }
  }

  lemma CurrentStep<K(!new), V>(h: seq<KV<K, V>>, l: seq<KV<K, V>>, ops: seq<Op<K, V>>, op: Op<K, V>)
    requires Current(h, ops)
    ensures Current(Used(h, l, op), ops + [op])
  {
    hide Find, Without, DistinctKeys;
    LastStep(ops, op);
    match op
    case Insert(k, v) => CurrentFront(h, ops, ops + [op], KV(k, v));
    case Lookup(k) =>
      if Has(h, k) {
        CurrentFront(h, ops, ops + [op], h[Find(h, k)]);
      }
    case Remove(k) => CurrentWithout(h, ops, ops + [op], k);
    case Clear => NoKeys<K, V>();
  }

  lemma LastStep<K(!new), V>(ops: seq<Op<K, V>>, op: Op<K, V>)
    ensures forall k :: op.Clear? || (op.Remove? && op.key == k) ==> LastInserted(ops + [op], k) == None
    ensures forall k :: op.Insert? && op.key == k ==> LastInserted(ops + [op], k) == Some(op.value)
    ensures forall k :: op.Lookup? || (!op.Clear? && op.key != k) ==>
      LastInserted(ops + [op], k) == LastInserted(ops, k)
  {
    assert (ops + [op])[..|ops|] == ops;
  }

  /** What a lookup returns in any run: a hit gives the key's last inserted value, and a key
      that is among the maxSize last used hits, if nothing was ever removed. */
  lemma HitsAreCurrent<K(!new), V>(ops: seq<Op<K, V>>, maxSize: u64, elasticity: u64, k: K)
    ensures var l := Run(ops, maxSize, elasticity);
      Has(l, k) ==> LastInserted(ops, k) == Some(l[Find(l, k)].value)
    ensures var h := History(ops, maxSize, elasticity);
      (forall op :: op in ops ==> !op.Remove?) && Has(h, k) && (maxSize == 0 || Find(h, k) < maxSize)
      ==> Has(Run(ops, maxSize, elasticity), k)
  {
    var h, l := History(ops, maxSize, elasticity), Run(ops, maxSize, elasticity);
    ListIsRecent(ops, maxSize, elasticity);
    HistoryIsCurrent(ops, maxSize, elasticity);
    assert l == h[..|l|];
    FindInPrefix(h, |l|, k);
    if Has(l, k) {
      assert l[Find(l, k)] in h;
    }
  }
}
