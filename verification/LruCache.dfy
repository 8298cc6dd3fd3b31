// module/LRUCache11.hpp: a list of entries, most recently used first, and an index from
// keys to positions in that list.

module LruCache {
  import opened Machine
  import opened Recency

  /** A list node. `id` stands for the iterator that points at it and stays valid when the
      node moves. */
  datatype Node<K, V> = Node(id: nat, key: K, value: V)

  datatype Result<V> = Value(value: V) | KeyNotFound

  ghost function Contents<K, V>(keys: seq<Node<K, V>>): (l: seq<KV<K, V>>)
    ensures |l| == |keys| && forall i :: 0 <= i < |l| ==> l[i] == KV(keys[i].key, keys[i].value)
  {
    seq(|keys|, i requires 0 <= i < |keys| => KV(keys[i].key, keys[i].value))
  }

  /** The index has exactly the keys of the list, each at its node. */
  ghost predicate Agree<K, V>(keys: seq<Node<K, V>>, cache: map<K, nat>) {
    && |cache| == |keys|
    && (forall n :: n in keys ==> n.key in cache && cache[n.key] == n.id)
    && (forall k :: k in cache ==> NodeFor(keys, k, cache[k]))
  }

  ghost predicate NodeFor<K, V>(keys: seq<Node<K, V>>, k: K, id: nat) {
    exists n :: n in keys && n.key == k && n.id == id
  }

  ghost predicate Ids<K, V>(keys: seq<Node<K, V>>, nextId: nat) {
    (forall n :: n in keys ==> n.id < nextId) && DistinctIds(keys)
  }

  ghost predicate DistinctIds<K, V>(keys: seq<Node<K, V>>) {
    forall i, j :: 0 <= i < j < |keys| ==> keys[i].id != keys[j].id
  }

  /** Where the node of an iterator is in the list. */
  function At<K, V>(keys: seq<Node<K, V>>, id: nat): (i: nat)
    requires exists i :: 0 <= i < |keys| && keys[i].id == id
    ensures i < |keys| && keys[i].id == id
  {
    if keys[0].id == id then 0 else 1 + At(keys[1..], id)
  }

  lemma AgreeIsFind<K, V>(keys: seq<Node<K, V>>, cache: map<K, nat>, nextId: nat, k: K)
    requires Agree(keys, cache) && Ids(keys, nextId)
    ensures DistinctKeys(Contents(keys))
    ensures k in cache <==> Has(Contents(keys), k)
    ensures k in cache ==>
      (exists i :: 0 <= i < |keys| && keys[i].id == cache[k]) && At(keys, cache[k]) == Find(Contents(keys), k)
  {
    hide Find;
    var l := Contents(keys);
    forall i, j | 0 <= i < j < |l| ensures l[i].key != l[j].key {
      assert keys[i] in keys && keys[j] in keys && keys[i].id != keys[j].id;
    }
    if k in cache {
      var n :| n in keys && n.key == k && n.id == cache[k];
      var i :| 0 <= i < |keys| && keys[i] == n;
      assert l[i].key == k;
    } else {
      assert forall i :: 0 <= i < |l| ==> keys[i] in keys && l[i].key != k;
    }
  }

  /** The list after node i has moved to the front with a value. */
  ghost function Spliced<K, V>(keys: seq<Node<K, V>>, i: nat, v: V): seq<Node<K, V>>
    requires i < |keys|
  {
    [keys[i].(value := v)] + Cut(keys, i)
  }

  lemma Members<T>(s: seq<T>, i: nat)
    requires i < |s|
    ensures forall x :: x in s ==> x == s[i] || x in Cut(s, i)
    ensures forall x :: x in Cut(s, i) ==> x in s
  {
    var cut := Cut(s, i);
    forall x | x in s ensures x == s[i] || x in cut {
      var j :| 0 <= j < |s| && s[j] == x;
      assert j < i ==> cut[j] == x;
      assert j > i ==> cut[j - 1] == x;
    }
  }

  lemma CutIds<K, V>(keys: seq<Node<K, V>>, i: nat)
    requires DistinctIds(keys) && i < |keys|
    ensures DistinctIds(Cut(keys, i)) && forall n :: n in Cut(keys, i) ==> n.id != keys[i].id
  {
    var cut := Cut(keys, i);
    assert forall j :: 0 <= j < |cut| ==> cut[j] == keys[if j < i then j else j + 1];
  }

  lemma FrontIds<K, V>(n: Node<K, V>, keys: seq<Node<K, V>>)
    requires DistinctIds(keys) && forall m :: m in keys ==> m.id != n.id
    ensures DistinctIds([n] + keys)
  {
    assert forall j :: 0 <= j < |keys| ==> keys[j] in keys;
  }

  lemma CutLength<T>(s: seq<T>, i: nat)
    requires i < |s|
    ensures |Cut(s, i)| == |s| - 1
  {
  }

  lemma SplicedContents<K, V>(keys: seq<Node<K, V>>, i: nat, v: V)
    requires i < |keys|
    ensures Contents(Spliced(keys, i, v)) == [KV(keys[i].key, v)] + Cut(Contents(keys), i)
  {
  }

  lemma MapSizes<K>(cache: map<K, nat>, k: K, id: nat)
    ensures k !in cache ==> |cache[k := id]| == |cache| + 1
    ensures k in cache ==> |cache - {k}| == |cache| - 1
  {
    if k in cache {
      assert cache.Keys == (cache - {k}).Keys + {k};
    } else {
      assert cache[k := id].Keys == cache.Keys + {k};
    }
  }

  lemma FrontFor<K, V>(keys: seq<Node<K, V>>, front: Node<K, V>, k: K, id: nat)
    requires NodeFor(keys, k, id) || (front.key == k && front.id == id)
    ensures NodeFor([front] + keys, k, id)
  {
    if front.key == k && front.id == id {
      assert front in [front] + keys;
    } else {
      var n :| n in keys && n.key == k && n.id == id;
      assert n in [front] + keys;
    }
  }

  lemma FrontAgrees<K, V>(keys: seq<Node<K, V>>, cache: map<K, nat>, nextId: nat, k: K, v: V)
    requires Agree(keys, cache) && Ids(keys, nextId) && k !in cache
    ensures Agree([Node(nextId, k, v)] + keys, cache[k := nextId]) && Ids([Node(nextId, k, v)] + keys, nextId + 1)
  {
    hide DistinctIds, NodeFor;
    var front := Node(nextId, k, v);
    var more, index := [front] + keys, cache[k := nextId];
    MapSizes(cache, k, nextId);
    FrontIds(front, keys);
    assert forall n :: n in more ==> n == front || n in keys;
    forall q | q in index.Keys ensures NodeFor(more, q, index[q]) {
      FrontFor(keys, front, q, index[q]);
    }
  }

  lemma FrontContents<K, V>(keys: seq<Node<K, V>>, n: Node<K, V>)
    ensures Contents([n] + keys) == [KV(n.key, n.value)] + Contents(keys)
  {
  }

  lemma CutFor<K, V>(keys: seq<Node<K, V>>, i: nat, k: K, id: nat)
    requires NodeFor(keys, k, id) && i < |keys| && keys[i].key != k
    ensures NodeFor(Cut(keys, i), k, id)
  {
    hide Cut;
    Members(keys, i);
    var n :| n in keys && n.key == k && n.id == id;
    assert n in Cut(keys, i);
  }

  lemma SplicedAgrees<K, V>(keys: seq<Node<K, V>>, cache: map<K, nat>, nextId: nat, i: nat, v: V)
    requires Agree(keys, cache) && Ids(keys, nextId) && i < |keys|
    ensures Agree(Spliced(keys, i, v), cache) && Ids(Spliced(keys, i, v), nextId)
  {
    hide Cut, DistinctIds, NodeFor;
    var cut, front := Cut(keys, i), keys[i].(value := v);
    assert keys[i] in keys;
    CutLength(keys, i);
    Members(keys, i);
    CutIds(keys, i);
    FrontIds(front, cut);
    assert forall n :: n in [front] + cut ==> n == front || n in cut;
    forall k | k in cache.Keys ensures NodeFor([front] + cut, k, cache[k]) {
      if k != front.key {
        CutFor(keys, i, k, cache[k]);
      }
      FrontFor(cut, front, k, cache[k]);
    }
  }

  lemma CutAgrees<K, V>(keys: seq<Node<K, V>>, cache: map<K, nat>, nextId: nat, i: nat)
    requires Agree(keys, cache) && Ids(keys, nextId) && i < |keys|
    ensures Agree(Cut(keys, i), cache - {keys[i].key}) && Ids(Cut(keys, i), nextId)
  {
    hide Cut, DistinctIds, NodeFor;
    var k := keys[i].key;
    CutLength(keys, i);
    assert keys[i] in keys;
    MapSizes(cache, k, 0);
    Members(keys, i);
    CutIds(keys, i);
    forall q | q in (cache - {k}).Keys ensures NodeFor(Cut(keys, i), q, cache[q]) {
      CutFor(keys, i, q, cache[q]);
    }
  }

  lemma CutContents<K, V>(keys: seq<Node<K, V>>, i: nat)
    requires i < |keys|
    ensures |Contents(keys)| == |keys| && Contents(Cut(keys, i)) == Cut(Contents(keys), i)
  {
  }

  lemma ContentsPrefix<K, V>(keys: seq<Node<K, V>>, n: nat)
    requires n <= |keys|
    ensures |Contents(keys)| == |keys| && Contents(keys[..n]) == Contents(keys)[..n]
  {
  }

  class Cache<K(==, !new), V> {
    var keys: seq<Node<K, V>>
    var cache: map<K, nat>
    var nextId: nat
    const maxSize: u64
    const elasticity: u64
    /** Every operation so far. */
    ghost var ops: seq<Op<K, V>>

    /** The index and the list agree, and the list is what the operations make of it. */
    ghost predicate Valid()
      reads this
    {
      Agree(keys, cache) && Ids(keys, nextId) && Contents(keys) == Run(ops, maxSize, elasticity)
    }

    constructor (maxSize: u64, elasticity: u64)
      ensures Valid() && ops == [] && this.maxSize == maxSize && this.elasticity == elasticity
    {
      keys, cache, nextId, ops := [], map[], 0, [];
      this.maxSize, this.elasticity := maxSize, elasticity;
    }

    /** The list, most recently used first. */
    ghost function List(): seq<KV<K, V>>
      reads this`keys
    {
      Contents(keys)
    }

    /** In every reachable state the list is the recent part of the history, within the limits,
        and the keys are ordered by their last insert or hit. */
    lemma Recent()
      requires Valid()
      ensures Keeps(History(ops, maxSize, elasticity), List(), maxSize, elasticity)
      ensures (forall op :: op in ops ==> !op.Remove?) ==> Full(History(ops, maxSize, elasticity), List(), maxSize)
      ensures Falling(List(), ops, maxSize, elasticity)
    {
      hide Run, History, LastUse, Contents;
      ListIsRecent(ops, maxSize, elasticity);
      HistoryIsByUse(ops, maxSize, elasticity);
    }

    lemma Record(before: seq<Op<K, V>>, op: Op<K, V>)
      requires ops == before + [op]
      ensures Run(ops, maxSize, elasticity) == Apply(Run(before, maxSize, elasticity), op, maxSize, elasticity)
    {
      assert ops[..|before|] == before;
    }

    /** clear() */
    method Clear()
      requires Valid()
      modifies this
      ensures Valid() && ops == old(ops) + [Op.Clear] && List() == []
    {
      cache := map[];
      keys := [];
      ops := ops + [Op.Clear];
      Record(old(ops), Op.Clear);
    }

    /** insert(): a known key gets the value and moves to the front. A new one is put there, and
        only a list that has reached the hard limit is cut, exactly to the soft one. */
    method Insert(k: K, v: V)
      requires Valid()
      modifies this
      ensures Valid() && ops == old(ops) + [Op.Insert(k, v)]
      ensures Has(old(List()), k) ==> List() == [KV(k, v)] + Without(old(List()), k)
      ensures (
        && !Has(old(List()), k)
        && (maxSize == 0 || |old(List())| + 1 < (maxSize + elasticity) % 0x1_0000_0000_0000_0000)
      ) ==> List() == [KV(k, v)] + old(List())
      ensures (
        && !Has(old(List()), k)
        && maxSize > 0 && |old(List())| + 1 >= (maxSize + elasticity) % 0x1_0000_0000_0000_0000
      ) ==> List() == ([KV(k, v)] + old(List()))[..Least(maxSize, |old(List())| + 1)]
    {
      hide Agree, Ids, Contents, Run, Pruned, Find;
      InsertIs(List(), k, v, maxSize, elasticity);
      ops := ops + [Op.Insert(k, v)];
      Record(old(ops), Op.Insert(k, v));
      AgreeIsFind(keys, cache, nextId, k);
      if k in cache {
        var i := At(keys, cache[k]);
        SplicedAgrees(keys, cache, nextId, i, v);
        SplicedContents(keys, i, v);
        keys := [keys[i].(value := v)] + (keys[..i] + keys[i + 1..]);
        return;
      }
      FrontAgrees(keys, cache, nextId, k, v);
      FrontContents(keys, Node(nextId, k, v));
      keys := [Node(nextId, k, v)] + keys;
      cache := cache[k := nextId];
      nextId := nextId + 1;
      var _ := Prune();
    }

    /** prune(): the number of entries dropped from the back. */
    method Prune() returns (count: nat)
      requires Agree(keys, cache) && Ids(keys, nextId)
      modifies this`keys, this`cache
      ensures Agree(keys, cache) && Ids(keys, nextId)
      ensures List() == Pruned(old(List()), maxSize, elasticity) && count == |old(keys)| - |keys|
      ensures maxSize == 0 || |old(List())| < (maxSize + elasticity) % 0x1_0000_0000_0000_0000 ==>
        List() == old(List()) && count == 0
      ensures maxSize > 0 && |old(List())| >= (maxSize + elasticity) % 0x1_0000_0000_0000_0000 ==>
        List() == old(List())[..Least(maxSize, |old(List())|)]
    {
      hide Agree, Ids, Contents;
      var maxAllowed := MaxAllowed(maxSize, elasticity);
      Sizes();
      if maxSize == 0 || |cache| < maxAllowed {
        return 0;
      }
      count := 0;
      while |cache| > maxSize
        invariant Agree(keys, cache) && Ids(keys, nextId) && |cache| == |keys|
        invariant |keys| <= |old(keys)| && keys == old(keys)[..|keys|]
        invariant |old(keys)| > maxSize ==> |keys| >= maxSize
        invariant count == |old(keys)| - |keys| && (|old(keys)| <= maxSize ==> count == 0)
        decreases |keys|
      {
        CutAgrees(keys, cache, nextId, |keys| - 1);
        assert Cut(keys, |keys| - 1) == keys[..|keys| - 1];
        cache := cache - {keys[|keys| - 1].key};
        keys := keys[..|keys| - 1];
        count := count + 1;
        Sizes();
      }
      ContentsPrefix(old(keys), |keys|);
    }

    lemma Sizes()
      requires Agree(keys, cache)
      ensures |cache| == |keys| == |Contents(keys)|
    {
    }

    /** tryGetRef_nolock(): on a miss the caller's variable `vOut0` stays. */
    method TryGet(k: K, vOut0: V) returns (found: bool, vOut: V)
      requires Valid()
      modifies this
      ensures Valid() && ops == old(ops) + [Lookup(k)]
      ensures found <==> Has(old(List()), k)
      ensures vOut == if found then old(List())[Find(old(List()), k)].value else vOut0
      ensures List() == if found then [KV(k, vOut)] + Without(old(List()), k) else old(List())
      ensures found ==> LastInserted(old(ops), k) == Some(vOut)
    {
      hide Agree, Ids, Contents, Run, Pruned, Find, LastInserted;
      ops := ops + [Lookup(k)];
      Record(old(ops), Lookup(k));
      AgreeIsFind(keys, cache, nextId, k);
      HitsAreCurrent(old(ops), maxSize, elasticity, k);
      if k !in cache {
        return false, vOut0;
      }
      var i := At(keys, cache[k]);
      SplicedAgrees(keys, cache, nextId, i, keys[i].value);
      SplicedContents(keys, i, keys[i].value);
      ContentsAt(keys, i);
      keys := [keys[i]] + (keys[..i] + keys[i + 1..]);
      return true, keys[0].value;
    }

    lemma ContentsAt(keys: seq<Node<K, V>>, i: nat)
      requires i < |keys|
      ensures Contents(keys)[i] == KV(keys[i].key, keys[i].value)
    {
    }

    /** get_nolock(): like TryGet, but a miss is an error. */
    method Get(k: K) returns (r: Result<V>)
      requires Valid()
      modifies this
      ensures Valid() && ops == old(ops) + [Lookup(k)]
      ensures r.Value? <==> Has(old(List()), k)
      ensures List() == if r.Value? then [KV(k, r.value)] + Without(old(List()), k) else old(List())
      ensures r.Value? ==> LastInserted(old(ops), k) == Some(r.value)
    {
      hide Agree, Ids, Contents, Run, Pruned, Find, LastInserted;
      ops := ops + [Lookup(k)];
      Record(old(ops), Lookup(k));
      AgreeIsFind(keys, cache, nextId, k);
      HitsAreCurrent(old(ops), maxSize, elasticity, k);
      if k !in cache {
        return KeyNotFound;
      }
      var i := At(keys, cache[k]);
      SplicedAgrees(keys, cache, nextId, i, keys[i].value);
      SplicedContents(keys, i, keys[i].value);
      ContentsAt(keys, i);
      keys := [keys[i]] + (keys[..i] + keys[i + 1..]);
      return Value(keys[0].value);
    }

    /** remove() */
    method Remove(k: K) returns (removed: bool)
      requires Valid()
      modifies this
      ensures Valid() && ops == old(ops) + [Op.Remove(k)] && List() == Without(old(List()), k)
      ensures removed <==> Has(old(List()), k)
    {
      hide Agree, Ids, Contents, Run, Pruned, Find;
      ops := ops + [Op.Remove(k)];
      Record(old(ops), Op.Remove(k));
      AgreeIsFind(keys, cache, nextId, k);
      if k !in cache {
        return false;
      }
      var i := At(keys, cache[k]);
      CutAgrees(keys, cache, nextId, i);
      CutContents(keys, i);
      KeyAt(i, k);
      keys := keys[..i] + keys[i + 1..];
      cache := cache - {k};
      return true;
    }

    lemma KeyAt(i: nat, k: K)
      requires Agree(keys, cache) && Ids(keys, nextId) && k in cache && i < |keys| && keys[i].id == cache[k]
      ensures keys[i].key == k
    {
    }

    method Contains(k: K) returns (found: bool)
      requires Valid()
      ensures found <==> Has(List(), k)
    {
      AgreeIsFind(keys, cache, nextId, k);
      found := k in cache;
    }

    /** size(): within the limits in every reachable state. */
    method Size() returns (n: nat)
      requires Valid()
      ensures n == |List()|
      ensures maxSize > 0 ==> n <= maxSize || n < MaxAllowed(maxSize, elasticity)
    {
      Recent();
      n := |cache|;
    }
  }
}
