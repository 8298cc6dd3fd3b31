// xdp_progs/includes/hash_map.h: a hash map laid out in one byte buffer. Bucket i occupies
// the bytes from i * (4 + key_size + value_size): a 32-bit flag, the key, the value.

module HashMap {
  import opened Machine
  import opened MapRefinement
  import opened Probing

  // ----- layout

  lemma MulAbove(i: nat, j: nat, size: nat)
    requires i < j
    ensures i * size + size <= j * size
  {
    var k := j - i - 1;
    assert j * size == (i + 1 + k) * size == i * size + size + k * size;
    assert k * size >= 0;
  }

  /** Bytes [Offset(i), Offset(i) + size) of bucket i lie inside the buffer. */
  function Offset(i: nat, n: nat, size: nat): (off: nat)
    requires i < n
    ensures off + size <= n * size
  {
    MulAbove(i, n, size);
    i * size
  }

  lemma BucketsApart(i: nat, j: nat, n: nat, size: nat)
    requires i < n && j < n && i != j
    ensures Offset(i, n, size) + size <= Offset(j, n, size) || Offset(j, n, size) + size <= Offset(i, n, size)
  {
    if i < j {
      MulAbove(i, j, size);
    } else {
      MulAbove(j, i, size);
    }
  }

  /** The bucket encoded at an offset: empty if its flag word is 0. */
  ghost function BucketAt(b: Bytes, off: nat, keySize: nat, valueSize: nat): Bucket
    requires off + 4 + keySize + valueSize <= |b|
  {
    if b[off] == 0 && b[off + 1] == 0 && b[off + 2] == 0 && b[off + 3] == 0 then None
    else Some(Entry(b[off + 4..off + 4 + keySize], b[off + 4 + keySize..off + 4 + keySize + valueSize]))
  }

  ghost function TableOf(b: Bytes, n: nat, keySize: nat, valueSize: nat): (t: seq<Bucket>)
    requires |b| == n * (4 + keySize + valueSize)
    ensures |t| == n
    ensures forall i :: 0 <= i < n ==> t[i] == BucketAt(b, Offset(i, n, 4 + keySize + valueSize), keySize, valueSize)
  {
    seq(n, i requires 0 <= i < n => BucketAt(b, Offset(i, n, 4 + keySize + valueSize), keySize, valueSize))
  }

  /** Changing bytes of one bucket changes that bucket only. */
  lemma OneBucketChanges(b: Bytes, b': Bytes, i: nat, n: nat, keySize: nat, valueSize: nat)
    requires |b| == |b'| == n * (4 + keySize + valueSize) && i < n
    requires var off := Offset(i, n, 4 + keySize + valueSize);
      forall k :: 0 <= k < |b| && !(off <= k < off + 4 + keySize + valueSize) ==> b'[k] == b[k]
    ensures var off := Offset(i, n, 4 + keySize + valueSize);
      TableOf(b', n, keySize, valueSize)
        == TableOf(b, n, keySize, valueSize)[i := BucketAt(b', off, keySize, valueSize)]
  {
    hide Offset, BucketAt;
    var size := 4 + keySize + valueSize;
    var t, t' := TableOf(b, n, keySize, valueSize), TableOf(b', n, keySize, valueSize);
    forall j | 0 <= j < n && j != i
      ensures t'[j] == t[j]
    {
      BucketsApart(i, j, n, size);
      SameBucket(b, b', Offset(j, n, size), keySize, valueSize);
    }
  }

  lemma SameBucket(b: Bytes, b': Bytes, off: nat, keySize: nat, valueSize: nat)
    requires |b| == |b'| && off + 4 + keySize + valueSize <= |b|
    requires forall k :: off <= k < off + 4 + keySize + valueSize ==> b'[k] == b[k]
    ensures BucketAt(b', off, keySize, valueSize) == BucketAt(b, off, keySize, valueSize)
  {
    var key, value := off + 4, off + 4 + keySize;
    assert b'[key..value] == b[key..value];
    assert b'[value..value + valueSize] == b[value..value + valueSize];
  }

  lemma StepIs(t: seq<Bucket>, op: Op)
    requires |t| > 0
    ensures Step(t, op).0 == match op
      case OpUpdate(k, v) => Update(t, k, v).0
      case OpDelete(k) => Delete(t, k).0
      case OpLookup(_) => t
      case OpCount => t
  {
  }

  /** What a lookup in a table says about the map and the history that the table stands for. */
  lemma LookupIs(t: seq<Bucket>, ops: seq<Op>, key: Bytes)
    requires |t| > 0 && AllWritten(t, ops)
    ensures Lookup(t, key).Some? ==> OpUpdate(key, Lookup(t, key).value) in ops
    ensures ProbeInv(t) ==> Lookup(t, key) == Get(Abs(t), key)
  {
    if ProbeInv(t) {
      AbsLookup(t, key);
    }
  }

  class BpfHashMap {
    const numBuckets: nat
    const keySize: nat
    const valueSize: nat
    const data: array<byte>
    /** Every operation so far. */
    ghost var ops: seq<Op>

    /** Offsets are computed in 32 bits, so the buffer must be smaller than that. */
    ghost predicate Valid() {
      numBuckets > 0 && data.Length == numBuckets * (4 + keySize + valueSize) < TWO32
    }

    ghost function Table(): (t: seq<Bucket>)
      requires Valid()
      reads data
      ensures |t| == numBuckets
    {
      TableOf(data[..], numBuckets, keySize, valueSize)
    }

    /** In every reachable state the buffer decodes to what the operations make of an empty table. */
    ghost predicate Reached()
      reads this`ops, data
    {
      Valid() && Table() == Run(EmptyTable(numBuckets), ops).0
    }

    /** The map that the operations describe. */
    ghost function Model(): map<Bytes, Bytes>
      reads this`ops
    {
      RunMap(numBuckets, ops).0
    }

    /** Every delete so far freed a bucket that no other stored key's way crossed. */
    ghost predicate Safe()
      requires Valid()
      reads this`ops
    {
      SafeDeletes(numBuckets, ops)
    }

    /** As long as deletes are safe the buffer stands for the map, and over every history it
        holds only what was written. */
    lemma Refines()
      requires Reached()
      ensures Safe() ==> ProbeInv(Table()) && Abs(Table()) == Model()
      ensures AllWritten(Table(), ops)
    {
      if Safe() {
        RefinesMap(numBuckets, ops);
      }
      RunWritten(numBuckets, ops);
    }

    twostate lemma Recorded(op: Op)
      requires old(Reached()) && Valid() && ops == old(ops) + [op]
      requires Table() == Step(old(Table()), op).0
      ensures Reached()
    {
      RunSnoc(EmptyTable(numBuckets), old(ops), op);
    }

    /** DEFINE_BPFTIME_HASH_MAP: a zeroed buffer. */
    constructor (numBuckets: nat, keySize: nat, valueSize: nat)
      requires numBuckets > 0 && numBuckets * (4 + keySize + valueSize) < TWO32
      ensures Reached() && ops == [] && fresh(data) && Table() == EmptyTable(numBuckets)
      ensures this.numBuckets == numBuckets && this.keySize == keySize && this.valueSize == valueSize
    {
      this.numBuckets, this.keySize, this.valueSize := numBuckets, keySize, valueSize;
      data := new byte[numBuckets * (4 + keySize + valueSize)](_ => 0);
      ops := [];
      new;
      Zeroed();
    }

    lemma Zeroed()
      requires Valid() && ops == [] && forall k :: 0 <= k < data.Length ==> data[k] == 0
      ensures Reached() && Table() == EmptyTable(numBuckets)
    {
      hide Offset;
      forall i | 0 <= i < numBuckets ensures Table()[i] == None {
        assert data[..][GetElemOffset(i)] == 0;
      }
    }

    function GetElemOffset(index: nat): (off: nat)
      requires Valid() && index < numBuckets
      ensures off == Offset(index, numBuckets, 4 + keySize + valueSize) == index * (4 + keySize + valueSize)
      ensures off + 4 + keySize + valueSize <= data.Length
    {
      Offset(index, numBuckets, 4 + keySize + valueSize)
    }

    lemma SomeBuckets()
      requires Valid()
      ensures numBuckets > 0
    {
    }

    method HashFunc(key: Bytes) returns (hash: u32)
      ensures hash == Hash(key)
    {
      hash := 0;
      for i := 0 to |key|
        invariant hash == Hash(key[..i])
      {
        assert key[..i + 1][..i] == key[..i];
        hash := (hash * 31 + key[i]) % TWO32;
      }
      assert key[..|key|] == key;
    }

    method HomeIndex(key: Bytes) returns (index: nat)
      requires Valid()
      ensures index == Home(key, numBuckets)
    {
      var hash := HashFunc(key);
      index := hash % numBuckets;
    }

    method NextIndex(index: nat, ghost home: nat, ghost d: nat) returns (next: nat)
      requires Valid() && home < numBuckets && d < numBuckets && index == At(home, d, numBuckets)
      ensures next == At(home, d + 1, numBuckets)
      ensures next == home <==> d + 1 == numBuckets
    {
      AtNext(home, d, numBuckets);
      next := (index + 1) % numBuckets;
    }

    predicate IsEmpty(index: nat)
      requires Valid() && index < numBuckets
      reads data
      ensures IsEmpty(index) <==> Table()[index].None?
    {
      var off := GetElemOffset(index);
      data[off] == 0 && data[off + 1] == 0 && data[off + 2] == 0 && data[off + 3] == 0
    }

    /** The comparison loop over the bytes of a key. */
    method KeyMatches(index: nat, key: Bytes) returns (isMatch: bool)
      requires Valid() && index < numBuckets && |key| == keySize
      ensures var off := GetElemOffset(index);
        isMatch <==> data[off + 4..off + 4 + keySize] == key
      ensures Table()[index].Some? ==> (isMatch <==> Table()[index].value.key == key)
    {
      var elemKey := GetElemOffset(index) + 4;
      for i := 0 to keySize
        invariant forall k :: 0 <= k < i ==> data[elemKey + k] == key[k]
      {
        if data[elemKey + i] != key[i] {
          assert data[elemKey..elemKey + keySize][i] != key[i];
          return false;
        }
      }
      isMatch := true;
    }

    /** elem_lookup: the offset of the value, if the key is found. Over every history the value
        was written for that very key, and with safe deletes it is the map's. */
    method ElemLookup(key: Bytes) returns (value: Option<nat>)
      requires Reached() && |key| == keySize
      modifies this`ops
      ensures Reached() && ops == old(ops) + [OpLookup(key)]
      ensures value.Some? ==> value.value + valueSize <= data.Length
      ensures value.Some? ==> OpUpdate(key, data[value.value..value.value + valueSize]) in old(ops)
      ensures old(Safe()) ==> (value.Some? <==> key in old(Model()))
      ensures old(Safe()) && value.Some? ==> data[value.value..value.value + valueSize] == old(Model())[key]
    {
      hide Run, RunMap, Probe, Update, Delete, Lookup, Abs, ProbeInv, AllWritten, SafeDeletes, NoOtherCrosses;
      hide TableOf, Count, Step, BpfHashMap.Valid;
      SomeBuckets();
      Refines();
      value := FindValue(key);
      LookupIs(Table(), ops, key);
      ops := ops + [OpLookup(key)];
      StepIs(Table(), OpLookup(key));
      Recorded(OpLookup(key));
    }

    /** The probing loop of elem_lookup. */
    method FindValue(key: Bytes) returns (value: Option<nat>)
      requires Valid() && |key| == keySize
      ensures match Lookup(Table(), key)
        case None => value.None?
        case Some(v) => (value.Some? && value.value + valueSize <= data.Length
                         && data[value.value..value.value + valueSize] == v)
    {
      hide Home, At, Offset, TableOf, Hash, Probe, BpfHashMap.Valid, BpfHashMap.GetElemOffset;
      SomeBuckets();
      var startIndex := HomeIndex(key);
      var index := startIndex;
      ghost var d := 0;
      while true
        invariant d < numBuckets && index == At(startIndex, d, numBuckets)
        invariant Probe(Table(), key, d) == Probe(Table(), key, 0)
        decreases numBuckets - d
      {
        ProbeStep(Table(), key, d);
        if IsEmpty(index) {
          return None;
        }
        var isMatch := KeyMatches(index, key);
        if isMatch {
          return Some(ValueOffset(index));
        }
        index := NextIndex(index, startIndex, d);
        d := d + 1;
        if index == startIndex {
          break;
        }
      }
      value := None;
    }

    function ValueOffset(index: nat): (at: nat)
      requires Valid() && index < numBuckets
      reads data
      ensures at + valueSize <= data.Length
      ensures Table()[index].Some? ==> data[at..at + valueSize] == Table()[index].value.value
    {
      GetElemOffset(index) + 4 + keySize
    }

    /** elem_update: overwrites the key's bucket or the first empty one. With safe deletes it
        fails exactly when the key is absent and the map is full. */
    method ElemUpdate(key: Bytes, value: Bytes) returns (ok: bool)
      requires Reached() && |key| == keySize && |value| == valueSize
      modifies data, this`ops
      ensures Reached() && ops == old(ops) + [OpUpdate(key, value)]
      ensures (Table(), ok) == Update(old(Table()), key, value)
      ensures old(Safe()) ==> (ok <==> key in old(Model()) || |old(Model())| < numBuckets)
    {
      hide Run, RunMap, Probe, Update, Delete, Lookup, Abs, ProbeInv, AllWritten, SafeDeletes, NoOtherCrosses;
      hide TableOf, Count, Step, BpfHashMap.Valid;
      SomeBuckets();
      Refines();
      if Safe() {
        UpdateSucceeds(Table(), key, value);
      }
      ok := FindAndWrite(key, value);
      ops := ops + [OpUpdate(key, value)];
      StepIs(old(Table()), OpUpdate(key, value));
      Recorded(OpUpdate(key, value));
    }

    /** The probing loop of elem_update. */
    method FindAndWrite(key: Bytes, value: Bytes) returns (ok: bool)
      requires Valid() && |key| == keySize && |value| == valueSize
      modifies data
      ensures (Table(), ok) == Update(old(Table()), key, value)
    {
      hide Home, At, Offset, TableOf, Hash, Probe, BpfHashMap.Valid, BpfHashMap.GetElemOffset;
      SomeBuckets();
      var startIndex := HomeIndex(key);
      var index := startIndex;
      ghost var d := 0;
      while true
        invariant d < numBuckets && index == At(startIndex, d, numBuckets)
        invariant data[..] == old(data[..])
        invariant Probe(Table(), key, d) == Probe(Table(), key, 0)
        decreases numBuckets - d
      {
        ProbeStep(Table(), key, d);
        var isMatch := IsEmpty(index);
        if !isMatch {
          isMatch := KeyMatches(index, key);
        }
        if isMatch {
          WriteBucket(index, key, value);
          return true;
        }
        index := NextIndex(index, startIndex, d);
        d := d + 1;
        if index == startIndex {
          break;
        }
      }
      ok := false;
    }

    method WriteBucket(index: nat, key: Bytes, value: Bytes)
      requires Valid() && index < numBuckets && |key| == keySize && |value| == valueSize
      modifies data
      ensures Table() == old(Table())[index := Some(Entry(key, value))]
    {
      hide Offset, TableOf, BpfHashMap.Valid;
      var off := GetElemOffset(index);
      BufferSize();
      WriteBytes(off, key, value);
      OneBucketChanges(old(data[..]), data[..], index, numBuckets, keySize, valueSize);
      assert data[..][off + 4..off + 4 + keySize] == key;
      assert data[..][off + 4 + keySize..off + 4 + keySize + valueSize] == value;
    }

    lemma BufferSize()
      requires Valid()
      ensures data.Length == numBuckets * (4 + keySize + valueSize)
    {
    }

    /** The bytes of a filled bucket: the flag 1, the key and the value. */
    method WriteBytes(off: nat, key: Bytes, value: Bytes)
      requires off + 4 + |key| + |value| <= data.Length
      modifies data
      ensures data[off..off + 4] == [1, 0, 0, 0] && data[off + 4..off + 4 + |key|] == key
      ensures data[off + 4 + |key|..off + 4 + |key| + |value|] == value
      ensures forall k :: 0 <= k < data.Length && !(off <= k < off + 4 + |key| + |value|) ==> data[k] == old(data[k])
    {
      CopyIn(off + 4, key);
      CopyIn(off + 4 + |key|, value);
      SetFlag(off, 1);
    }

    method CopyIn(at: nat, bytes: Bytes)
      requires at + |bytes| <= data.Length
      modifies data
      ensures forall k :: 0 <= k < data.Length ==>
        data[k] == if at <= k < at + |bytes| then bytes[k - at] else old(data[k])
    {
      for i := 0 to |bytes|
        invariant forall k :: 0 <= k < data.Length ==>
          data[k] == if at <= k < at + i then bytes[k - at] else old(data[k])
      {
        data[at + i] := bytes[i];
      }
    }

    /** set_filled and set_empty: the 32-bit flag in host order. */
    method SetFlag(off: nat, flag: byte)
      requires off + 4 <= data.Length
      modifies data
      ensures forall k :: 0 <= k < data.Length ==>
        data[k] == (if k == off then flag else if off < k < off + 4 then 0 else old(data[k]))
    {
      data[off], data[off + 1], data[off + 2], data[off + 3] := flag, 0, 0, 0;
    }

    /** elem_delete. With safe deletes it succeeds exactly when the key is in the map; whether
        this delete is safe too is decided by NoOtherCrosses. */
    method ElemDelete(key: Bytes) returns (ok: bool)
      requires Reached() && |key| == keySize
      modifies data, this`ops
      ensures Reached() && ops == old(ops) + [OpDelete(key)]
      ensures (Table(), ok) == Delete(old(Table()), key)
      ensures old(Safe()) ==> (ok <==> key in old(Model()))
      ensures Safe() <==> old(Safe()) && NoOtherCrosses(old(Table()), key)
    {
      hide Run, RunMap, Probe, Update, Delete, Lookup, Abs, ProbeInv, AllWritten, SafeDeletes, NoOtherCrosses;
      hide TableOf, Count, Step, BpfHashMap.Valid;
      SomeBuckets();
      Refines();
      if Safe() {
        DeleteRefinesIff(Table(), key);
      }
      SafeStep(ops, key);
      ok := FindAndClear(key);
      ops := ops + [OpDelete(key)];
      StepIs(old(Table()), OpDelete(key));
      Recorded(OpDelete(key));
    }

    lemma SafeStep(before: seq<Op>, key: Bytes)
      requires Valid()
      ensures SafeDeletes(numBuckets, before + [OpDelete(key)]) <==>
        SafeDeletes(numBuckets, before) && NoOtherCrosses(Run(EmptyTable(numBuckets), before).0, key)
    {
      assert (before + [OpDelete(key)])[..|before|] == before;
    }

    /** The probing loop of elem_delete. */
    method FindAndClear(key: Bytes) returns (ok: bool)
      requires Valid() && |key| == keySize
      modifies data
      ensures (Table(), ok) == Delete(old(Table()), key)
    {
      hide Home, At, Offset, TableOf, Hash, Probe, BpfHashMap.Valid, BpfHashMap.GetElemOffset;
      SomeBuckets();
      var startIndex := HomeIndex(key);
      var index := startIndex;
      ghost var d := 0;
      while true
        invariant d < numBuckets && index == At(startIndex, d, numBuckets)
        invariant data[..] == old(data[..])
        invariant Probe(Table(), key, d) == Probe(Table(), key, 0)
        decreases numBuckets - d
      {
        ProbeStep(Table(), key, d);
        if IsEmpty(index) {
          return false;
        }
        var isMatch := KeyMatches(index, key);
        if isMatch {
          ClearBucket(index);
          return true;
        }
        index := NextIndex(index, startIndex, d);
        d := d + 1;
        if index == startIndex {
          break;
        }
      }
      ok := false;
    }

    method ClearBucket(index: nat)
      requires Valid() && index < numBuckets
      modifies data
      ensures Table() == old(Table())[index := None]
    {
      hide Offset, TableOf;
      SetFlag(GetElemOffset(index), 0);
      OneBucketChanges(old(data[..]), data[..], index, numBuckets, keySize, valueSize);
    }

    /** get_elem_count: with safe deletes the size of the map. */
    method GetElemCount() returns (count: nat)
      requires Reached()
      modifies this`ops
      ensures Reached() && ops == old(ops) + [OpCount]
      ensures count == Count(Table())
      ensures old(Safe()) ==> count == |old(Model())|
    {
      hide Run, RunMap, Probe, Update, Delete, Lookup, Abs, ProbeInv, AllWritten, SafeDeletes, NoOtherCrosses;
      hide TableOf, Count, Step, BpfHashMap.Valid;
      SomeBuckets();
      Refines();
      if Safe() {
        CountIsSize(Table());
      }
      count := CountFilled();
      ops := ops + [OpCount];
      StepIs(Table(), OpCount);
      Recorded(OpCount);
    }

    method CountFilled() returns (count: nat)
      requires Valid()
      ensures count == Count(Table())
    {
      hide Offset, TableOf;
      count := 0;
      ghost var t := Table();
      for i := 0 to numBuckets
        invariant count == Count(t[..i])
      {
        assert t[..i + 1][..i] == t[..i];
        if !IsEmpty(i) {
          count := count + 1;
        }
      }
      assert t[..numBuckets] == t;
    }
  }
}
