// Longest-prefix match on bit strings, and what a history of puts stores.

module Prefixes {
  import opened Machine

  type Bits = seq<bool>

  function Pow2(n: nat): (r: nat)
    ensures r > 0
  {
    if n == 0 then 1 else 2 * Pow2(n - 1)
  }

  /** Bit i of an address in network order: `(ip[i / 8] >> (7 - i % 8)) & 1`. */
  function Bit(ip: seq<byte>, i: nat): bool
    requires i < 8 * |ip|
  {
    ip[i / 8] / Pow2(7 - i % 8) % 2 > 0
  }

  lemma BitAt(ip: seq<byte>, i: nat, u: nat)
    requires i < |ip| && u <= 7
    ensures Bit(ip, 8 * i + 7 - u) == (ip[i] / Pow2(u) % 2 > 0)
  {
    hide Pow2;
    var n := 8 * i + 7 - u;
    assert n / 8 == i && n % 8 == 7 - u;
  }

  ghost function BitsOf(ip: seq<byte>, n: nat): (r: Bits)
    requires n <= 8 * |ip|
    ensures |r| == n && forall i :: 0 <= i < n ==> r[i] == Bit(ip, i)
  {
    seq(n, i requires 0 <= i < n => Bit(ip, i))
  }

  // ----- what the bits say of the bytes

  lemma PowersOfTwo()
    ensures Pow2(0) == 1 && Pow2(1) == 2 && Pow2(2) == 4 && Pow2(3) == 8
    ensures Pow2(4) == 16 && Pow2(5) == 32 && Pow2(6) == 64 && Pow2(7) == 128
  {
    assert Pow2(3) == 8;
    assert Pow2(5) == 32;
  }

  /** The k high bits of a byte. */
  function High(x: byte, k: nat): nat
    requires k <= 8
  {
    match k
    case 0 => 0
    case 1 => x / 128
    case 2 => x / 64
    case 3 => x / 32
    case 4 => x / 16
    case 5 => x / 8
    case 6 => x / 4
    case 7 => x / 2
    case _ => x
  }

  lemma HighStep(x: byte, k: nat)
    requires k < 8
    ensures High(x, k + 1) / 2 == High(x, k)
  {
  }

  /** Bit j of byte k, the first one being the highest. */
  lemma BitIsHigh(ip: seq<byte>, k: nat, j: nat)
    requires k < |ip| && j < 8
    ensures Bit(ip, 8 * k + j) <==> High(ip[k], j + 1) % 2 == 1
  {
    hide Pow2, Bit;
    PowersOfTwo();
    BitAt(ip, k, 7 - j);
    assert 8 * k + 7 - (7 - j) == 8 * k + j;
  }

  function BitIn(ip: seq<byte>, k: nat, j: nat): bool
    requires k < |ip| && j < 8
  {
    Bit(ip, 8 * k + j)
  }

  lemma {:induction false} HighBits(a: seq<byte>, b: seq<byte>, k: nat, n: nat)
    requires k < |a| && k < |b| && n <= 8
    ensures High(a[k], n) == High(b[k], n) <==> forall j :: 0 <= j < n ==> BitIn(a, k, j) == BitIn(b, k, j)
  {
    hide Bit, High;
    if n == 0 {
      NoHighBits(a[k], b[k]);
    } else {
      HighBits(a, b, k, n - 1);
      HighStep(a[k], n - 1);
      HighStep(b[k], n - 1);
      BitIsHigh(a, k, n - 1);
      BitIsHigh(b, k, n - 1);
      assert BitIn(a, k, n - 1) == BitIn(b, k, n - 1) <==> High(a[k], n) % 2 == High(b[k], n) % 2;
    }
  }

  lemma NoHighBits(x: byte, y: byte)
    ensures High(x, 0) == High(y, 0)
  {
  }

  function One(b: bool): nat {
    if b then 1 else 0
  }

  /** A byte is its eight bits, the first one weighing 128 and the last one 1. */
  lemma ByteIsItsBits(ip: seq<byte>, k: nat)
    requires k < |ip|
    ensures ip[k] == 128 * One(Bit(ip, 8 * k)) + 64 * One(Bit(ip, 8 * k + 1)) + 32 * One(Bit(ip, 8 * k + 2))
      + 16 * One(Bit(ip, 8 * k + 3)) + 8 * One(Bit(ip, 8 * k + 4)) + 4 * One(Bit(ip, 8 * k + 5))
      + 2 * One(Bit(ip, 8 * k + 6)) + One(Bit(ip, 8 * k + 7))
  {
    hide Bit, High;
    HighEnds(ip[k]);
    OneMoreBit(ip, k, 0); OneMoreBit(ip, k, 1); OneMoreBit(ip, k, 2); OneMoreBit(ip, k, 3);
    OneMoreBit(ip, k, 4); OneMoreBit(ip, k, 5); OneMoreBit(ip, k, 6); OneMoreBit(ip, k, 7);
  }

  lemma HighEnds(x: byte)
    ensures High(x, 0) == 0 && High(x, 8) == x
  {
  }

  lemma OneMoreBit(ip: seq<byte>, k: nat, j: nat)
    requires k < |ip| && j < 8
    ensures High(ip[k], j + 1) == 2 * High(ip[k], j) + One(Bit(ip, 8 * k + j))
  {
    hide Bit, High;
    HighStep(ip[k], j);
    BitIsHigh(ip, k, j);
  }

  /** Two addresses agree on their first n bits: on whole bytes, and on the high bits of the next. */
  predicate SamePrefix(a: seq<byte>, b: seq<byte>, n: nat)
    requires n <= 8 * |a| && n <= 8 * |b|
  {
    a[..n / 8] == b[..n / 8] && (n % 8 != 0 ==> High(a[n / 8], n % 8) == High(b[n / 8], n % 8))
  }

  lemma SamePrefixIsSameBits(a: seq<byte>, b: seq<byte>, n: nat)
    requires n <= 8 * |a| && n <= 8 * |b|
    ensures SamePrefix(a, b, n) <==> BitsOf(a, n) == BitsOf(b, n)
  {
    hide Bit, High;
    var m, r := n / 8, n % 8;
    if SamePrefix(a, b, n) {
      forall i | 0 <= i < n ensures Bit(a, i) == Bit(b, i) {
        SameBit(a, b, n, i);
      }
    }
    if BitsOf(a, n) == BitsOf(b, n) {
      forall i | 0 <= i < n ensures Bit(a, i) == Bit(b, i) {
        assert BitsOf(a, n)[i] == BitsOf(b, n)[i];
      }
      forall k | 0 <= k < m ensures a[k] == b[k] {
        HighBits(a, b, k, 8);
        HighEnds(a[k]);
        HighEnds(b[k]);
      }
      if r != 0 {
        HighBits(a, b, m, r);
      }
    }
  }

  lemma SameBit(a: seq<byte>, b: seq<byte>, n: nat, i: nat)
    requires i < n <= 8 * |a| && n <= 8 * |b| && SamePrefix(a, b, n)
    ensures Bit(a, i) == Bit(b, i)
  {
    hide Bit, High;
    var k, j := i / 8, i % 8;
    if k < n / 8 {
      assert a[k] == a[..n / 8][k] == b[..n / 8][k] == b[k];
      BitIsHigh(a, k, j);
      BitIsHigh(b, k, j);
    } else {
      HighBits(a, b, k, n % 8);
      assert BitIn(a, k, j) == BitIn(b, k, j);
    }
  }

  /** The bits of an address determine it. */
  lemma BitsDetermine(a: seq<byte>, b: seq<byte>)
    requires |a| == |b| && BitsOf(a, 8 * |a|) == BitsOf(b, 8 * |b|)
    ensures a == b
  {
    SamePrefixIsSameBits(a, b, 8 * |a|);
    assert a[..|a|] == a && b[..|a|] == b;
  }

  // ----- the longest match

  /** The length of the longest non-empty prefix of an address that the table knows. */
  ghost function Longest(table: map<Bits, int>, bits: Bits): Option<nat> {
    if bits == [] then None
    else if bits in table then Some(|bits|)
    else Longest(table, bits[..|bits| - 1])
  }

  lemma {:induction false} LongestIsLongest(table: map<Bits, int>, bits: Bits)
    ensures match Longest(table, bits)
      case Some(k) => 0 < k <= |bits| && bits[..k] in table && forall n :: k < n <= |bits| ==> bits[..n] !in table
      case None => forall n :: 0 < n <= |bits| ==> bits[..n] !in table
  {
    if bits != [] && bits !in table {
      var s := bits[..|bits| - 1];
      LongestIsLongest(table, s);
      assert bits[..|bits|] == bits;
      assert forall n :: 0 <= n <= |s| ==> bits[..n] == s[..n];
    } else if bits != [] {
      assert bits[..|bits|] == bits;
    }
  }

  lemma LongestStep(table: map<Bits, int>, bits: Bits, n: nat)
    requires n < |bits|
    ensures Longest(table, bits[..n + 1]) == if bits[..n + 1] in table then Some(n + 1) else Longest(table, bits[..n])
  {
    assert bits[..n + 1][..n] == bits[..n];
  }

  /** Where no longer prefix is known, the longest match is the one found so far. */
  lemma {:induction false} LongestStops(table: map<Bits, int>, bits: Bits, n: nat)
    requires n <= |bits| && forall k :: n < k <= |bits| ==> bits[..k] !in table
    ensures Longest(table, bits) == Longest(table, bits[..n])
  {
    assert bits[..|bits|] == bits;
    if n < |bits| {
      var s := bits[..|bits| - 1];
      assert forall k :: 0 <= k <= |s| ==> s[..k] == bits[..k];
      LongestStops(table, s, n);
    }
  }

  // ----- histories

  datatype PutRec = PutRec(prefix: Bits, value: int)

  /** trie_node_put as an operation on the table: the first value stays, an empty prefix
      stores nothing. */
  ghost function PutInto(table: map<Bits, int>, p: PutRec): map<Bits, int> {
    if p.prefix == [] || p.prefix in table then table else table[p.prefix := p.value]
  }

  ghost function TableAfter(puts: seq<PutRec>): map<Bits, int> {
    if puts == [] then map[] else PutInto(TableAfter(puts[..|puts| - 1]), puts[|puts| - 1])
  }

  lemma EmptyPut(table: map<Bits, int>, p: PutRec)
    ensures p.prefix == [] ==> PutInto(table, p) == table
  {
  }

  lemma TableStep(puts: seq<PutRec>, p: PutRec)
    ensures TableAfter(puts + [p]) == PutInto(TableAfter(puts), p)
  {
    assert (puts + [p])[..|puts|] == puts;
  }

  /** The index of the first put of a prefix. */
  ghost predicate FirstPut(puts: seq<PutRec>, prefix: Bits, j: nat): (r: bool)
    ensures r ==> j < |puts| && puts[j].prefix == prefix
  {
    j < |puts| && puts[j].prefix == prefix && forall i :: 0 <= i < j ==> puts[i].prefix != prefix
  }

  lemma {:induction false} FirstPutWins(puts: seq<PutRec>, prefix: Bits)
    ensures prefix in TableAfter(puts) <==> prefix != [] && exists j: nat :: FirstPut(puts, prefix, j)
    ensures prefix in TableAfter(puts) ==>
      exists j: nat :: FirstPut(puts, prefix, j) && TableAfter(puts)[prefix] == puts[j].value
  {
    if puts != [] {
      var before, p := puts[..|puts| - 1], puts[|puts| - 1];
      FirstPutWins(before, prefix);
      forall j: nat | j < |before|
        ensures FirstPut(puts, prefix, j) <==> FirstPut(before, prefix, j)
      {
        assert forall i :: 0 <= i < |before| ==> before[i] == puts[i];
      }
      if p.prefix == prefix && prefix != [] && prefix !in TableAfter(before) {
        assert FirstPut(puts, prefix, |before|) by {
          if i :| 0 <= i < |before| && puts[i].prefix == prefix {
            FirstExists(before, prefix, i);
          }
        }
      }
    }
  }

  lemma {:induction false} FirstExists(puts: seq<PutRec>, prefix: Bits, i: nat)
    requires i < |puts| && puts[i].prefix == prefix
    ensures exists j: nat :: FirstPut(puts, prefix, j)
  {
    if k :| 0 <= k < i && puts[k].prefix == prefix {
      FirstExists(puts, prefix, k);
    } else {
      assert FirstPut(puts, prefix, i);
    }
  }

  // ----- histories of puts, on the bytes

  /** One call of trie_node_put. */
  datatype Route = Route(ip: seq<byte>, cidr: byte, asn: int)

  ghost predicate Recorded(routes: seq<Route>, puts: seq<PutRec>) {
    && |routes| == |puts|
    && forall i :: 0 <= i < |routes| ==>
      routes[i].cidr <= 8 * |routes[i].ip| && puts[i] == PutRec(BitsOf(routes[i].ip, routes[i].cidr), routes[i].asn)
  }

  /** The address lies in the network of a route. */
  ghost predicate InNetwork(r: Route, ip: seq<byte>, ln: nat)
    requires r.cidr <= 8 * |r.ip| && ln <= |ip|
  {
    r.cidr <= 8 * ln && SamePrefix(r.ip, ip, r.cidr)
  }

  ghost predicate SameNetwork(r: Route, q: Route)
    requires r.cidr <= 8 * |r.ip| && q.cidr <= 8 * |q.ip|
  {
    r.cidr == q.cidr && SamePrefix(r.ip, q.ip, r.cidr)
  }

  /** Route j is the answer for an address: its network is not everything and has the address, no
      longer network has it, and no earlier route is for the same network. */
  ghost predicate BestRoute(routes: seq<Route>, ip: seq<byte>, ln: nat, j: nat)
    requires ln <= |ip| && forall i :: 0 <= i < |routes| ==> routes[i].cidr <= 8 * |routes[i].ip|
  {
    && j < |routes| && routes[j].cidr > 0 && InNetwork(routes[j], ip, ln)
    && (forall i :: 0 <= i < |routes| && InNetwork(routes[i], ip, ln) ==> routes[i].cidr <= routes[j].cidr)
    && (forall i :: 0 <= i < j ==> !SameNetwork(routes[i], routes[j]))
  }

  lemma BitsPrefix(ip: seq<byte>, n: nat, m: nat)
    requires n <= m <= 8 * |ip|
    ensures BitsOf(ip, m)[..n] == BitsOf(ip, n)
  {
  }

  lemma PrefixIsNetwork(r: Route, ip: seq<byte>, ln: nat)
    requires r.cidr <= 8 * |r.ip| && ln <= |ip|
    ensures InNetwork(r, ip, ln) <==> BitsOf(r.ip, r.cidr) <= BitsOf(ip, 8 * ln)
  {
    hide Bit, SamePrefix;
    if r.cidr <= 8 * ln {
      BitsPrefix(ip, r.cidr, 8 * ln);
      SamePrefixIsSameBits(r.ip, ip, r.cidr);
    }
  }

  /** The answer on bit strings is the answer on the bytes of the routes. */
  lemma AnswersIsBestRoute(routes: seq<Route>, puts: seq<PutRec>, ip: seq<byte>, ln: nat, j: nat)
    requires Recorded(routes, puts) && ln <= |ip|
    ensures Answers(puts, BitsOf(ip, 8 * ln), j) <==> BestRoute(routes, ip, ln, j)
    ensures Answers(puts, BitsOf(ip, 8 * ln), j) ==> j < |routes| && routes[j].asn == puts[j].value
  {
    hide Bit, BitsOf, SamePrefix;
    forall i | 0 <= i < |routes|
      ensures InNetwork(routes[i], ip, ln) <==> puts[i].prefix <= BitsOf(ip, 8 * ln)
      ensures |puts[i].prefix| == routes[i].cidr
    {
      PrefixIsNetwork(routes[i], ip, ln);
    }
    if j < |routes| {
      forall i | 0 <= i < |routes|
        ensures SameNetwork(routes[i], routes[j]) <==> puts[i].prefix == puts[j].prefix
      {
        if routes[i].cidr == routes[j].cidr {
          SamePrefixIsSameBits(routes[i].ip, routes[j].ip, routes[i].cidr);
        }
      }
    }
  }

  lemma RecordedFits(routes: seq<Route>, puts: seq<PutRec>)
    requires Recorded(routes, puts)
    ensures forall r :: r in routes ==> r.cidr <= 8 * |r.ip|
  {
  }

  /** A non-empty put prefix matches exactly when a network other than everything has the address. */
  lemma RoutesFound(routes: seq<Route>, puts: seq<PutRec>, ip: seq<byte>, ln: nat)
    requires Recorded(routes, puts) && ln <= |ip| && forall r :: r in routes ==> r.cidr <= 8 * |r.ip|
    ensures (exists r :: r in routes && r.cidr > 0 && InNetwork(r, ip, ln)) <==>
      exists i :: 0 <= i < |puts| && puts[i].prefix != [] && puts[i].prefix <= BitsOf(ip, 8 * ln)
  {
    hide Bit, InNetwork;
    forall i | 0 <= i < |routes|
      ensures InNetwork(routes[i], ip, ln) <==> puts[i].prefix <= BitsOf(ip, 8 * ln)
      ensures puts[i].prefix != [] <==> routes[i].cidr > 0
    {
      PrefixIsNetwork(routes[i], ip, ln);
    }
    if r :| r in routes && r.cidr > 0 && InNetwork(r, ip, ln) {
      var i :| 0 <= i < |routes| && routes[i] == r;
      assert puts[i].prefix != [] && puts[i].prefix <= BitsOf(ip, 8 * ln);
    }
    if i :| 0 <= i < |puts| && puts[i].prefix != [] && puts[i].prefix <= BitsOf(ip, 8 * ln) {
      assert routes[i] in routes;
    }
  }

  /** Put j is the answer of a search: its prefix matches the address, no longer non-empty put
      prefix does, and it is the first put of that prefix. */
  ghost predicate Answers(puts: seq<PutRec>, bits: Bits, j: nat): (r: bool)
    ensures r ==> j < |puts|
  {
    && j < |puts| && puts[j].prefix != [] && puts[j].prefix <= bits
    && FirstPut(puts, puts[j].prefix, j)
    && forall i :: 0 <= i < |puts| && puts[i].prefix <= bits ==> |puts[i].prefix| <= |puts[j].prefix|
  }

  /** The longest match in the table is the longest matching put, the first one of its prefix. */
  lemma LongestAnswers(puts: seq<PutRec>, bits: Bits)
    ensures match Longest(TableAfter(puts), bits)
      case Some(k) => 0 < k <= |bits| && bits[..k] in TableAfter(puts)
        && exists j: nat :: Answers(puts, bits, j) && TableAfter(puts)[bits[..k]] == puts[j].value
      case None => forall i :: 0 <= i < |puts| && puts[i].prefix <= bits ==> puts[i].prefix == []
  {
    hide Longest, TableAfter, FirstPut;
    var table := TableAfter(puts);
    LongestIsLongest(table, bits);
    forall i | 0 <= i < |puts| && puts[i].prefix <= bits && puts[i].prefix != []
      ensures puts[i].prefix in table && bits[..|puts[i].prefix|] == puts[i].prefix
    {
      FirstExists(puts, puts[i].prefix, i);
      FirstPutWins(puts, puts[i].prefix);
    }
    match Longest(table, bits)
    case None =>
    case Some(k) =>
      FirstPutWins(puts, bits[..k]);
      var j: nat :| FirstPut(puts, bits[..k], j) && table[bits[..k]] == puts[j].value;
      assert Answers(puts, bits, j);
  }
}
