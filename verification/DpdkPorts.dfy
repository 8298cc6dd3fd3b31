// dpdk/main.c: which ports are used, where each one forwards to, and which logical core
// receives from it. A port mask is the set of its bits.

module DpdkPorts {
  import opened Machine

  const MAX_PORTS: int := 32
  const MAX_LCORE: int := 128
  /** MAX_RX_QUEUE_PER_LCORE, the length of an rx_port_list */
  const MAX_QUEUES: int := 16

  type Port = x: int | 0 <= x < 32
  type Pair = (Port, Port)

  // ----- enabled ports

  /** The devices that a mask enables, in order. */
  ghost function Enabled(devs: seq<Port>, mask: set<Port>): seq<Port> {
    if devs == [] then []
    else
      var e := Enabled(devs[..|devs| - 1], mask);
      if devs[|devs| - 1] in mask then e + [devs[|devs| - 1]] else e
  }

  ghost function Elements(e: seq<Port>): set<Port> {
    set p | p in e
  }

  ghost predicate Ascending(devs: seq<Port>) {
    forall i, j :: 0 <= i < j < |devs| ==> devs[i] < devs[j]
  }

  lemma {:induction false} EnabledIs(devs: seq<Port>, mask: set<Port>)
    ensures forall p :: p in Enabled(devs, mask) <==> p in devs && p in mask
    ensures Ascending(devs) ==> Ascending(Enabled(devs, mask))
  {
    if devs != [] {
      var before, d := devs[..|devs| - 1], devs[|devs| - 1];
      EnabledIs(before, mask);
      assert devs == before + [d];
      if Ascending(devs) {
        assert forall i :: 0 <= i < |before| ==> before[i] == devs[i];
        assert Ascending(before);
        forall p | p in Enabled(before, mask) ensures p < d {
          var i :| 0 <= i < |before| && before[i] == p;
          assert devs[i] < devs[|before|];
        }
        assert forall i :: 0 <= i < |Enabled(before, mask)| ==> Enabled(before, mask)[i] in Enabled(before, mask);
      }
    }
  }

  lemma EnabledStep(devs: seq<Port>, mask: set<Port>, n: nat)
    requires n < |devs|
    ensures Enabled(devs[..n + 1], mask) == Enabled(devs[..n], mask) + if devs[n] in mask then [devs[n]] else []
  {
    assert devs[..n + 1][..n] == devs[..n];
  }

  // ----- port pairs

  ghost function Ends(p: Pair): set<Port> {
    {p.0, p.1}
  }

  ghost function PortsOf(pairs: seq<Pair>): set<Port> {
    if pairs == [] then {} else PortsOf(pairs[..|pairs| - 1]) + Ends(pairs[|pairs| - 1])
  }

  lemma {:induction false} EndsIn(pairs: seq<Pair>, i: nat)
    requires i < |pairs|
    ensures Ends(pairs[i]) <= PortsOf(pairs)
  {
    if i < |pairs| - 1 {
      EndsIn(pairs[..|pairs| - 1], i);
    }
  }

  lemma {:induction false} PortHasPair(pairs: seq<Pair>, p: Port)
    requires p in PortsOf(pairs)
    ensures exists i :: 0 <= i < |pairs| && p in Ends(pairs[i])
  {
    var n := |pairs| - 1;
    if p in Ends(pairs[n]) {
    } else {
      PortHasPair(pairs[..n], p);
      var i :| 0 <= i < n && p in Ends(pairs[..n][i]);
      assert pairs[i] == pairs[..n][i];
    }
  }

  ghost predicate Apart(pairs: seq<Pair>) {
    forall i, j :: 0 <= i < j < |pairs| ==> Ends(pairs[i]) !! Ends(pairs[j])
  }

  /** A pair list that the check accepts. */
  ghost predicate Usable(pairs: seq<Pair>, mask: set<Port>, devs: seq<Port>) {
    PortsOf(pairs) <= mask && (forall p :: p in PortsOf(pairs) ==> p in devs) && Apart(pairs)
  }

  /** check_port_pair_config: the mask narrowed to the pairs' ports, or None for an invalid list. */
  method CheckPortPairConfig(pairs: seq<Pair>, mask: set<Port>, devs: seq<Port>) returns (r: Option<set<Port>>)
    ensures r.Some? <==> Usable(pairs, mask, devs)
    ensures r.Some? ==> r.value == PortsOf(pairs)
  {
    hide PortsOf, Apart;
    NoPairs();
    var configMask: set<Port> := {};
    var index := 0;
    while index < |pairs|
      invariant 0 <= index <= |pairs| && configMask == PortsOf(pairs[..index])
      invariant Usable(pairs[..index], mask, devs)
    {
      EndsIn(pairs, index);
      var pairMask: set<Port> := {};
      var i := 0;
      while i < 2
        invariant 0 <= i <= 2
        invariant pairMask == if i == 0 then {} else if i == 1 then {pairs[index].0} else Ends(pairs[index])
        invariant pairMask <= mask && forall p :: p in pairMask ==> p in devs
      {
        var port := if i == 0 then pairs[index].0 else pairs[index].1;
        if port !in mask || port !in devs {
          return None;
        }
        pairMask := pairMask + {port};
        i := i + 1;
      }
      PairsStep(pairs, index);
      if configMask * pairMask != {} {
        Overlap(pairs, index);
        return None;
      }
      configMask := configMask + pairMask;
      index := index + 1;
    }
    assert pairs[..index] == pairs;
    r := Some(mask * configMask);
    assert mask * configMask == configMask;
  }

  lemma NoPairs()
    ensures PortsOf([]) == {} && Apart([])
  {
  }

  /** A list stays apart with one more pair exactly when the pair's ports are new. */
  lemma PairsStep(pairs: seq<Pair>, n: nat)
    requires n < |pairs| && Apart(pairs[..n])
    ensures PortsOf(pairs[..n + 1]) == PortsOf(pairs[..n]) + Ends(pairs[n])
    ensures PortsOf(pairs[..n]) * Ends(pairs[n]) == {} ==> Apart(pairs[..n + 1])
  {
    hide Ends;
    assert pairs[..n + 1][..n] == pairs[..n];
    if PortsOf(pairs[..n]) * Ends(pairs[n]) == {} {
      forall i, j | 0 <= i < j < n + 1 ensures Ends(pairs[i]) !! Ends(pairs[j]) {
        if j < n {
          assert Ends(pairs[..n][i]) !! Ends(pairs[..n][j]);
        } else {
          EndsIn(pairs[..n], i);
          assert pairs[..n][i] == pairs[i];
          forall p | p in Ends(pairs[i]) ensures p !in Ends(pairs[n]) {
            assert p !in PortsOf(pairs[..n]) * Ends(pairs[n]);
          }
        }
      }
    }
  }

  lemma Overlap(pairs: seq<Pair>, n: nat)
    requires n < |pairs| && PortsOf(pairs[..n]) * Ends(pairs[n]) != {}
    ensures !Apart(pairs)
  {
    hide PortsOf, Ends;
    var p :| p in PortsOf(pairs[..n]) && p in Ends(pairs[n]);
    PortHasPair(pairs[..n], p);
    var i :| 0 <= i < n && p in Ends(pairs[..n][i]);
    assert pairs[..n][i] == pairs[i];
  }

  // ----- destinations

  /** The table sends every one of the ports to one of them, and back. */
  ghost predicate Involution(dst: seq<Port>, ports: set<Port>)
    requires |dst| == MAX_PORTS
  {
    forall p :: p in ports ==> dst[p] in ports && dst[dst[p]] == p
  }

  ghost predicate Wired(dst: seq<Port>, p: Pair)
    requires |dst| == MAX_PORTS
  {
    dst[p.0] == p.1 && dst[p.1] == p.0
  }

  /** The table of a pair list: every pair is wired both ways, and no other port is. */
  method PairDestinations(dst: array<Port>, pairs: seq<Pair>)
    requires dst.Length == MAX_PORTS && Apart(pairs)
    requires forall p :: 0 <= p < MAX_PORTS ==> dst[p] == 0
    modifies dst
    ensures forall i :: 0 <= i < |pairs| ==> Wired(dst[..], pairs[i])
    ensures Involution(dst[..], PortsOf(pairs))
    ensures forall p :: 0 <= p < MAX_PORTS && p !in PortsOf(pairs) ==> dst[p] == 0
  {
    hide PortsOf;
    var idx := 0;
    ghost var h, odd := 0, false;
    while idx < 2 * |pairs|
      invariant 0 <= h <= |pairs| && idx == 2 * h + (if odd then 1 else 0) <= 2 * |pairs|
      invariant forall i :: 0 <= i < h ==> Wired(dst[..], pairs[i])
      invariant odd ==> dst[pairs[h].0] == pairs[h].1
      invariant forall p :: 0 <= p < MAX_PORTS && p !in PortsOf(pairs) ==> dst[p] == 0
    {
      assert idx / 2 == h && (idx % 2 == 1 <==> odd);
      EndsIn(pairs, h);
      forall i | 0 <= i < h ensures Ends(pairs[i]) !! Ends(pairs[h]) {}
      if idx % 2 == 0 {
        dst[pairs[idx / 2].0] := pairs[idx / 2].1;
      } else {
        dst[pairs[idx / 2].1] := pairs[idx / 2].0;
        h := h + 1;
      }
      odd := !odd;
      idx := idx + 1;
    }
    WiredInvolution(dst[..], pairs);
  }

  lemma WiredInvolution(dst: seq<Port>, pairs: seq<Pair>)
    requires |dst| == MAX_PORTS && forall i :: 0 <= i < |pairs| ==> Wired(dst, pairs[i])
    ensures Involution(dst, PortsOf(pairs))
  {
    hide PortsOf;
    forall p | p in PortsOf(pairs) ensures dst[p] in PortsOf(pairs) && dst[dst[p]] == p {
      PortHasPair(pairs, p);
      var i :| 0 <= i < |pairs| && p in Ends(pairs[i]);
      EndsIn(pairs, i);
      assert Wired(dst, pairs[i]);
    }
  }

  /** The enabled ports two by two; with an odd number the last one is left over. */
  ghost function Neighbours(e: seq<Port>): seq<Pair> {
    if |e| < 2 then []
    else if |e| % 2 == 1 then Neighbours(e[..|e| - 1])
    else Neighbours(e[..|e| - 2]) + [(e[|e| - 2], e[|e| - 1])]
  }

  /** Pair j is the ports 2j and 2j + 1 of the enabled ones. */
  lemma {:induction false} NeighboursAre(e: seq<Port>)
    ensures |Neighbours(e)| == |e| / 2
    ensures forall j :: 0 <= j < |e| / 2 ==> Neighbours(e)[j] == (e[2 * j], e[2 * j + 1])
  {
    hide Neighbours;
    var h := |e| / 2;
    if |e| % 2 == 1 {
      OddNeighbours(e);
      NeighboursAre(e[..|e| - 1]);
    } else if h > 0 {
      EvenNeighbours(e);
      var before := e[..|e| - 2];
      NeighboursAre(before);
      assert |before| / 2 == h - 1;
    } else {
      NoNeighbours();
    }
  }

  lemma NoNeighbours()
    ensures Neighbours([]) == []
  {
  }

  lemma {:induction false} NeighbourPorts(e: seq<Port>)
    requires Ascending(e)
    ensures Apart(Neighbours(e))
    ensures forall p :: p in PortsOf(Neighbours(e)) <==> p in e && (|e| % 2 == 1 ==> p != e[|e| - 1])
  {
    hide PortsOf, Apart, Ascending;
    if |e| % 2 == 1 {
      Distinct(e, |e| - 1);
      NeighbourPorts(e[..|e| - 1]);
      assert e == e[..|e| - 1] + [e[|e| - 1]];
    } else if |e| > 0 {
      var before, a, b := e[..|e| - 2], e[|e| - 2], e[|e| - 1];
      Distinct(e, |e| - 2);
      NeighbourPorts(before);
      assert e == before + [a, b];
      AppendPair(Neighbours(before), (a, b));
    } else {
      NoPairs();
    }
  }

  lemma AppendPair(pairs: seq<Pair>, p: Pair)
    requires Apart(pairs) && p.0 !in PortsOf(pairs) && p.1 !in PortsOf(pairs)
    ensures Apart(pairs + [p]) && PortsOf(pairs + [p]) == PortsOf(pairs) + {p.0, p.1}
  {
    hide PortsOf, Apart;
    var more := pairs + [p];
    assert more[..|pairs|] == pairs && more[..|more|] == more;
    PairsStep(more, |pairs|);
  }

  lemma Distinct(e: seq<Port>, n: nat)
    requires Ascending(e) && n <= |e|
    ensures Ascending(e[..n]) && forall i :: n <= i < |e| ==> e[i] !in e[..n]
  {
  }

  /** One more port pairs up with a left-over one, whose pair is apart from the others. */
  lemma NextNeighbours(e: seq<Port>, port: Port)
    requires Ascending(e + [port])
    ensures |e| % 2 == 0 ==> Neighbours(e + [port]) == Neighbours(e)
    ensures |e| % 2 == 1 ==> Neighbours(e + [port]) == Neighbours(e) + [(e[|e| - 1], port)]
    ensures |e| % 2 == 1 ==> forall i :: 0 <= i < |Neighbours(e)| ==> Ends(Neighbours(e)[i]) !! {e[|e| - 1], port}
  {
    hide PortsOf, Apart, Neighbours, Ends, Ascending;
    if |e| % 2 == 1 {
      NextOdd(e, port);
      NeighbourPorts(e + [port]);
      EndsAre(e[|e| - 1], port);
      LastApart(Neighbours(e), (e[|e| - 1], port));
    } else {
      OddNeighbours(e + [port]);
      assert (e + [port])[..|e|] == e;
    }
  }

  lemma NextOdd(e: seq<Port>, port: Port)
    requires |e| % 2 == 1
    ensures Neighbours(e + [port]) == Neighbours(e) + [(e[|e| - 1], port)]
  {
    hide Neighbours;
    OddNeighbours(e);
    EvenNeighbours(e + [port]);
    assert (e + [port])[..|e| - 1] == e[..|e| - 1];
  }

  lemma OddNeighbours(e: seq<Port>)
    requires |e| % 2 == 1
    ensures Neighbours(e) == Neighbours(e[..|e| - 1])
  {
  }

  lemma EvenNeighbours(e: seq<Port>)
    requires |e| % 2 == 0 && e != []
    ensures Neighbours(e) == Neighbours(e[..|e| - 2]) + [(e[|e| - 2], e[|e| - 1])]
  {
  }

  lemma EndsAre(a: Port, b: Port)
    ensures Ends((a, b)) == {a, b}
  {
  }

  lemma LastApart(pairs: seq<Pair>, p: Pair)
    requires Apart(pairs + [p])
    ensures forall i :: 0 <= i < |pairs| ==> Ends(pairs[i]) !! Ends(p)
  {
    hide Ends;
    forall i | 0 <= i < |pairs| ensures Ends(pairs[i]) !! Ends(p) {
      assert (pairs + [p])[i] == pairs[i] && (pairs + [p])[|pairs|] == p;
    }
  }

  /** Neighbours are wired. */
  ghost predicate Wires(dst: seq<Port>, e: seq<Port>)
    requires |dst| == MAX_PORTS
  {
    forall i :: 0 <= i < |Neighbours(e)| ==> Wired(dst, Neighbours(e)[i])
  }

  /** The table without a pair list: neighbours among the enabled ports are wired, and a last
      odd one goes to itself. */
  method AlternateDestinations(dst: array<Port>, devs: seq<Port>, mask: set<Port>)
    requires dst.Length == MAX_PORTS && Ascending(devs)
    modifies dst
    ensures Wires(dst[..], Enabled(devs, mask))
    ensures var e := Enabled(devs, mask); |e| % 2 == 1 ==> dst[e[|e| - 1]] == e[|e| - 1]
    ensures Involution(dst[..], Elements(Enabled(devs, mask)))
  {
    hide PortsOf, Enabled, Ascending, Wires, Involution;
    NothingEnabled(mask);
    NoWires(dst[..]);
    ghost var e: seq<Port> := [];
    var lastPort: Port := 0;
    var nbPortsInMask := 0;
    var k := 0;
    while k < |devs|
      invariant 0 <= k <= |devs| && e == Enabled(devs[..k], mask) && nbPortsInMask == |e|
      invariant |e| % 2 == 1 ==> lastPort == e[|e| - 1]
      invariant Wires(dst[..], e)
    {
      var port := devs[k];
      EnabledStep(devs, mask, k);
      if port in mask {
        EnabledAscends(devs, mask, k + 1);
        NextWires(dst[..], e, port);
        if nbPortsInMask % 2 == 1 {
          dst[port] := lastPort;
          dst[lastPort] := port;
        } else {
          lastPort := port;
        }
        nbPortsInMask := nbPortsInMask + 1;
        e := e + [port];
      }
      k := k + 1;
    }
    assert devs[..k] == devs;
    EnabledAscends(devs, mask, k);
    if nbPortsInMask % 2 == 1 {
      LoopWires(dst[..], e);
      dst[lastPort] := lastPort;
    }
    AllWired(dst[..], e);
  }

  lemma NoWires(dst: seq<Port>)
    requires |dst| == MAX_PORTS
    ensures Wires(dst, [])
  {
  }

  lemma EnabledAscends(devs: seq<Port>, mask: set<Port>, n: nat)
    requires Ascending(devs) && n <= |devs|
    ensures Ascending(Enabled(devs[..n], mask))
  {
    EnabledIs(devs[..n], mask);
  }

  lemma NextWires(dst: seq<Port>, e: seq<Port>, port: Port)
    requires |dst| == MAX_PORTS && Wires(dst, e) && Ascending(e + [port])
    ensures |e| % 2 == 0 ==> Wires(dst, e + [port])
    ensures |e| % 2 == 1 ==> Wires(dst[port := e[|e| - 1]][e[|e| - 1] := port], e + [port])
  {
    hide Neighbours;
    NextNeighbours(e, port);
    if |e| % 2 == 1 {
      var last := e[|e| - 1];
      assert (e + [port])[|e| - 1] == last && (e + [port])[|e|] == port;
    }
  }

  /** Sending the left-over port to itself touches no pair. */
  lemma LoopWires(dst: seq<Port>, e: seq<Port>)
    requires |dst| == MAX_PORTS && Wires(dst, e) && Ascending(e) && |e| % 2 == 1
    ensures Wires(dst[e[|e| - 1] := e[|e| - 1]], e)
  {
    hide PortsOf, Apart, Neighbours;
    NeighbourPorts(e);
    forall i | 0 <= i < |Neighbours(e)| ensures e[|e| - 1] !in Ends(Neighbours(e)[i]) {
      EndsIn(Neighbours(e), i);
    }
  }

  lemma AllWired(dst: seq<Port>, e: seq<Port>)
    requires |dst| == MAX_PORTS && Wires(dst, e) && Ascending(e)
    requires |e| % 2 == 1 ==> dst[e[|e| - 1]] == e[|e| - 1]
    ensures Involution(dst, Elements(e))
  {
    hide PortsOf, Apart, Neighbours;
    NeighbourPorts(e);
    WiredInvolution(dst, Neighbours(e));
  }

  // ----- logical cores

  ghost function Flat(lists: seq<seq<Port>>): seq<Port> {
    if lists == [] then [] else Flat(lists[..|lists| - 1]) + lists[|lists| - 1]
  }

  ghost function NonEmpty(lists: seq<seq<Port>>): nat {
    if lists == [] then 0 else NonEmpty(lists[..|lists| - 1]) + if lists[|lists| - 1] != [] then 1 else 0
  }

  /** The number of cores that are on. */
  ghost function Count(on: seq<bool>): nat {
    if on == [] then 0 else Count(on[..|on| - 1]) + if on[|on| - 1] then 1 else 0
  }

  /** Appending to a list that only empty lists follow. */
  lemma {:induction false} FlatAppend(lists: seq<seq<Port>>, l: nat, p: Port)
    requires l < |lists| && forall m :: l < m < |lists| ==> lists[m] == []
    ensures Flat(lists[l := lists[l] + [p]]) == Flat(lists) + [p]
    ensures NonEmpty(lists[l := lists[l] + [p]]) == NonEmpty(lists) + if lists[l] == [] then 1 else 0
  {
    var n, next := |lists| - 1, lists[l := lists[l] + [p]];
    if l == n {
      assert next[..n] == lists[..n];
    } else {
      assert next[..n] == lists[..n][l := lists[..n][l] + [p]];
      FlatAppend(lists[..n], l, p);
    }
  }

  lemma {:induction false} FlatOfNone(lists: seq<seq<Port>>)
    requires forall m :: 0 <= m < |lists| ==> lists[m] == []
    ensures Flat(lists) == [] && NonEmpty(lists) == 0
  {
    if lists != [] {
      FlatOfNone(lists[..|lists| - 1]);
    }
  }

  /** Lists of at most q ports on the cores that are on hold at most q for each of them, and
      exactly that many when they are all full. */
  lemma {:induction false} FlatSize(lists: seq<seq<Port>>, on: seq<bool>, q: nat)
    requires |lists| == |on|
    requires forall l :: 0 <= l < |lists| ==> |lists[l]| <= if on[l] then q else 0
    ensures |Flat(lists)| <= q * Count(on)
    ensures (forall l :: 0 <= l < |lists| ==> |lists[l]| == if on[l] then q else 0) ==> |Flat(lists)| == q * Count(on)
  {
    if lists != [] {
      var n := |lists| - 1;
      FlatSize(lists[..n], on[..n], q);
      assert q * (Count(on[..n]) + 1) == q * Count(on[..n]) + q;
    }
  }

  /** Every port of e is in exactly one of the lists, and nothing else is. */
  ghost predicate EachOnce(lists: seq<seq<Port>>, e: seq<Port>) {
    && (forall l, p :: 0 <= l < |lists| && p in lists[l] ==> p in e)
    && (forall p :: p in e ==> exists l :: 0 <= l < |lists| && p in lists[l])
    && (forall l, m, p :: 0 <= l < m < |lists| && p in lists[l] ==> p !in lists[m])
  }

  lemma {:induction false} FlatEachOnce(lists: seq<seq<Port>>, e: seq<Port>)
    requires Flat(lists) == e && Ascending(e)
    ensures EachOnce(lists, e)
  {
    if lists != [] {
      var n := |lists| - 1;
      var before, last := lists[..n], lists[n];
      assert Flat(before) == e[..|Flat(before)|] && last == e[|Flat(before)|..];
      Distinct(e, |Flat(before)|);
      FlatEachOnce(before, Flat(before));
      forall p | p in e ensures exists l :: 0 <= l < |lists| && p in lists[l] {
        if p in Flat(before) {
          var l :| 0 <= l < n && p in before[l];
          assert p in lists[l];
        } else {
          assert p in lists[n];
        }
      }
      forall l, m, p | 0 <= l < m < |lists| && p in lists[l] ensures p !in lists[m] {
        assert p in before[l];
        if m < n {
          assert lists[m] == before[m];
        } else {
          assert p in Flat(before);
        }
      }
    }
  }

  /** Which core is current: every earlier core is full or off, every later one is empty. */
  ghost predicate Filling(lists: seq<seq<Port>>, on: seq<bool>, q: nat, rx: nat) {
    && |lists| == |on| == MAX_LCORE && rx < MAX_LCORE
    && (forall l :: 0 <= l < rx ==> |lists[l]| == if on[l] then q else 0)
    && |lists[rx]| <= (if on[rx] then q else 0)
    && (forall l :: rx < l < MAX_LCORE ==> lists[l] == [])
  }

  /** The search for the core of the next port, from the current one on; None when there is no
      core left. */
  method NextLcore(lists: array<seq<Port>>, on: seq<bool>, q: nat, rx: nat) returns (r: Option<nat>)
    requires lists.Length == MAX_LCORE && Filling(lists[..], on, q, rx) && q > 0
    ensures r.Some? ==> r.value >= rx && Filling(lists[..], on, q, r.value) && on[r.value] && |lists[r.value]| < q
    ensures r.Some? ==> r.value > rx ==> lists[r.value] == []
    ensures r.None? ==> |Flat(lists[..])| == q * Count(on)
  {
    var id := rx;
    while !on[id] || |lists[id]| == q
      invariant rx <= id < MAX_LCORE && Filling(lists[..], on, q, id)
      decreases MAX_LCORE - id
    {
      id := id + 1;
      if id >= MAX_LCORE {
        FlatSize(lists[..], on, q);
        return None;
      }
    }
    r := Some(id);
  }

  /** A core gets a port only when every earlier enabled core is full. */
  ghost predicate InOrder(lists: seq<seq<Port>>, on: seq<bool>, q: nat)
    requires |lists| == |on|
  {
    forall l, m :: 0 <= l < m < |lists| && lists[m] != [] && on[l] ==> |lists[l]| == q
  }

  /** The loop over the ports in main: `lists` ends up with each core's rx_port_list. The result
      is the number of cores in use, or None for "Not enough cores". */
  method AssignLcores(devs: seq<Port>, mask: set<Port>, on: seq<bool>, q: nat, lists: array<seq<Port>>)
    returns (r: Option<nat>)
    requires Ascending(devs) && |on| == MAX_LCORE == lists.Length && 1 <= q < 16
    requires forall l :: 0 <= l < MAX_LCORE ==> lists[l] == []
    modifies lists
    ensures r.None? <==> |Enabled(devs, mask)| > q * Count(on)
    ensures r.Some? ==> Flat(lists[..]) == Enabled(devs, mask) && r.value == NonEmpty(lists[..])
    ensures r.Some? ==> EachOnce(lists[..], Enabled(devs, mask))
    ensures r.Some? ==> forall l :: 0 <= l < MAX_LCORE ==> |lists[l]| <= if on[l] then q else 0
    ensures r.Some? ==> InOrder(lists[..], on, q)
  {
    hide Enabled, Ascending, Flat, NonEmpty, Count, EachOnce;
    FlatOfNone(lists[..]);
    NothingEnabled(mask);
    var rx, qconf, nbLcores := 0, -1, 0;
    var k := 0;
    while k < |devs|
      invariant 0 <= k <= |devs| && Flat(lists[..]) == Enabled(devs[..k], mask)
      invariant 0 <= rx < MAX_LCORE && Filling(lists[..], on, q, rx)
      invariant qconf <= rx && (qconf == rx <==> lists[rx] != []) && nbLcores == NonEmpty(lists[..])
    {
      var port := devs[k];
      EnabledStep(devs, mask, k);
      if port in mask {
        var next := NextLcore(lists, on, q, rx);
        if next.None? {
          EnabledGrows(devs, mask, k + 1);
          return None;
        }
        rx := next.value;
        FlatAppend(lists[..], rx, port);
        if qconf != rx {
          qconf := rx;
          nbLcores := nbLcores + 1;
        }
        assert |lists[rx]| < MAX_QUEUES;
        ghost var was := lists[..];
        lists[rx] := lists[rx] + [port];
        assert lists[..] == was[rx := was[rx] + [port]];
      }
      k := k + 1;
    }
    assert devs[..k] == devs;
    EnabledAscends(devs, mask, k);
    FlatEachOnce(lists[..], Enabled(devs, mask));
    FlatSize(lists[..], on, q);
    r := Some(nbLcores);
  }

  lemma NothingEnabled(mask: set<Port>)
    ensures Enabled([], mask) == []
  {
  }

  lemma {:induction false} EnabledGrows(devs: seq<Port>, mask: set<Port>, n: nat)
    requires n <= |devs|
    ensures |Enabled(devs[..n], mask)| <= |Enabled(devs, mask)|
    decreases |devs| - n
  {
    if n < |devs| {
      EnabledStep(devs, mask, n);
      EnabledGrows(devs, mask, n + 1);
    } else {
      assert devs[..n] == devs;
    }
  }

  // ----- the whole configuration

  datatype Setup = NoPorts | InvalidPairs | InvalidMask | NotEnoughCores | Ready(mask: set<Port>, nbLcores: nat)

  /** The mask that main goes on with after the pair check. */
  ghost function FinalMask(mask: set<Port>, pairs: Option<seq<Pair>>): set<Port> {
    if pairs.Some? then PortsOf(pairs.value) else mask
  }

  /** No bit of the mask is outside `(1 << nb_ports) - 1`. */
  predicate Fits(mask: set<Port>, nbPorts: nat) {
    forall p :: p in mask ==> p < nbPorts
  }

  /** main from the pair check to the queue assignment: `devs` are the ports that
      RTE_ETH_FOREACH_DEV visits, `on` the enabled cores. */
  method Configure(mask: set<Port>, pairs: Option<seq<Pair>>, devs: seq<Port>, on: seq<bool>, q: nat,
                   dst: array<Port>, lists: array<seq<Port>>)
    returns (s: Setup)
    requires Ascending(devs) && |devs| < MAX_PORTS && |on| == MAX_LCORE == lists.Length
    requires dst.Length == MAX_PORTS && 1 <= q < 16
    requires forall l :: 0 <= l < MAX_LCORE ==> lists[l] == []
    modifies dst, lists
    ensures s.NoPorts? <==> devs == []
    ensures s.InvalidPairs? <==> devs != [] && pairs.Some? && !Usable(pairs.value, mask, devs)
    ensures s.InvalidMask? || s.NotEnoughCores? || s.Ready? <==>
      devs != [] && (pairs.Some? ==> Usable(pairs.value, mask, devs))
    ensures s.InvalidMask? ==> exists p :: p in FinalMask(mask, pairs) && p >= |devs|
    ensures s.NotEnoughCores? || s.Ready? ==> forall p :: p in FinalMask(mask, pairs) ==> p < |devs|
    ensures s.NotEnoughCores? ==> |Enabled(devs, FinalMask(mask, pairs))| > q * Count(on)
    ensures s.Ready? ==>
      var e := Enabled(devs, s.mask);
      && s.mask == FinalMask(mask, pairs) && |e| <= q * Count(on)
      && Involution(dst[..], Elements(e))
      && (pairs.Some? ==> forall i :: 0 <= i < |pairs.value| ==> Wired(dst[..], pairs.value[i]))
      && (pairs.None? ==> Wires(dst[..], e) && (|e| % 2 == 1 ==> dst[e[|e| - 1]] == e[|e| - 1]))
      && EachOnce(lists[..], e) && Flat(lists[..]) == e && s.nbLcores == NonEmpty(lists[..])
      && (forall l :: 0 <= l < MAX_LCORE ==> |lists[l]| <= if on[l] then q else 0) && InOrder(lists[..], on, q)
  {
    hide InOrder, Enabled, Ascending, Flat, NonEmpty, Count, EachOnce, PortsOf, Apart, Involution, Wires, Wired;
    if |devs| == 0 {
      return NoPorts;
    }
    var enabled := mask;
    if pairs.Some? {
      var checked := CheckPortPairConfig(pairs.value, mask, devs);
      if checked.None? {
        return InvalidPairs;
      }
      enabled := checked.value;
    }
    if !Fits(enabled, |devs|) {
      ghost var p :| p in FinalMask(mask, pairs) && p >= |devs|;
      return InvalidMask;
    }
    forall p | 0 <= p < MAX_PORTS {
      dst[p] := 0;
    }
    if pairs.Some? {
      PairDestinations(dst, pairs.value);
      PairsEnabled(pairs.value, mask, devs);
    } else {
      AlternateDestinations(dst, devs, enabled);
    }
    var r := AssignLcores(devs, enabled, on, q, lists);
    s := if r.None? then NotEnoughCores else Ready(enabled, r.value);
  }

  /** With an accepted pair list the enabled ports are exactly the ports of the pairs. */
  lemma PairsEnabled(pairs: seq<Pair>, mask: set<Port>, devs: seq<Port>)
    requires Usable(pairs, mask, devs)
    ensures Elements(Enabled(devs, PortsOf(pairs))) == PortsOf(pairs)
  {
    EnabledIs(devs, PortsOf(pairs));
  }
}
