// Packets as runs of ring descriptors: every fragment but the last carries XDP_PKT_CONTD.

module Fragments {

  const XDP_PKT_CONTD: nat := 1

  datatype Desc = Desc(addr: nat, len: nat, options: nat)

  /** IS_EOP_DESC: the last fragment of a packet. */
  predicate Eop(d: Desc) {
    d.options % 2 != XDP_PKT_CONTD
  }

  /** What l2fwd sends for a received descriptor: same frame and length, no other option. */
  function Forwarded(d: Desc): (t: Desc)
    ensures Eop(t) <==> Eop(d)
  {
    Desc(d.addr, d.len, if Eop(d) then 0 else XDP_PKT_CONTD)
  }

  lemma EopIs(d: Desc)
    ensures Eop(d) <==> d.options % 2 == 0
  {
  }

  /** A descriptor that sends the fragment of another: same address and length, and no option but
      the mark of a fragment that others follow. */
  ghost predicate Sends(t: Desc, d: Desc) {
    t.addr == d.addr && t.len == d.len && t.options == if d.options % 2 == 1 then 1 else 0
  }

  lemma ForwardedSends(d: Desc)
    ensures Sends(Forwarded(d), d)
  {
  }

  ghost function ForwardedAll(s: seq<Desc>): seq<Desc> {
    seq(|s|, i requires 0 <= i < |s| => Forwarded(s[i]))
  }

  /** The number of descriptors after the last complete packet. */
  ghost function OpenFrags(s: seq<Desc>): (n: nat)
    ensures n <= |s|
  {
    if s == [] || Eop(s[|s| - 1]) then 0 else 1 + OpenFrags(s[..|s| - 1])
  }

  ghost function EopCount(s: seq<Desc>): nat {
    if s == [] then 0 else EopCount(s[..|s| - 1]) + if Eop(s[|s| - 1]) then 1 else 0
  }

  /** The indices at which packets start. */
  ghost function Starts(s: seq<Desc>): seq<nat> {
    if s == [] then []
    else Starts(s[..|s| - 1]) + if OpenFrags(s[..|s| - 1]) == 0 then [|s| - 1] else []
  }

  /** One start per packet: every complete one, and the one still open. */
  lemma {:induction false} OneStartPerPacket(s: seq<Desc>)
    ensures |Starts(s)| == EopCount(s) + if OpenFrags(s) > 0 then 1 else 0
  {
    if s != [] {
      OneStartPerPacket(s[..|s| - 1]);
    }
  }

  // ----- what OpenFrags and Starts mean

  /** Index i starts a packet: it is the first descriptor or follows an end of packet. */
  ghost predicate IsStart(s: seq<Desc>, i: int) {
    0 <= i < |s| && (i == 0 || Eop(s[i - 1]))
  }

  lemma {:induction false} StartsAreStarts(s: seq<Desc>, i: nat)
    ensures i in Starts(s) <==> IsStart(s, i)
  {
    if s != [] {
      var t := s[..|s| - 1];
      StartsAreStarts(t, i);
      assert OpenFrags(t) == 0 <==> t == [] || Eop(t[|t| - 1]);
    }
  }

  /** No start is listed twice. */
  lemma {:induction false} StartsAscend(s: seq<Desc>)
    ensures forall i :: 0 <= i < |Starts(s)| ==> Starts(s)[i] < |s|
    ensures forall i, j :: 0 <= i < j < |Starts(s)| ==> Starts(s)[i] < Starts(s)[j]
  {
    if s != [] {
      StartsAscend(s[..|s| - 1]);
    }
  }

  ghost predicate IsPacket(p: seq<Desc>) {
    p != [] && Eop(p[|p| - 1]) && forall i :: 0 <= i < |p| - 1 ==> !Eop(p[i])
  }

  ghost function Concat(ps: seq<seq<Desc>>): seq<Desc> {
    if ps == [] then [] else Concat(ps[..|ps| - 1]) + ps[|ps| - 1]
  }

  /** A descriptor run without open fragments is a sequence of whole packets. */
  lemma {:induction false} WholePackets(s: seq<Desc>) returns (ps: seq<seq<Desc>>, rest: seq<Desc>)
    ensures s == Concat(ps) + rest
    ensures forall p :: p in ps ==> IsPacket(p)
    ensures |rest| == OpenFrags(s) && forall d :: d in rest ==> !Eop(d)
    ensures |ps| == EopCount(s)
  {
    if s == [] {
      ps, rest := [], [];
    } else {
      var d := s[|s| - 1];
      ps, rest := WholePackets(s[..|s| - 1]);
      assert s == s[..|s| - 1] + [d];
      if Eop(d) {
        var p := rest + [d];
        assert forall i :: 0 <= i < |rest| ==> rest[i] in rest;
        assert IsPacket(p);
        assert Concat(ps + [p]) == Concat(ps) + p by { assert (ps + [p])[..|ps|] == ps; }
        ps, rest := ps + [p], [];
      } else {
        rest := rest + [d];
      }
    }
  }

  // ----- growing runs

  lemma Extend(s: seq<Desc>, n: nat)
    requires n < |s|
    ensures s[..n + 1][..n] == s[..n]
    ensures ForwardedAll(s[..n + 1]) == ForwardedAll(s[..n]) + [Forwarded(s[n])]
    ensures OpenFrags(s[..n + 1]) == if Eop(s[n]) then 0 else 1 + OpenFrags(s[..n])
    ensures EopCount(s[..n + 1]) == EopCount(s[..n]) + if Eop(s[n]) then 1 else 0
    ensures Starts(s[..n + 1]) == Starts(s[..n]) + if OpenFrags(s[..n]) == 0 then [n] else []
  {
    assert s[..n + 1][..n] == s[..n];
  }

  // ----- forwarding

  /** What l2fwd has made of the received descriptors: it has written one tx descriptor for
      each of the first |txLog|, run the eBPF program at their packet starts, and submitted
      `producer` of them, which are whole packets. */
  ghost predicate ForwardState(txLog: seq<Desc>, producer: nat, rxLog: seq<Desc>, seen: nat, nbFrags: nat,
                               runs: seq<nat>) {
    && producer <= |txLog| <= seen <= |rxLog|
    && txLog == ForwardedAll(rxLog[..|txLog|])
    && nbFrags == OpenFrags(rxLog[..|txLog|])
    && runs == Starts(rxLog[..|txLog|])
    && OpenFrags(rxLog[..producer]) == 0
  }

  lemma ForwardGrow(txLog: seq<Desc>, producer: nat, rxLog: seq<Desc>, rxLog': seq<Desc>, seen: nat, seen': nat,
                    nbFrags: nat, runs: seq<nat>)
    requires ForwardState(txLog, producer, rxLog, seen, nbFrags, runs)
    requires rxLog <= rxLog' && seen <= seen' <= |rxLog'|
    ensures ForwardState(txLog, producer, rxLog', seen', nbFrags, runs)
    ensures EopCount(rxLog'[..|txLog|]) == EopCount(rxLog[..|txLog|])
  {
    assert rxLog'[..|txLog|] == rxLog[..|txLog|] && rxLog'[..producer] == rxLog[..producer];
  }

  lemma ForwardStateLog(txLog: seq<Desc>, producer: nat, rxLog: seq<Desc>, seen: nat, nbFrags: nat, runs: seq<nat>)
    requires ForwardState(txLog, producer, rxLog, seen, nbFrags, runs)
    ensures |txLog| <= |rxLog| && txLog == ForwardedAll(rxLog[..|txLog|])
  {
  }

  /** One more descriptor. */
  lemma ForwardStep(txLog: seq<Desc>, producer: nat, rxLog: seq<Desc>, seen: nat, nbFrags: nat, runs: seq<nat>)
    requires ForwardState(txLog, producer, rxLog, seen, nbFrags, runs) && |txLog| < seen
    ensures var n := |txLog|;
      && ForwardState(txLog + [Forwarded(rxLog[n])], producer, rxLog, seen,
                      if Eop(rxLog[n]) then 0 else nbFrags + 1, if nbFrags == 0 then runs + [n] else runs)
      && EopCount(rxLog[..n + 1]) == EopCount(rxLog[..n]) + if Eop(rxLog[n]) then 1 else 0
  {
    Extend(rxLog, |txLog|);
    assert runs + [] == runs;
  }

  /** Submitting all complete packets. */
  lemma ForwardSubmit(txLog: seq<Desc>, producer: nat, rxLog: seq<Desc>, seen: nat, nbFrags: nat, runs: seq<nat>)
    requires ForwardState(txLog, producer, rxLog, seen, nbFrags, runs)
    ensures nbFrags <= |txLog|
    ensures ForwardState(txLog, |txLog| - nbFrags, rxLog, seen, nbFrags, runs)
  {
    CutOpen(rxLog[..|txLog|]);
    assert rxLog[..|txLog|][..|txLog| - nbFrags] == rxLog[..|txLog| - nbFrags];
  }

  /** What has been submitted to the tx ring is a sequence of whole packets, each with
      XDP_PKT_CONTD on every fragment but the last; the eBPF program has run exactly once for
      every packet begun, at its first fragment. */
  lemma SubmittedIsWhole(txLog: seq<Desc>, producer: nat, rxLog: seq<Desc>, seen: nat, nbFrags: nat, runs: seq<nat>)
    returns (ps: seq<seq<Desc>>)
    requires ForwardState(txLog, producer, rxLog, seen, nbFrags, runs)
    ensures txLog[..producer] == Concat(ps) && forall p :: p in ps ==> IsPacket(p)
    ensures |txLog| <= |rxLog| && forall i :: 0 <= i < |txLog| ==> Sends(txLog[i], rxLog[i])
    ensures forall i: nat :: i in runs <==> IsStart(rxLog[..|txLog|], i)
    ensures forall i, j :: 0 <= i < j < |runs| ==> runs[i] < runs[j]
    ensures |runs| == EopCount(rxLog[..|txLog|]) + if nbFrags > 0 then 1 else 0
  {
    var rest;
    assert txLog[..producer] == ForwardedAll(rxLog[..producer]) by {
      assert forall i :: 0 <= i < producer ==> rxLog[..|txLog|][i] == rxLog[..producer][i];
    }
    forall i | 0 <= i < |txLog| ensures Sends(txLog[i], rxLog[i]) {
      ForwardedSends(rxLog[i]);
      assert txLog[i] == Forwarded(rxLog[..|txLog|][i]);
    }
    OpenFragsForwarded(rxLog[..producer]);
    ps, rest := WholePackets(txLog[..producer]);
    assert rest == [] && Concat(ps) + rest == Concat(ps);
    OneStartPerPacket(rxLog[..|txLog|]);
    StartsAscend(rxLog[..|txLog|]);
    forall i: nat
      ensures i in runs <==> IsStart(rxLog[..|txLog|], i)
    {
      StartsAreStarts(rxLog[..|txLog|], i);
    }
  }

  lemma {:induction false} OpenFragsForwarded(s: seq<Desc>)
    ensures OpenFrags(ForwardedAll(s)) == OpenFrags(s)
  {
    if s != [] {
      OpenFragsForwarded(s[..|s| - 1]);
      assert ForwardedAll(s)[..|s| - 1] == ForwardedAll(s[..|s| - 1]);
    }
  }

  /** Cutting the open fragments off leaves whole packets. */
  lemma {:induction false} CutOpen(s: seq<Desc>)
    ensures OpenFrags(s[..|s| - OpenFrags(s)]) == 0
  {
    if s == [] || Eop(s[|s| - 1]) {
      assert s[..|s|] == s;
    } else {
      var t := s[..|s| - 1];
      CutOpen(t);
      assert t[..|t| - OpenFrags(t)] == s[..|s| - OpenFrags(s)];
    }
  }
}
