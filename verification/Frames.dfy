// Which frames of the packet memory are where.

module Frames {
  import opened DivMod
  import opened Fragments

  const ADDR_SPACE: nat := 0x1_0000_0000_0000

  /** xsk_umem__extract_addr: the low 48 bits, without an unaligned-mode offset. */
  function ExtractAddr(addr: nat): nat {
    addr % ADDR_SPACE
  }

  /** The low 48 bits: what is left of an address when an offset above bit 47 is taken off. */
  lemma ExtractAddrIs(base: nat, offset: nat)
    requires base < 0x1_0000_0000_0000
    ensures ExtractAddr(base + 0x1_0000_0000_0000 * offset) == base
  {
  }

  /** The frame an address lies in. The kernel may hand out any address inside a frame. */
  function FrameOf(addr: nat, frameSize: nat): nat
    requires frameSize > 0
  {
    ExtractAddr(addr) / frameSize
  }

  lemma FrameOfStart(i: nat, n: nat, frameSize: nat)
    requires i < n && frameSize > 0 && n * frameSize <= 0x8000_0000
    ensures FrameOf(i * frameSize, frameSize) == i
  {
    assert 0 <= i * frameSize <= n * frameSize by {
      assert n * frameSize == i * frameSize + (n - i) * frameSize;
      assert (n - i) * frameSize >= 0;
    }
    DivModUnique(i * frameSize, frameSize, i, 0);
  }

  /** Every address inside a frame lies in it. */
  lemma FrameOfInside(i: nat, offset: nat, frameSize: nat)
    requires offset < frameSize && i * frameSize + offset < 0x1_0000_0000_0000
    ensures FrameOf(i * frameSize + offset, frameSize) == i
  {
    DivModUnique(i * frameSize + offset, frameSize, i, offset);
  }

  ghost function FramesOf(s: seq<nat>, frameSize: nat): (r: seq<nat>)
    requires frameSize > 0
    ensures |r| == |s|
    ensures forall i :: 0 <= i < |s| ==> r[i] == FrameOf(s[i], frameSize)
  {
    seq(|s|, i requires 0 <= i < |s| => FrameOf(s[i], frameSize))
  }

  ghost function DescFrames(s: seq<Desc>, frameSize: nat): (r: seq<nat>)
    requires frameSize > 0
    ensures |r| == |s|
    ensures forall i :: 0 <= i < |s| ==> r[i] == FrameOf(s[i].addr, frameSize)
  {
    seq(|s|, i requires 0 <= i < |s| => FrameOf(s[i].addr, frameSize))
  }

  lemma DescFramesSnoc(s: seq<Desc>, d: Desc, from: nat, frameSize: nat)
    requires from <= |s| && frameSize > 0
    ensures DescFrames((s + [d])[from..], frameSize) == DescFrames(s[from..], frameSize) + [FrameOf(d.addr, frameSize)]
  {
  }

  lemma FramesSnoc(s: seq<nat>, a: nat, from: nat, frameSize: nat)
    requires from <= |s| && frameSize > 0
    ensures FramesOf((s + [a])[from..], frameSize) == FramesOf(s[from..], frameSize) + [FrameOf(a, frameSize)]
  {
  }

  lemma FramesTail(s: seq<nat>, from: nat, to: nat, frameSize: nat)
    requires from < to <= |s| && frameSize > 0
    ensures FramesOf(s[from + 1..to], frameSize) == FramesOf(s[from..to], frameSize)[1..]
    ensures FramesOf(s[from..to], frameSize)[0] == FrameOf(s[from], frameSize)
  {
  }

  lemma DescFramesTail(s: seq<Desc>, from: nat, to: nat, frameSize: nat)
    requires from < to <= |s| && frameSize > 0
    ensures DescFrames(s[from + 1..to], frameSize) == DescFrames(s[from..to], frameSize)[1..]
    ensures DescFrames(s[from..to], frameSize)[0] == FrameOf(s[from].addr, frameSize)
  {
  }

  /** A run of frames copied from one log to another. */
  lemma FramesCopied(fill: seq<nat>, consumer: nat, producer: nat, comp: seq<nat>, mark: nat, n: nat, frameSize: nat)
    requires frameSize > 0 && consumer <= producer && producer + n == |fill| && mark + n <= |comp|
    requires fill[producer..] == comp[mark..mark + n]
    ensures FramesOf(fill[consumer..producer + n], frameSize)
         == FramesOf(fill[consumer..producer], frameSize) + FramesOf(comp[mark..], frameSize)[..n]
    ensures FramesOf(comp[mark + n..], frameSize) == FramesOf(comp[mark..], frameSize)[n..]
  {
    hide FrameOf;
    assert forall i :: producer <= i < producer + n ==>
      fill[i] == fill[producer..][i - producer] == comp[mark + (i - producer)];
  }

  /** A run of fragments handed from the rx ring to the tx ring. */
  lemma FramesForwarded(txLog: seq<Desc>, consumer: nat, producer: nat, rxLog: seq<Desc>, n: nat, frameSize: nat)
    requires frameSize > 0 && consumer <= producer && producer + n <= |txLog| <= |rxLog|
    requires txLog == ForwardedAll(rxLog[..|txLog|])
    ensures DescFrames(txLog[consumer..producer + n], frameSize)
         == DescFrames(txLog[consumer..producer], frameSize) + DescFrames(rxLog[producer..], frameSize)[..n]
    ensures DescFrames(rxLog[producer + n..], frameSize) == DescFrames(rxLog[producer..], frameSize)[n..]
  {
    hide FrameOf, ForwardedAll;
    ForwardedAddrs(txLog, rxLog);
  }

  lemma ForwardedAddrs(txLog: seq<Desc>, rxLog: seq<Desc>)
    requires |txLog| <= |rxLog| && txLog == ForwardedAll(rxLog[..|txLog|])
    ensures forall i :: 0 <= i < |txLog| ==> txLog[i].addr == rxLog[i].addr
  {
    assert forall i :: 0 <= i < |txLog| ==> txLog[i] == Forwarded(rxLog[..|txLog|][i]);
  }

  ghost function BareAddrs(s: seq<Desc>): (r: seq<nat>)
    ensures |r| == |s| && forall i :: 0 <= i < |s| ==> r[i] == ExtractAddr(s[i].addr)
  {
    seq(|s|, i requires 0 <= i < |s| => ExtractAddr(s[i].addr))
  }

  /** rx_drop puts bare addresses back: they lie in the same frames. */
  lemma BareAddrsSameFrames(s: seq<Desc>, frameSize: nat)
    requires frameSize > 0
    ensures FramesOf(BareAddrs(s), frameSize) == DescFrames(s, frameSize)
  {
  }

  lemma FramesDropped(fill: seq<nat>, consumer: nat, producer: nat, rxLog: seq<Desc>, mark: nat, n: nat, frameSize: nat)
    requires frameSize > 0 && consumer <= producer && producer + n == |fill| && mark + n <= |rxLog|
    requires fill[producer..] == BareAddrs(rxLog[mark..mark + n])
    ensures FramesOf(fill[consumer..producer + n], frameSize)
         == FramesOf(fill[consumer..producer], frameSize) + DescFrames(rxLog[mark..], frameSize)[..n]
    ensures DescFrames(rxLog[mark + n..], frameSize) == DescFrames(rxLog[mark..], frameSize)[n..]
  {
    hide FrameOf, BareAddrs;
    BareAddrsSameFrames(rxLog[mark..mark + n], frameSize);
    var d := DescFrames(rxLog[mark..mark + n], frameSize);
    assert FramesOf(fill[producer..], frameSize) == d == DescFrames(rxLog[mark..], frameSize)[..n];
    assert fill[consumer..producer + n] == fill[consumer..producer] + fill[producer..];
    FramesAppend(fill[consumer..producer], fill[producer..], frameSize);
  }

  lemma FramesAppend(a: seq<nat>, b: seq<nat>, frameSize: nat)
    requires frameSize > 0
    ensures FramesOf(a + b, frameSize) == FramesOf(a, frameSize) + FramesOf(b, frameSize)
  {
  }

  lemma FramesAt(s: seq<nat>, j: nat, frameSize: nat)
    requires j < |s| && frameSize > 0
    ensures FramesOf(s, frameSize)[j] == FrameOf(s[j], frameSize)
  {
  }

  lemma FramesWithout(s: seq<nat>, j: nat, frameSize: nat)
    requires j < |s| && frameSize > 0
    ensures FramesOf(s[..j] + s[j + 1..], frameSize)
         == FramesOf(s, frameSize)[..j] + FramesOf(s, frameSize)[j + 1..]
  {
  }

  ghost function AllFrames(n: nat): seq<nat> {
    seq(n, i => i)
  }

  /** Who holds which frames: submitted to the fill ring, taken from it by the kernel, in the
      rx ring (unread, or read and waiting for the end of the packet), submitted to the tx
      ring, being sent by the kernel, and in the completion ring. */
  datatype Owners = Owners(fill: seq<nat>, kernelRx: seq<nat>, rx: seq<nat>,
                           tx: seq<nat>, kernelTx: seq<nat>, comp: seq<nat>)
  {
    ghost function All(): multiset<nat> {
      multiset(fill) + multiset(kernelRx) + multiset(rx) + multiset(tx) + multiset(kernelTx) + multiset(comp)
    }

    ghost function Count(): nat {
      |fill| + |kernelRx| + |rx| + |tx| + |kernelTx| + |comp|
    }

    /** How many of the six owners hold frame f. */
    ghost function Holders(f: nat): nat {
      (if f in fill then 1 else 0) + (if f in kernelRx then 1 else 0) + (if f in rx then 1 else 0)
      + (if f in tx then 1 else 0) + (if f in kernelTx then 1 else 0) + (if f in comp then 1 else 0)
    }
  }

  lemma CountIsSize(o: Owners)
    ensures |o.All()| == o.Count()
  {
  }

  lemma {:induction false} AllFramesOnce(n: nat, f: nat)
    ensures multiset(AllFrames(n))[f] == if f < n then 1 else 0
    ensures |AllFrames(n)| == n
  {
    if n > 0 {
      AllFramesOnce(n - 1, f);
      assert AllFrames(n) == AllFrames(n - 1) + [n - 1];
    }
  }

  /** Conserved frames have exactly one owner, and occur there once. */
  lemma OneOwner(o: Owners, n: nat, f: nat)
    requires o.All() == multiset(AllFrames(n)) && f < n
    ensures o.Holders(f) == 1 && o.All()[f] == 1
  {
    AllFramesOnce(n, f);
    assert multiset(o.fill)[f] > 0 <==> f in o.fill;
    assert multiset(o.kernelRx)[f] > 0 <==> f in o.kernelRx;
    assert multiset(o.rx)[f] > 0 <==> f in o.rx;
    assert multiset(o.tx)[f] > 0 <==> f in o.tx;
    assert multiset(o.kernelTx)[f] > 0 <==> f in o.kernelTx;
    assert multiset(o.comp)[f] > 0 <==> f in o.comp;
  }

  // What one owner gives another one gets: nothing is lost and nothing doubled.

  lemma SameCounts(o: Owners, o': Owners)
    requires forall f: nat :: Occurrences(o, f) == Occurrences(o', f)
    ensures o'.All() == o.All()
  {
    hide Owners.All, Occurrences;
    forall f: nat
      ensures o'.All()[f] == o.All()[f]
    {
      AllCounts(o, f);
      AllCounts(o', f);
    }
  }

  ghost function Occurrences(o: Owners, f: nat): nat {
    multiset(o.fill)[f] + multiset(o.kernelRx)[f] + multiset(o.rx)[f]
    + multiset(o.tx)[f] + multiset(o.kernelTx)[f] + multiset(o.comp)[f]
  }

  lemma EachCount(a: seq<nat>, b: seq<nat>, c: seq<nat>, d: seq<nat>)
    requires multiset(a) + multiset(b) == multiset(c) + multiset(d)
    ensures forall f: nat :: multiset(a)[f] + multiset(b)[f] == multiset(c)[f] + multiset(d)[f]
  {
    forall f: nat
      ensures multiset(a)[f] + multiset(b)[f] == multiset(c)[f] + multiset(d)[f]
    {
      assert (multiset(a) + multiset(b))[f] == (multiset(c) + multiset(d))[f];
    }
  }

  lemma FillToKernel(o: Owners, from: seq<nat>, to: seq<nat>)
    requires multiset(from) + multiset(to) == multiset(o.fill) + multiset(o.kernelRx)
    ensures o.(fill := from, kernelRx := to).All() == o.All()
  {
    EachCount(from, to, o.fill, o.kernelRx);
    SameCounts(o, o.(fill := from, kernelRx := to));
  }

  lemma KernelToRx(o: Owners, from: seq<nat>, to: seq<nat>)
    requires multiset(from) + multiset(to) == multiset(o.kernelRx) + multiset(o.rx)
    ensures o.(kernelRx := from, rx := to).All() == o.All()
  {
    EachCount(from, to, o.kernelRx, o.rx);
    SameCounts(o, o.(kernelRx := from, rx := to));
  }

  lemma RxToTx(o: Owners, from: seq<nat>, to: seq<nat>)
    requires multiset(from) + multiset(to) == multiset(o.rx) + multiset(o.tx)
    ensures o.(rx := from, tx := to).All() == o.All()
  {
    EachCount(from, to, o.rx, o.tx);
    SameCounts(o, o.(rx := from, tx := to));
  }

  lemma RxToFill(o: Owners, from: seq<nat>, to: seq<nat>)
    requires multiset(from) + multiset(to) == multiset(o.rx) + multiset(o.fill)
    ensures o.(rx := from, fill := to).All() == o.All()
  {
    EachCount(from, to, o.rx, o.fill);
    SameCounts(o, o.(rx := from, fill := to));
  }

  lemma TxToKernel(o: Owners, from: seq<nat>, to: seq<nat>)
    requires multiset(from) + multiset(to) == multiset(o.tx) + multiset(o.kernelTx)
    ensures o.(tx := from, kernelTx := to).All() == o.All()
  {
    EachCount(from, to, o.tx, o.kernelTx);
    SameCounts(o, o.(tx := from, kernelTx := to));
  }

  lemma KernelToComp(o: Owners, from: seq<nat>, to: seq<nat>)
    requires multiset(from) + multiset(to) == multiset(o.kernelTx) + multiset(o.comp)
    ensures o.(kernelTx := from, comp := to).All() == o.All()
  {
    EachCount(from, to, o.kernelTx, o.comp);
    SameCounts(o, o.(kernelTx := from, comp := to));
  }

  lemma CompToFill(o: Owners, from: seq<nat>, to: seq<nat>)
    requires multiset(from) + multiset(to) == multiset(o.comp) + multiset(o.fill)
    ensures o.(comp := from, fill := to).All() == o.All()
  {
    EachCount(from, to, o.comp, o.fill);
    SameCounts(o, o.(comp := from, fill := to));
  }

  lemma AllCounts(o: Owners, f: nat)
    ensures o.All()[f] == Occurrences(o, f)
  {
  }

  /** Moving one element, the head or a front run from one sequence to the end of another. */
  lemma MoveOne(a: seq<nat>, b: seq<nat>, j: nat)
    requires j < |a|
    ensures multiset(a[..j] + a[j + 1..]) + multiset(b + [a[j]]) == multiset(a) + multiset(b)
  {
    assert a == a[..j] + [a[j]] + a[j + 1..];
  }

  lemma MoveHead(a: seq<nat>, b: seq<nat>)
    requires a != []
    ensures multiset(a[1..]) + multiset(b + [a[0]]) == multiset(a) + multiset(b)
  {
    assert a == [a[0]] + a[1..];
  }

  lemma MoveFront(a: seq<nat>, b: seq<nat>, n: nat)
    requires n <= |a|
    ensures multiset(a[n..]) + multiset(b + a[..n]) == multiset(a) + multiset(b)
  {
    assert a == a[..n] + a[n..];
  }
}
