// The receive, forward and complete loops of afxdp/l2fwd/xdpsock.c on one socket, with a
// kernel that takes any number of its own steps between any two ring operations.

module AfXdp {
  import opened Rings
  import opened Fragments
  import opened Frames

  class Xsk {
    const fq: ProdRing<nat>
    const tx: ProdRing<Desc>
    const rx: ConsRing<Desc>
    const cq: ConsRing<nat>
    const frameSize: nat
    const batchSize: nat

    var outstandingTx: nat
    var nbFrags: nat
    var rxNpkts: nat
    var txNpkts: nat
    var rxFrags: nat
    var txFrags: nat

    // Frames in the hands of the kernel: taken from the fill ring, and addresses being sent.
    var kernelRx: seq<nat>
    var kernelTx: seq<nat>

    // The first rx and completion entries whose frames have not been handed on yet; they run
    // ahead of the consumer indices only between a submit and the release after it.
    ghost var rxMark: nat
    ghost var cqMark: nat
    // What outstandingTx still has to be corrected by.
    ghost var debt: int
    // The rx indices at which the eBPF program was run.
    ghost var ebpfRuns: seq<nat>

    // ----- the invariant

    ghost predicate Separate()
    {
      && fq as object != tx && fq as object != rx && fq as object != cq
      && tx as object != rx && tx as object != cq && rx as object != cq
      && fq.slots as object != tx.slots && fq.slots as object != rx.slots && fq.slots as object != cq.slots
      && tx.slots as object != rx.slots && tx.slots as object != cq.slots && rx.slots as object != cq.slots
    }

    ghost predicate Shape()
      reads this`rxMark, this`cqMark, fq, tx, rx, cq, fq.slots, tx.slots, rx.slots, cq.slots
    {
      && Separate() && frameSize > 0 && batchSize > 0
      && fq.Valid() && tx.Valid() && rx.Valid() && cq.Valid()
      && rx.consumer <= rxMark <= rx.cachedCons
      && cq.consumer <= cqMark <= cq.cachedCons
    }

    ghost function View(): Owners
      requires Shape()
      reads this`rxMark, this`cqMark, this`kernelRx, this`kernelTx, fq, tx, rx, cq, fq.slots, tx.slots
      reads rx.slots, cq.slots
    {
      Owners(FramesOf(fq.log[fq.consumer..fq.producer], frameSize), kernelRx,
             DescFrames(rx.log[rxMark..], frameSize),
             DescFrames(tx.log[tx.consumer..tx.producer], frameSize), FramesOf(kernelTx, frameSize),
             FramesOf(cq.log[cqMark..], frameSize))
    }

    /** Holds between any two steps of the program and the kernel: every frame put into the
        fill ring at the start has one owner, and outstandingTx counts what is on its way from
        the tx ring to the completion ring. */
    ghost predicate Inv()
      reads this`outstandingTx, this`kernelRx, this`kernelTx, this`rxMark, this`cqMark, this`debt, fq, tx, rx
      reads cq, fq.slots, tx.slots, rx.slots, cq.slots
    {
      && Shape()
      && View().All() == multiset(AllFrames(fq.size))
      && outstandingTx == (tx.producer - tx.consumer) + |kernelTx| + (cq.producer - cqMark) + debt
    }

    /** What l2fwd has done with what it received. */
    ghost predicate Forwarding()
      reads this`rxMark, this`nbFrags, this`ebpfRuns, tx, rx
    {
      rxMark == tx.producer && ForwardState(tx.log, tx.producer, rx.log, rx.cachedCons, nbFrags, ebpfRuns)
    }

    /** The fill and completion rings as complete_tx_l2fwd and rx_drop find and leave them. */
    ghost predicate Settled()
      reads this`cqMark, this`debt, fq, cq
    {
      && fq.producer == |fq.log| == fq.cachedProd
      && cqMark == cq.consumer == cq.cachedCons
      && debt == 0
    }

    /** Inside l2fwd: rcvd descriptors are peeked from the rx ring and as many tx entries
        reserved; everything before them has been dealt with. */
    ghost predicate Holding(rcvd: nat)
      reads this`outstandingTx, this`kernelRx, this`kernelTx, this`rxMark, this`cqMark, this`debt
      reads this`nbFrags, this`ebpfRuns, this`rxNpkts, this`txNpkts, this`rxFrags, this`txFrags, fq, tx, rx
      reads cq, fq.slots, tx.slots, rx.slots, cq.slots
    {
      Inv() && Forwarding() && Settled() && tx.cachedProd == |tx.log| + rcvd && Peeked(rcvd)
    }

    ghost predicate Peeked(rcvd: nat)
      reads this`rxMark, this`nbFrags, this`rxNpkts, this`txNpkts, this`rxFrags, this`txFrags, tx, rx
    {
      && rxMark == rx.consumer == tx.producer && tx.producer + nbFrags == |tx.log|
      && rx.cachedCons == |tx.log| + rcvd <= |rx.log|
      && rxNpkts == txNpkts == EopCount(rx.log[..|tx.log|])
      && rxFrags == txFrags == |tx.log|
    }

    /** Between two calls of l2fwd. */
    ghost predicate Idle()
      reads this`outstandingTx, this`kernelRx, this`kernelTx, this`rxMark, this`cqMark, this`debt
      reads this`nbFrags, this`ebpfRuns, this`rxNpkts, this`txNpkts, this`rxFrags, this`txFrags, fq, tx, rx
      reads cq, fq.slots, tx.slots, rx.slots, cq.slots
    {
      Holding(0)
    }

    /** Inside l2fwd: rcvd descriptors are peeked from the rx ring, and the tx ring has had no
        room for them so far. With none peeked this is Idle. */
    ghost predicate Waiting(rcvd: nat)
      reads this`outstandingTx, this`kernelRx, this`kernelTx, this`rxMark, this`cqMark, this`debt
      reads this`nbFrags, this`ebpfRuns, this`rxNpkts, this`txNpkts, this`rxFrags, this`txFrags, fq, tx, rx
      reads cq, fq.slots, tx.slots, rx.slots, cq.slots
    {
      Inv() && Forwarding() && Settled() && tx.cachedProd == |tx.log| && Peeked(rcvd)
    }

    /** Between two calls of rx_drop, in a run that never transmits. */
    ghost predicate DropIdle()
      reads this`outstandingTx, this`kernelRx, this`kernelTx, this`rxMark, this`cqMark, this`debt, fq, tx, rx
      reads cq, fq.slots, tx.slots, rx.slots, cq.slots
    {
      Inv() && Settled() && rxMark == rx.consumer == rx.cachedCons
    }

    lemma Facts()
      requires Inv()
      ensures Shape() && frameSize > 0 && batchSize > 0
      ensures rx.consumer <= rxMark <= rx.cachedCons <= rx.producer == |rx.log|
      ensures cq.consumer <= cqMark <= cq.cachedCons <= cq.producer == |cq.log|
      ensures fq.producer <= |fq.log| <= fq.cachedProd && tx.producer <= |tx.log| <= tx.cachedProd
    {
    }

    // ----- setting up

    /** xsk_configure_umem, xsk_configure_socket and xsk_populate_fill_ring. */
    constructor (fillSize: nat, compSize: nat, rxSize: nat, txSize: nat, frameSize: nat, batchSize: nat)
      requires RingSize(fillSize) && RingSize(compSize) && RingSize(rxSize) && RingSize(txSize)
      requires frameSize > 0 && batchSize > 0
      requires fillSize * frameSize <= 0x8000_0000
      ensures Idle() && DropIdle() && fq.size == fillSize && rx.log == []
      ensures this.frameSize == frameSize && this.batchSize == batchSize
      ensures fresh(fq) && fresh(fq.slots) && fresh(tx) && fresh(tx.slots)
      ensures fresh(rx) && fresh(rx.slots) && fresh(cq) && fresh(cq.slots)
    {
      hide Idle, DropIdle, AllFrames, ProdRing.Kept, ConsRing.Kept;
      fq := new ProdRing(fillSize);
      tx := new ProdRing(txSize);
      rx := new ConsRing(rxSize);
      cq := new ConsRing(compSize);
      this.frameSize, this.batchSize := frameSize, batchSize;
      outstandingTx, nbFrags, rxNpkts, txNpkts, rxFrags, txFrags := 0, 0, 0, 0, 0, 0;
      kernelRx, kernelTx := [], [];
      rxMark, cqMark, debt, ebpfRuns := 0, 0, 0, [];
      new;
      PopulateFillRing();
      Initially();
    }

    lemma Initially()
      requires Shape() && fq.consumer == 0 && fq.producer == fq.cachedProd == |fq.log| == fq.size
      requires FramesOf(fq.log, frameSize) == AllFrames(fq.size)
      requires tx.producer == tx.consumer == tx.cachedProd == 0 && tx.log == []
      requires rx.producer == rx.consumer == rx.cachedCons == 0 && rx.log == []
      requires cq.producer == cq.consumer == cq.cachedCons == 0 && cq.log == []
      requires outstandingTx == nbFrags == rxNpkts == txNpkts == rxFrags == txFrags == 0
      requires kernelRx == kernelTx == [] && debt == 0 && ebpfRuns == []
      ensures Idle() && DropIdle()
    {
      hide AllFrames, ProdRing.Kept, ConsRing.Kept;
      assert fq.log[0..fq.size] == fq.log;
      assert View().All() == multiset(AllFrames(fq.size));
    }

    /** Puts frame i at address i * frameSize into the fill ring, as many as the ring holds. */
    method PopulateFillRing()
      requires Shape() && fq.size * frameSize <= 0x8000_0000
      requires fq.producer == fq.consumer == fq.cachedProd == 0 && fq.log == []
      modifies fq`log, fq`producer, fq`cachedProd, fq`cachedCons, fq.slots
      ensures Shape() && fq.consumer == 0 && fq.producer == fq.cachedProd == |fq.log| == fq.size
      ensures FramesOf(fq.log, frameSize) == AllFrames(fq.size)
      ensures forall i :: 0 <= i < fq.size ==> fq.log[i] == i * frameSize
    {
      var ret, idx := fq.Reserve(fq.size);
      assert ret == fq.size;
      for i := 0 to fq.size
        invariant Shape() && fq.consumer == fq.producer == 0 && fq.cachedProd == fq.size
        invariant idx == i == |fq.log|
        invariant forall k :: 0 <= k < i ==> fq.log[k] == k * frameSize && FrameOf(fq.log[k], frameSize) == k
      {
        FrameOfStart(i, fq.size, frameSize);
        fq.Put(idx, i * frameSize);
        idx := idx + 1;
      }
      fq.Submit(fq.size);
    }

    lemma Counted()
      requires Inv()
      ensures View().Count() == fq.size
    {
      CountIsSize(View());
      AllFramesOnce(fq.size, 0);
    }

    // ----- the kernel

    method KernelTakeFill()
      requires Inv() && fq.consumer < fq.producer
      modifies fq`consumer, this`kernelRx
      ensures Inv() && fq.consumer == old(fq.consumer) + 1
    {
      hide FramesOf, DescFrames, FrameOf, Owners.All, ProdRing.Kept, ConsRing.Kept;
      ghost var o := View();
      FramesTail(fq.log, fq.consumer, fq.producer, frameSize);
      var addr := fq.KernelTake();
      kernelRx := kernelRx + [FrameOf(addr, frameSize)];
      MoveHead(o.fill, o.kernelRx);
      FillToKernel(o, o.fill[1..], o.kernelRx + [o.fill[0]]);
      assert View() == o.(fill := o.fill[1..], kernelRx := o.kernelRx + [o.fill[0]]);
    }

    /** A received fragment: any address in the frame, any length, any options. */
    method KernelDeliver(j: nat, d: Desc)
      requires Inv() && j < |kernelRx| && FrameOf(d.addr, frameSize) == kernelRx[j]
      requires rx.producer < rx.consumer + rx.size
      modifies rx`producer, rx`log, rx.slots, this`kernelRx
      ensures Inv() && rx.log == old(rx.log) + [d]
    {
      hide FramesOf, DescFrames, FrameOf, Owners.All, ProdRing.Kept, ConsRing.Kept;
      ghost var o := View();
      DescFramesSnoc(rx.log, d, rxMark, frameSize);
      rx.KernelPut(d);
      kernelRx := kernelRx[..j] + kernelRx[j + 1..];
      MoveOne(o.kernelRx, o.rx, j);
      KernelToRx(o, kernelRx, o.rx + [o.kernelRx[j]]);
      assert View() == o.(kernelRx := kernelRx, rx := o.rx + [o.kernelRx[j]]);
    }

    method KernelTakeTx()
      requires Inv() && tx.consumer < tx.producer
      modifies tx`consumer, this`kernelTx
      ensures Inv() && tx.consumer == old(tx.consumer) + 1
    {
      hide FramesOf, DescFrames, FrameOf, Owners.All, ProdRing.Kept, ConsRing.Kept;
      ghost var o := View();
      DescFramesTail(tx.log, tx.consumer, tx.producer, frameSize);
      var d := tx.KernelTake();
      FramesSnoc(kernelTx, d.addr, 0, frameSize);
      assert kernelTx[0..] == kernelTx && (kernelTx + [d.addr])[0..] == kernelTx + [d.addr];
      kernelTx := kernelTx + [d.addr];
      MoveHead(o.tx, o.kernelTx);
      TxToKernel(o, o.tx[1..], o.kernelTx + [o.tx[0]]);
      assert View() == o.(tx := o.tx[1..], kernelTx := o.kernelTx + [o.tx[0]]);
    }

    method KernelComplete(j: nat)
      requires Inv() && j < |kernelTx| && cq.producer < cq.consumer + cq.size
      modifies cq`producer, cq`log, cq.slots, this`kernelTx
      ensures Inv() && cq.log == old(cq.log) + [old(kernelTx)[j]]
    {
      hide FramesOf, DescFrames, FrameOf, Owners.All, ProdRing.Kept, ConsRing.Kept;
      ghost var o := View();
      FramesSnoc(cq.log, kernelTx[j], cqMark, frameSize);
      FramesWithout(kernelTx, j, frameSize);
      assert o.kernelTx[j] == FrameOf(kernelTx[j], frameSize) by { FramesAt(kernelTx, j, frameSize); }
      cq.KernelPut(kernelTx[j]);
      kernelTx := kernelTx[..j] + kernelTx[j + 1..];
      MoveOne(o.kernelTx, o.comp, j);
      KernelToComp(o, o.kernelTx[..j] + o.kernelTx[j + 1..], o.comp + [o.kernelTx[j]]);
      assert View() == o.(kernelTx := o.kernelTx[..j] + o.kernelTx[j + 1..], comp := o.comp + [o.kernelTx[j]]);
    }

    /** Any number of kernel steps. */
    method Kernel()
      requires Inv()
      modifies fq`consumer, tx`consumer, rx`producer, rx`log, rx.slots, cq`producer, cq`log, cq.slots
      modifies this`kernelRx, this`kernelTx
      ensures Inv() && (old(Forwarding()) ==> Forwarding())
      ensures old(rx.log) <= rx.log && old(cq.log) <= cq.log
      ensures old(fq.consumer) <= fq.consumer
    {
      hide FramesOf, DescFrames, FrameOf, Owners.All, ProdRing.Kept, ConsRing.Kept;
      hide Forwarding;
      var steps: nat := *;
      while steps > 0
        invariant Inv()
        invariant old(rx.log) <= rx.log && old(cq.log) <= cq.log
        invariant old(fq.consumer) <= fq.consumer
        decreases steps
      {
        var j: nat, d: Desc := *, *;
        if {
        case true =>
        case fq.consumer < fq.producer => KernelTakeFill();
        case j < |kernelRx| && FrameOf(d.addr, frameSize) == kernelRx[j] && rx.producer < rx.consumer + rx.size =>
          KernelDeliver(j, d);
        case tx.consumer < tx.producer => KernelTakeTx();
        case j < |kernelTx| && cq.producer < cq.consumer + cq.size => KernelComplete(j);
        }
        steps := steps - 1;
      }
      if old(Forwarding()) {
        ForwardingKept();
      }
    }

    /** What was forwarded does not depend on what arrives later. */
    twostate lemma ForwardingKept()
      requires old(Forwarding())
      requires old(rx.log) <= rx.log && old(rx.cachedCons) <= rx.cachedCons <= |rx.log|
      requires tx.log == old(tx.log) && tx.producer == old(tx.producer) && rxMark == old(rxMark)
      requires nbFrags == old(nbFrags) && ebpfRuns == old(ebpfRuns)
      ensures Forwarding()
      ensures |tx.log| <= |rx.log| && EopCount(rx.log[..|tx.log|]) == old(EopCount(rx.log[..|tx.log|]))
    {
      ForwardGrow(tx.log, tx.producer, old(rx.log), rx.log, old(rx.cachedCons), rx.cachedCons, nbFrags, ebpfRuns);
    }

    // ----- complete_tx_l2fwd

    /** Every fill-ring reservation succeeds at once: the frames to be put back are still
        counted elsewhere, so the fill ring, as large as the number of frames, has room. */
    method ReserveFill(rcvd: nat) returns (ret: nat, idx: nat)
      requires Inv() && fq.producer == fq.cachedProd
      requires rcvd <= cq.producer - cqMark || rcvd <= rx.producer - rxMark
      modifies fq`cachedProd, fq`cachedCons
      ensures Inv() && ret == rcvd && idx == old(fq.cachedProd) && fq.cachedProd == idx + rcvd
    {
      hide FramesOf, DescFrames, FrameOf, Owners.All, ProdRing.Kept, ConsRing.Kept, Forwarding;
      ghost var o := View();
      Counted();
      ret, idx := fq.Reserve(rcvd);
      assert View() == o;
    }

    /** Moves completed frames back to the fill ring, in completion order. */
    method CompleteTxL2fwd()
      requires Inv() && Settled()
      modifies this`outstandingTx, this`cqMark, this`debt, this`kernelRx, this`kernelTx
      modifies fq, fq.slots, cq, cq.slots, tx`consumer, rx`producer, rx`log, rx.slots
      ensures Inv() && Settled() && Shape() && (old(Forwarding()) ==> Forwarding())
      ensures old(rx.log) <= rx.log && old(cq.log) <= cq.log
      ensures old(cqMark) <= cqMark <= old(cqMark) + batchSize && cqMark <= |cq.log|
      ensures fq.log == old(fq.log) + cq.log[old(cqMark)..cqMark]
      ensures outstandingTx == old(outstandingTx) - (cqMark - old(cqMark))
      ensures old(outstandingTx) > 0 && old(cqMark < |cq.log|) ==> old(cqMark) < cqMark
    {
      hide Inv, Shape, View, Forwarding, ProdRing.Valid, ConsRing.Valid;
      Facts();
      if outstandingTx != 0 {
        CompleteSome();
      }
      Facts();
      if old(Forwarding()) {
        ForwardingKept();
      }
    }

    method CompleteSome()
      requires Inv() && Settled()
      modifies this`outstandingTx, this`cqMark, this`debt, this`kernelRx, this`kernelTx
      modifies fq, fq.slots, cq, cq.slots, tx`consumer, rx`producer, rx`log, rx.slots
      ensures Inv() && Settled()
      ensures old(rx.log) <= rx.log && old(cq.log) <= cq.log
      ensures old(cqMark) <= cqMark <= old(cqMark) + batchSize && cqMark <= |cq.log|
      ensures fq.log == old(fq.log) + cq.log[old(cqMark)..cqMark]
      ensures outstandingTx == old(outstandingTx) - (cqMark - old(cqMark))
      ensures old(outstandingTx) > 0 && old(cqMark < |cq.log|) ==> old(cqMark) < cqMark
    {
      hide Inv, Shape, View, Forwarding, ProdRing.Valid, ConsRing.Valid;
      Kernel();  // kick_tx
      Facts();
      var ndescs := if outstandingTx > batchSize then batchSize else outstandingTx;
      var rcvd, idxCq := PeekCompleted(ndescs);
      if rcvd > 0 {
        ReturnCompleted(rcvd, idxCq);
        FinishCompleted(rcvd);
      }
    }

    method ReturnCompleted(rcvd: nat, idxCq: nat)
      requires Inv() && idxCq == cqMark && cq.cachedCons == cqMark + rcvd
      requires fq.producer == |fq.log| == fq.cachedProd
      modifies this`cqMark, this`debt, this`kernelRx, this`kernelTx
      modifies fq, fq.slots, cq`producer, cq`log, cq.slots, tx`consumer, rx`producer, rx`log, rx.slots
      ensures Inv() && fq.producer == |fq.log| == fq.cachedProd
      ensures old(rx.log) <= rx.log && old(cq.log) <= cq.log
      ensures cqMark == old(cqMark) + rcvd && debt == old(debt) + rcvd && cqMark <= |cq.log|
      ensures fq.log == old(fq.log) + cq.log[old(cqMark)..cqMark]
    {
      hide Inv, Shape, View, Forwarding, ProdRing.Valid, ConsRing.Valid;
      Kernel();
      Facts();
      var ret, idxFq := ReserveFill(rcvd);
      Kernel();
      Facts();
      CopyCompleted(rcvd, idxCq, idxFq);
      Facts();
      SubmitCompleted(rcvd);
      Facts();
    }

    method FinishCompleted(rcvd: nat)
      requires Inv() && debt == rcvd && cqMark == cq.consumer + rcvd
      modifies this`outstandingTx, this`debt, this`kernelRx, this`kernelTx, cq`consumer
      modifies fq`consumer, tx`consumer, rx`producer, rx`log, rx.slots, cq`producer, cq`log, cq.slots
      ensures Inv() && debt == 0 && cqMark == cq.consumer
      ensures old(rx.log) <= rx.log && old(cq.log) <= cq.log
      ensures outstandingTx == old(outstandingTx) - rcvd
    {
      hide Inv, Shape, View, Forwarding, ProdRing.Valid, ConsRing.Valid;
      Kernel();
      ReleaseCompleted(rcvd);
      Kernel();
      SettleOutstanding(rcvd);
    }

    method PeekCompleted(nb: nat) returns (n: nat, idx: nat)
      requires Inv() && cqMark == cq.cachedCons
      modifies cq`cachedProd, cq`cachedCons
      ensures Inv() && n <= nb && idx == cqMark && cq.cachedCons == cqMark + n
      ensures n == 0 <==> nb == 0 || cqMark == |cq.log|
    {
      hide FramesOf, DescFrames, FrameOf, Owners.All, ProdRing.Kept, ConsRing.Kept, Forwarding;
      ghost var o := View();
      n, idx := cq.Peek(nb);
      assert View() == o;
    }

    method GetCompleted(idx: nat) returns (addr: nat)
      requires Inv() && cq.consumer <= idx < cq.cachedCons
      ensures idx < |cq.log| && addr == cq.log[idx]
    {
      addr := cq.Get(idx);
    }

    method CopyCompleted(rcvd: nat, first: nat, fqFirst: nat)
      requires Inv() && first == cqMark && cq.cachedCons == cqMark + rcvd
      requires fq.producer == |fq.log| == fqFirst && fq.cachedProd == fqFirst + rcvd
      modifies fq`consumer, fq`log, fq.slots, tx`consumer, rx`producer, rx`log, rx.slots, cq`producer, cq`log, cq.slots
      modifies this`kernelRx, this`kernelTx
      ensures Inv() && old(rx.log) <= rx.log && old(cq.log) <= cq.log
      ensures first + rcvd <= |cq.log| && fq.log == old(fq.log) + cq.log[first..first + rcvd]
    {
      hide Inv, Shape, View, Forwarding, ProdRing.Valid, ConsRing.Valid;
      Facts();
      var idxCq, idxFq := first, fqFirst;
      for i := 0 to rcvd
        invariant Inv() && idxCq == first + i && idxFq == fqFirst + i
        invariant old(rx.log) <= rx.log && old(cq.log) <= cq.log
        invariant first + rcvd <= |cq.log| && fq.log == old(fq.log) + cq.log[first..first + i]
      {
        var addr := GetCompleted(idxCq);
        Kernel();
        PutFill(idxFq, addr);
        ghost var seen := cq.log;
        assert seen[first..first + i + 1] == seen[first..first + i] + [addr];
        idxFq, idxCq := idxFq + 1, idxCq + 1;
        Kernel();
        assert cq.log[first..first + i + 1] == seen[first..first + i + 1];
      }
    }

    method ReleaseCompleted(rcvd: nat)
      requires Inv() && cq.consumer + rcvd <= cqMark
      modifies cq`consumer
      ensures Inv() && cq.consumer == old(cq.consumer) + rcvd
    {
      hide FramesOf, DescFrames, FrameOf, Owners.All, ProdRing.Kept, ConsRing.Kept, Forwarding;
      ghost var o := View();
      cq.Release(rcvd);
      assert View() == o;
    }

    /** The counter never wraps: what was completed is part of it. */
    method SettleOutstanding(rcvd: nat)
      requires Inv() && debt == rcvd
      modifies this`outstandingTx, this`debt
      ensures Inv() && debt == 0 && outstandingTx == old(outstandingTx) - rcvd
    {
      hide FramesOf, DescFrames, FrameOf, Owners.All, ProdRing.Kept, ConsRing.Kept, Forwarding;
      ghost var o := View();
      outstandingTx := outstandingTx - rcvd;
      debt := 0;
      assert View() == o;
    }

    method PutFill(idx: nat, addr: nat)
      requires Inv() && idx == |fq.log| < fq.cachedProd
      modifies fq`log, fq.slots
      ensures Inv() && fq.log == old(fq.log) + [addr]
    {
      hide FramesOf, DescFrames, FrameOf, Owners.All, ProdRing.Kept, ConsRing.Kept, Forwarding;
      ghost var o := View();
      fq.Put(idx, addr);
      assert fq.log[fq.consumer..fq.producer] == old(fq.log[fq.consumer..fq.producer]);
      assert View() == o;
    }

    method SubmitCompleted(rcvd: nat)
      requires Inv() && cqMark + rcvd <= cq.cachedCons && fq.producer + rcvd == |fq.log|
      requires fq.log[fq.producer..] == cq.log[cqMark..cqMark + rcvd]
      modifies fq`producer, this`cqMark, this`debt
      ensures Inv() && fq.producer == |fq.log| && cqMark == old(cqMark) + rcvd && debt == old(debt) + rcvd
    {
      hide FramesOf, DescFrames, FrameOf, Owners.All, ProdRing.Kept, ConsRing.Kept, Forwarding;
      ghost var o := View();
      FramesCopied(fq.log, fq.consumer, fq.producer, cq.log, cqMark, rcvd, frameSize);
      fq.Submit(rcvd);
      cqMark := cqMark + rcvd;
      debt := debt + rcvd;
      MoveFront(o.comp, o.fill, rcvd);
      CompToFill(o, o.comp[rcvd..], o.fill + o.comp[..rcvd]);
      assert View() == o.(comp := o.comp[rcvd..], fill := o.fill + o.comp[..rcvd]);
    }

    // ----- l2fwd

    /** One call. The loop that waits for room in the tx ring depends on the kernel, so it is
        cut off after `spins` rounds: the result is the number of received descriptors for
        which the call is still waiting, 0 when it is done. */
    method L2fwd(spins: nat) returns (waiting: nat)
      requires Idle()
      modifies this, fq, fq.slots, tx, tx.slots, rx, rx.slots, cq, cq.slots
      ensures Waiting(waiting) && waiting <= batchSize
      ensures old(rx.log) <= rx.log && old(tx.log) <= tx.log
      ensures |tx.log| + waiting <= old(|tx.log|) + batchSize
      ensures old(|tx.log| < |rx.log|) ==> old(|tx.log|) < |tx.log| + waiting
    {
      hide Inv, Shape, View, Forwarding, ProdRing.Valid, ConsRing.Valid;
      hide Settled, Peeked;
      Unread();
      CompleteFirst();
      KernelWhileWaiting(0);
      var rcvd, idxRx := PeekRx(batchSize);
      if rcvd == 0 {
        KernelWhileWaiting(0);
        return 0;
      }
      waiting := Resume(rcvd, spins);
    }

    /** The rest of a call, from the first or a later look for room in the tx ring. */
    method Resume(rcvd: nat, spins: nat) returns (waiting: nat)
      requires Waiting(rcvd) && rcvd > 0
      modifies this, fq, fq.slots, tx, tx.slots, rx, rx.slots, cq, cq.slots
      ensures Waiting(waiting) && (waiting == 0 || waiting == rcvd)
      ensures old(rx.log) <= rx.log && old(tx.log) <= tx.log
      ensures |tx.log| == old(|tx.log|) + rcvd - waiting
    {
      hide Inv, Shape, View, Forwarding, ProdRing.Valid, ConsRing.Valid;
      hide Settled, Peeked;
      KernelWhileWaiting(rcvd);
      var ready, idxTx := WaitForRoom(rcvd, spins);
      if !ready {
        return rcvd;
      }
      KernelWhileHolding(rcvd);
      ForwardBatch(rcvd, idxTx, idxTx);
      waiting := 0;
    }

    lemma Unread()
      requires Idle()
      ensures |tx.log| <= |rx.log| && batchSize > 0
    {
    }

    method CompleteFirst()
      requires Idle()
      modifies this`outstandingTx, this`cqMark, this`debt, this`kernelRx, this`kernelTx
      modifies fq, fq.slots, cq, cq.slots, tx`consumer, rx`producer, rx`log, rx.slots
      ensures Idle() && old(rx.log) <= rx.log
    {
      hide Inv, Shape, View, Forwarding, ProdRing.Valid, ConsRing.Valid;
      CompleteTxL2fwd();
      ForwardingKept();
    }

    method KernelWhileWaiting(rcvd: nat)
      requires Waiting(rcvd)
      modifies fq`consumer, tx`consumer, rx`producer, rx`log, rx.slots, cq`producer, cq`log, cq.slots
      modifies this`kernelRx, this`kernelTx
      ensures Waiting(rcvd) && old(rx.log) <= rx.log
    {
      hide Inv, Shape, View, Forwarding, ProdRing.Valid, ConsRing.Valid;
      Kernel();
      ForwardingKept();
    }

    method KernelWhileHolding(rcvd: nat)
      requires Holding(rcvd)
      modifies fq`consumer, tx`consumer, rx`producer, rx`log, rx.slots, cq`producer, cq`log, cq.slots
      modifies this`kernelRx, this`kernelTx
      ensures Holding(rcvd) && old(rx.log) <= rx.log
    {
      hide Inv, Shape, View, Forwarding, ProdRing.Valid, ConsRing.Valid;
      Kernel();
      ForwardingKept();
    }

    method PeekRx(nb: nat) returns (n: nat, idx: nat)
      requires Idle()
      modifies rx`cachedProd, rx`cachedCons
      ensures Waiting(n)
      ensures n <= nb && idx == |tx.log|
      ensures n == 0 <==> nb == 0 || |tx.log| == |rx.log|
    {
      hide FramesOf, DescFrames, FrameOf, Owners.All, ProdRing.Kept, ConsRing.Kept, Forwarding;
      ghost var o := View();
      n, idx := rx.Peek(nb);
      assert View() == o;
      ForwardingKept();
    }

    /** Reserves as many tx entries as were received, completing sends while there is no room. */
    method WaitForRoom(rcvd: nat, spins: nat) returns (ready: bool, idxTx: nat)
      requires Waiting(rcvd)
      modifies this`outstandingTx, this`cqMark, this`debt, this`kernelRx, this`kernelTx
      modifies tx`cachedProd, tx`cachedCons
      modifies fq, fq.slots, cq, cq.slots, tx`consumer, rx`producer, rx`log, rx.slots
      ensures old(rx.log) <= rx.log && idxTx == |tx.log|
      ensures if ready then Holding(rcvd) else Waiting(rcvd)
    {
      hide Inv, Shape, View, Forwarding, ProdRing.Valid, ConsRing.Valid;
      hide Settled, Peeked;
      var ret;
      ret, idxTx := ReserveTx(rcvd);
      var n := spins;
      while ret != rcvd
        invariant Inv() && Forwarding() && Settled() && Peeked(rcvd) && old(rx.log) <= rx.log
        invariant (ret == 0 || ret == rcvd) && tx.cachedProd == |tx.log| + ret && idxTx == |tx.log|
        decreases n
      {
        if n == 0 {
          return false, idxTx;
        }
        n := n - 1;
        CompleteAgain(rcvd);
        ret, idxTx := ReserveTx(rcvd);
      }
      ready := true;
    }

    method CompleteAgain(rcvd: nat)
      requires Inv() && Forwarding() && Settled() && Peeked(rcvd)
      modifies this`outstandingTx, this`cqMark, this`debt, this`kernelRx, this`kernelTx
      modifies fq, fq.slots, cq, cq.slots, tx`consumer, rx`producer, rx`log, rx.slots
      ensures Inv() && Forwarding() && Settled() && Peeked(rcvd) && old(rx.log) <= rx.log
    {
      hide Inv, Shape, View, Forwarding, ProdRing.Valid, ConsRing.Valid;
      CompleteTxL2fwd();
      Kernel();  // kick_tx
      ForwardingKept();
    }

    method ReserveTx(nb: nat) returns (n: nat, idx: nat)
      requires Inv() && Forwarding() && Settled() && Peeked(nb)
      modifies tx`cachedProd, tx`cachedCons
      ensures Inv() && Forwarding() && Settled() && Peeked(nb)
      ensures (n == nb || n == 0) && idx == old(tx.cachedProd) && tx.cachedProd == idx + n
    {
      hide FramesOf, DescFrames, FrameOf, Owners.All, ProdRing.Kept, ConsRing.Kept, Forwarding;
      ghost var o := View();
      n, idx := tx.Reserve(nb);
      assert View() == o;
      ForwardingKept();
    }

    /** The forwarding loop over one batch. Packets may have started in an earlier batch and
        may end in a later one; only whole packets are submitted and released. */
    method ForwardBatch(rcvd: nat, firstRx: nat, firstTx: nat)
      requires Holding(rcvd) && firstRx == firstTx == |tx.log|
      modifies this, fq`consumer, tx, tx.slots, rx, rx.slots, cq`producer, cq`log, cq.slots
      ensures Idle() && old(rx.log) <= rx.log && old(tx.log) <= tx.log && |tx.log| == firstTx + rcvd
    {
      hide Inv, Shape, View, Forwarding, ProdRing.Valid, ConsRing.Valid;
      var fragsDone, eopCnt := 0, 0;
      var idxRx, idxTx := firstRx, firstTx;
      for i := 0 to rcvd
        invariant Forwardable(i, rcvd, fragsDone, eopCnt) && idxRx == idxTx == |tx.log| == firstTx + i
        invariant old(rx.log) <= rx.log && old(tx.log) <= tx.log
      {
        fragsDone, eopCnt := ForwardNext(i, rcvd, fragsDone, eopCnt, idxRx, idxTx);
        idxRx, idxTx := idxRx + 1, idxTx + 1;
      }
      SubmitAndRelease(rcvd, fragsDone, eopCnt);
    }

    /** In the loop: i of rcvd descriptors done, the counters not yet brought up to date. */
    ghost predicate Forwardable(i: nat, rcvd: nat, fragsDone: nat, eopCnt: nat)
      reads this`outstandingTx, this`kernelRx, this`kernelTx, this`rxMark, this`cqMark, this`debt
      reads this`nbFrags, this`ebpfRuns, this`rxNpkts, this`txNpkts, this`rxFrags, this`txFrags, fq, tx, rx
      reads cq, fq.slots, tx.slots, rx.slots, cq.slots
    {
      && Inv() && Forwarding() && Settled() && i <= rcvd
      && rxMark == rx.consumer == tx.producer && tx.producer + fragsDone + nbFrags == |tx.log|
      && rx.cachedCons + i == tx.cachedProd + i == |tx.log| + rcvd && rx.cachedCons <= |rx.log|
      && rxNpkts == txNpkts && rxNpkts + eopCnt == EopCount(rx.log[..|tx.log|])
      && rxFrags == txFrags && rxFrags + i == |tx.log|
    }

    method ForwardNext(i: nat, rcvd: nat, fragsDone: nat, eopCnt: nat, idxRx: nat, idxTx: nat)
      returns (fragsDone': nat, eopCnt': nat)
      requires Forwardable(i, rcvd, fragsDone, eopCnt) && i < rcvd && idxRx == idxTx == |tx.log|
      modifies this`nbFrags, this`ebpfRuns, this`kernelRx, this`kernelTx
      modifies fq`consumer, tx`log, tx.slots, tx`consumer, rx`producer, rx`log, rx.slots, cq`producer, cq`log, cq.slots
      ensures Forwardable(i + 1, rcvd, fragsDone', eopCnt') && |tx.log| == idxTx + 1
      ensures old(rx.log) <= rx.log && old(tx.log) <= tx.log
    {
      hide Inv, Shape, View, Forwarding, ProdRing.Valid, ConsRing.Valid;
      fragsDone', eopCnt' := fragsDone, eopCnt;
      var desc := GetRx(idxRx);
      KernelInLoop(i, rcvd, fragsDone, eopCnt);
      var eop, frags := ForwardOne(desc, idxRx, idxTx);
      if eop {
        fragsDone', eopCnt' := fragsDone + frags, eopCnt + 1;
      }
      KernelInLoop(i + 1, rcvd, fragsDone', eopCnt');
    }

    method KernelInLoop(i: nat, rcvd: nat, fragsDone: nat, eopCnt: nat)
      requires Forwardable(i, rcvd, fragsDone, eopCnt)
      modifies fq`consumer, tx`consumer, rx`producer, rx`log, rx.slots, cq`producer, cq`log, cq.slots
      modifies this`kernelRx, this`kernelTx
      ensures Forwardable(i, rcvd, fragsDone, eopCnt) && old(rx.log) <= rx.log
    {
      hide Inv, Shape, View, Forwarding, ProdRing.Valid, ConsRing.Valid;
      Kernel();
      ForwardingKept();
    }

    /** One descriptor: the eBPF program runs on the first fragment of a packet, the
        descriptor goes to the tx ring, and an end of packet closes the run of fragments,
        whose number is returned. */
    method ForwardOne(desc: Desc, idxRx: nat, idxTx: nat) returns (eop: bool, frags: nat)
      requires Inv() && Forwarding() && rx.consumer <= |tx.log|
      requires idxRx == idxTx == |tx.log| < rx.cachedCons <= |rx.log| && |tx.log| < tx.cachedProd
      requires desc == rx.log[idxRx]
      modifies this`nbFrags, this`ebpfRuns, tx`log, tx.slots
      ensures Inv() && Forwarding() && |tx.log| == idxTx + 1 && old(tx.log) <= tx.log
      ensures if eop then nbFrags == 0 && frags == old(nbFrags) + 1 else nbFrags == old(nbFrags) + 1
      ensures EopCount(rx.log[..idxRx + 1]) == EopCount(rx.log[..idxRx]) + if eop then 1 else 0
      ensures tx.log == old(tx.log) + [tx.log[idxTx]]
      ensures tx.log[idxTx].addr == desc.addr && tx.log[idxTx].len == desc.len
      ensures tx.log[idxTx].options == (if desc.options % 2 == 1 then 1 else 0)
      ensures eop <==> desc.options % 2 == 0
    {
      hide Inv, Shape, View, ProdRing.Valid, ConsRing.Valid, ForwardState, Forwarded, Eop;
      EopIs(desc);
      ForwardedSends(desc);
      ForwardStep(tx.log, tx.producer, rx.log, rx.cachedCons, nbFrags, ebpfRuns);
      eop := Eop(desc);
      PutTx(idxTx, Forwarded(desc));
      if nbFrags == 0 {
        ebpfRuns := ebpfRuns + [idxRx];  // ebpf_process_packet
      }
      nbFrags := nbFrags + 1;
      frags := nbFrags;
      if eop {
        nbFrags := 0;
      }
    }

    method GetRx(idx: nat) returns (desc: Desc)
      requires Inv() && rx.consumer <= idx < rx.cachedCons
      ensures idx < |rx.log| && desc == rx.log[idx]
    {
      desc := rx.Get(idx);
    }

    method PutTx(idx: nat, d: Desc)
      requires Inv() && idx == |tx.log| < tx.cachedProd
      modifies tx`log, tx.slots
      ensures Inv() && tx.log == old(tx.log) + [d]
    {
      hide FramesOf, DescFrames, FrameOf, Owners.All, ProdRing.Kept, ConsRing.Kept, Forwarding;
      ghost var o := View();
      tx.Put(idx, d);
      assert tx.log[tx.consumer..tx.producer] == old(tx.log[tx.consumer..tx.producer]);
      assert View() == o;
    }

    method SubmitAndRelease(rcvd: nat, fragsDone: nat, eopCnt: nat)
      requires Forwardable(rcvd, rcvd, fragsDone, eopCnt)
      modifies this`rxMark, this`debt, this`kernelRx, this`kernelTx, this`outstandingTx
      modifies this`rxNpkts, this`txNpkts, this`rxFrags, this`txFrags
      modifies tx`producer, tx`consumer, rx`consumer, fq`consumer, rx`producer, rx`log, rx.slots
      modifies cq`producer, cq`log, cq.slots
      ensures Idle() && old(rx.log) <= rx.log
    {
      hide Inv, Shape, View, Forwarding, ProdRing.Valid, ConsRing.Valid;
      SubmitForwarded(fragsDone);
      KernelAfterSubmit(fragsDone);
      FinishBatch(rcvd, fragsDone, eopCnt);
    }

    method FinishBatch(rcvd: nat, fragsDone: nat, eopCnt: nat)
      requires Inv() && Forwarding() && debt + fragsDone == 0 && rxMark == rx.consumer + fragsDone == tx.producer
      requires fq.producer == |fq.log| == fq.cachedProd && cqMark == cq.consumer == cq.cachedCons
      requires |tx.log| == tx.cachedProd == rx.cachedCons && tx.producer + nbFrags == |tx.log| <= |rx.log|
      requires rxNpkts == txNpkts && rxFrags == txFrags && rxFrags + rcvd == |tx.log|
      requires rxNpkts + eopCnt == EopCount(rx.log[..|tx.log|])
      modifies rx`consumer, this`outstandingTx, this`debt, this`rxNpkts, this`txNpkts, this`rxFrags, this`txFrags
      ensures Idle()
    {
      hide Inv, Shape, View, Forwarding, ProdRing.Valid, ConsRing.Valid;
      hide EopCount;
      ReleaseKeepingForwarded(fragsDone);
      CountForwarded(rcvd, eopCnt);
    }

    method CountForwarded(rcvd: nat, eopCnt: nat)
      modifies this`rxNpkts, this`txNpkts, this`rxFrags, this`txFrags
      ensures rxNpkts == old(rxNpkts) + eopCnt && txNpkts == old(txNpkts) + eopCnt
      ensures rxFrags == old(rxFrags) + rcvd && txFrags == old(txFrags) + rcvd
    {
      rxNpkts, txNpkts := rxNpkts + eopCnt, txNpkts + eopCnt;
      rxFrags, txFrags := rxFrags + rcvd, txFrags + rcvd;
    }

    method ReleaseKeepingForwarded(fragsDone: nat)
      requires Inv() && Forwarding() && debt + fragsDone == 0 && rxMark == rx.consumer + fragsDone
      requires rx.cachedCons <= |rx.log|
      modifies rx`consumer, this`outstandingTx, this`debt
      ensures Inv() && Forwarding() && debt == 0 && rx.consumer == rxMark
    {
      hide Inv, Shape, View, Forwarding, ProdRing.Valid, ConsRing.Valid;
      ReleaseForwarded(fragsDone);
      ForwardingKept();
    }

    method KernelAfterSubmit(fragsDone: nat)
      requires Inv() && Forwarding() && rx.cachedCons <= |rx.log|
      modifies fq`consumer, tx`consumer, rx`producer, rx`log, rx.slots, cq`producer, cq`log, cq.slots
      modifies this`kernelRx, this`kernelTx
      ensures Inv() && Forwarding() && old(rx.log) <= rx.log
      ensures |tx.log| <= |rx.log| && EopCount(rx.log[..|tx.log|]) == old(EopCount(rx.log[..|tx.log|]))
    {
      hide Inv, Shape, View, Forwarding, ProdRing.Valid, ConsRing.Valid;
      Kernel();
      ForwardingKept();
    }

    /** Whole packets only: the open fragments stay reserved. */
    method SubmitForwarded(fragsDone: nat)
      requires Inv() && Forwarding() && tx.producer + fragsDone + nbFrags == |tx.log|
      requires rxMark + fragsDone <= rx.cachedCons
      modifies tx`producer, this`rxMark, this`debt
      ensures Inv() && Forwarding()
      ensures tx.producer == old(tx.producer) + fragsDone && rxMark == old(rxMark) + fragsDone
      ensures debt == old(debt) - fragsDone
    {
      hide Inv, Shape, View, ForwardState, ProdRing.Valid, ConsRing.Valid;
      ForwardSubmit(tx.log, tx.producer, rx.log, rx.cachedCons, nbFrags, ebpfRuns);
      ForwardStateLog(tx.log, tx.producer, rx.log, rx.cachedCons, nbFrags, ebpfRuns);
      SubmitTx(fragsDone);
    }

    method SubmitTx(fragsDone: nat)
      requires Inv() && rxMark == tx.producer && tx.producer + fragsDone <= |tx.log| <= |rx.log|
      requires rxMark + fragsDone <= rx.cachedCons && tx.log == ForwardedAll(rx.log[..|tx.log|])
      modifies tx`producer, this`rxMark, this`debt
      ensures Inv()
      ensures tx.producer == old(tx.producer) + fragsDone && rxMark == old(rxMark) + fragsDone
      ensures debt == old(debt) - fragsDone
    {
      hide FramesOf, DescFrames, FrameOf, Owners.All, ProdRing.Kept, ConsRing.Kept, ForwardedAll;
      ghost var o := View();
      FramesForwarded(tx.log, tx.consumer, tx.producer, rx.log, fragsDone, frameSize);
      tx.Submit(fragsDone);
      rxMark := rxMark + fragsDone;
      debt := debt - fragsDone;
      MoveFront(o.rx, o.tx, fragsDone);
      RxToTx(o, o.rx[fragsDone..], o.tx + o.rx[..fragsDone]);
      assert View() == o.(rx := o.rx[fragsDone..], tx := o.tx + o.rx[..fragsDone]);
    }

    method ReleaseForwarded(fragsDone: nat)
      requires Inv() && debt + fragsDone == 0 && rxMark == rx.consumer + fragsDone
      modifies rx`consumer, this`outstandingTx, this`debt
      ensures Inv() && debt == 0 && rx.consumer == rxMark
      ensures outstandingTx == old(outstandingTx) + fragsDone
    {
      hide FramesOf, DescFrames, FrameOf, Owners.All, ProdRing.Kept, ConsRing.Kept, Forwarding;
      ghost var o := View();
      rx.Release(fragsDone);
      outstandingTx := outstandingTx + fragsDone;
      debt := 0;
      assert View() == o;
    }

    // ----- runs

    /** Any number of calls with the kernel at work; a call that is still waiting for room goes
        on in the next round. The socket never leaves the invariant. */
    method L2fwdAll(rounds: nat, spins: nat) returns (waiting: nat)
      requires Idle()
      modifies this, fq, fq.slots, tx, tx.slots, rx, rx.slots, cq, cq.slots
      ensures Waiting(waiting)
      ensures old(rx.log) <= rx.log && old(tx.log) <= tx.log
      ensures rounds > 0 && old(|tx.log| < |rx.log|) ==> old(|tx.log|) < |tx.log| + waiting
    {
      hide Idle, Waiting, Inv, Shape, View, Forwarding, ProdRing.Valid, ConsRing.Valid;
      IdleIsWaiting();
      waiting := 0;
      for i := 0 to rounds
        invariant Waiting(waiting)
        invariant old(rx.log) <= rx.log && old(tx.log) <= tx.log
        invariant i > 0 && old(|tx.log| < |rx.log|) ==> old(|tx.log|) < |tx.log| + waiting
      {
        if waiting == 0 {
          IdleIsWaiting();
          waiting := L2fwd(spins);
        } else {
          waiting := Resume(waiting, spins);
        }
      }
    }

    lemma IdleIsWaiting()
      ensures Idle() <==> Waiting(0)
    {
    }

    /** In every state between or within calls, outstanding_tx is the number of frames in the
        tx ring, in the hands of the sending kernel and in the completion ring. */
    lemma OutstandingIsInFlight(rcvd: nat)
      requires Waiting(rcvd)
      ensures outstandingTx == |View().tx| + |View().kernelTx| + |View().comp|
    {
      hide ForwardState, FrameOf, Owners.All, ProdRing.Kept, ConsRing.Kept, EopCount;
    }

    /** In every state between or within calls, nb_frags is both what is reserved but not
        submitted on the tx ring and what is taken but not released on the rx ring. */
    lemma FragmentsPending(rcvd: nat)
      requires Waiting(rcvd)
      ensures nbFrags == tx.cachedProd - tx.producer == rx.cachedCons - rcvd - rx.consumer
      ensures nbFrags == OpenFrags(rx.log[..rx.cachedCons - rcvd])
    {
      hide Inv, OpenFrags;
    }

    /** Whenever the invariant holds, each frame has exactly one owner. */
    lemma EachFrameOwnedOnce(f: nat)
      requires Inv() && f < fq.size
      ensures View().Holders(f) == 1 && View().All()[f] == 1
    {
      OneOwner(View(), fq.size, f);
    }

    /** Whenever l2fwd's invariant holds, what the tx ring has been given is a sequence of
        whole packets, the forwarded form of what was received, in order; and the eBPF program
        has run once for each packet begun, at its first fragment. */
    lemma ForwardsWholePackets() returns (ps: seq<seq<Desc>>)
      requires Inv() && Forwarding()
      ensures tx.producer <= |tx.log| <= |rx.log|
      ensures tx.log[..tx.producer] == ForwardedAll(rx.log[..tx.producer]) == Concat(ps)
      ensures forall i :: 0 <= i < tx.producer ==>
        && tx.log[i].addr == rx.log[i].addr && tx.log[i].len == rx.log[i].len
        && tx.log[i].options == (if rx.log[i].options % 2 == 1 then 1 else 0)
      ensures forall p :: p in ps ==> IsPacket(p)
      ensures forall i: nat :: i in ebpfRuns <==> IsStart(rx.log[..|tx.log|], i)
      ensures forall i, j :: 0 <= i < j < |ebpfRuns| ==> ebpfRuns[i] < ebpfRuns[j]
      ensures |ebpfRuns| == EopCount(rx.log[..|tx.log|]) + if nbFrags > 0 then 1 else 0
    {
      ps := SubmittedIsWhole(tx.log, tx.producer, rx.log, rx.cachedCons, nbFrags, ebpfRuns);
      assert forall i :: 0 <= i < tx.producer ==> rx.log[..|tx.log|][i] == rx.log[..tx.producer][i];
    }

    // ----- rx_drop

    /** One call: what was received goes straight back to the fill ring. */
    method RxDrop()
      requires DropIdle()
      modifies this`rxMark, this`kernelRx, this`kernelTx, this`rxNpkts, this`rxFrags
      modifies fq, fq.slots, rx, rx.slots, tx`consumer, cq`producer, cq`log, cq.slots
      ensures DropIdle() && old(rx.log) <= rx.log && old(rxMark) <= rxMark <= |rx.log|
      ensures fq.log == old(fq.log) + BareAddrs(rx.log[old(rxMark)..rxMark])
      ensures rxFrags == old(rxFrags) + (rxMark - old(rxMark))
      ensures rxNpkts == old(rxNpkts) + EopCount(rx.log[old(rxMark)..rxMark])
      ensures rxMark <= old(rxMark) + batchSize
      ensures old(rxMark < |rx.log|) ==> old(rxMark) < rxMark
    {
      hide Inv, Shape, View, Forwarding, ProdRing.Valid, ConsRing.Valid;
      hide BareAddrs, EopCount;
      Facts();
      KernelWhileDropping();
      var rcvd, idxRx := PeekDrop(batchSize);
      if rcvd == 0 {
        KernelWhileDropping();
      } else {
        DropBatch(rcvd, idxRx);
      }
    }

    /** Any number of calls with the kernel at work. */
    method RxDropAll(rounds: nat)
      requires DropIdle()
      modifies this`rxMark, this`kernelRx, this`kernelTx, this`rxNpkts, this`rxFrags
      modifies fq, fq.slots, rx, rx.slots, tx`consumer, cq`producer, cq`log, cq.slots
      ensures DropIdle() && old(rx.log) <= rx.log && old(rxMark) <= rxMark <= |rx.log|
      ensures fq.log == old(fq.log) + BareAddrs(rx.log[old(rxMark)..rxMark])
      ensures rounds > 0 && old(rxMark < |rx.log|) ==> old(rxMark) < rxMark
    {
      hide Inv, Shape, View, Forwarding, ProdRing.Valid, ConsRing.Valid, BareAddrs, EopCount;
      Facts();
      EmptyDrop(rx.log, rxMark);
      for i := 0 to rounds
        invariant DropIdle() && old(rx.log) <= rx.log && old(rxMark) <= rxMark <= |rx.log|
        invariant fq.log == old(fq.log) + BareAddrs(rx.log[old(rxMark)..rxMark])
        invariant i > 0 && old(rxMark < |rx.log|) ==> old(rxMark) < rxMark
      {
        ghost var mark, seen := rxMark, rx.log;
        RxDrop();
        DropMore(rx.log, old(rxMark), mark, rxMark);
        assert seen[old(rxMark)..mark] == rx.log[old(rxMark)..mark];
      }
    }

    lemma DropMore(s: seq<Desc>, from: nat, mid: nat, to: nat)
      requires from <= mid <= to <= |s|
      ensures BareAddrs(s[from..mid]) + BareAddrs(s[mid..to]) == BareAddrs(s[from..to])
    {
    }

    method KernelWhileDropping()
      requires DropIdle()
      modifies fq`consumer, tx`consumer, rx`producer, rx`log, rx.slots, cq`producer, cq`log, cq.slots
      modifies this`kernelRx, this`kernelTx
      ensures DropIdle() && old(rx.log) <= rx.log && rxMark <= |rx.log|
      ensures BareAddrs(rx.log[rxMark..rxMark]) == [] && EopCount(rx.log[rxMark..rxMark]) == 0
    {
      hide Inv, Shape, View, Forwarding, ProdRing.Valid, ConsRing.Valid;
      Kernel();
      Facts();
      EmptyDrop(rx.log, rxMark);
    }

    method DropBatch(rcvd: nat, idxRx: nat)
      requires Inv() && Settled() && idxRx == rxMark == rx.consumer && rx.cachedCons == rxMark + rcvd <= |rx.log|
      modifies this`rxMark, this`kernelRx, this`kernelTx, this`rxNpkts, this`rxFrags
      modifies fq, fq.slots, rx`consumer, rx`producer, rx`log, rx.slots, tx`consumer, cq`producer, cq`log, cq.slots
      ensures DropIdle() && old(rx.log) <= rx.log && rxMark == old(rxMark) + rcvd <= |rx.log|
      ensures fq.log == old(fq.log) + BareAddrs(rx.log[old(rxMark)..rxMark])
      ensures rxFrags == old(rxFrags) + rcvd
      ensures rxNpkts == old(rxNpkts) + EopCount(rx.log[old(rxMark)..rxMark])
    {
      hide Inv, Shape, View, Forwarding, ProdRing.Valid, ConsRing.Valid;
      hide BareAddrs, EopCount;
      var eopCnt := ReturnDropped(rcvd, idxRx);
      ReleaseDropped(rcvd);
      CountDropped(rcvd, eopCnt);
    }

    method CountDropped(rcvd: nat, eopCnt: nat)
      modifies this`rxNpkts, this`rxFrags
      ensures rxNpkts == old(rxNpkts) + eopCnt && rxFrags == old(rxFrags) + rcvd
    {
      rxNpkts, rxFrags := rxNpkts + eopCnt, rxFrags + rcvd;
    }

    lemma EmptyDrop(s: seq<Desc>, at: nat)
      requires at <= |s|
      ensures BareAddrs(s[at..at]) == [] && EopCount(s[at..at]) == 0
    {
    }

    method ReturnDropped(rcvd: nat, idxRx: nat) returns (eopCnt: nat)
      requires Inv() && idxRx == rxMark && rx.cachedCons == rxMark + rcvd <= |rx.log|
      requires fq.producer == |fq.log| == fq.cachedProd
      modifies this`rxMark, this`kernelRx, this`kernelTx
      modifies fq, fq.slots, rx`producer, rx`log, rx.slots, tx`consumer, cq`producer, cq`log, cq.slots
      ensures Inv() && fq.producer == |fq.log| == fq.cachedProd
      ensures old(rx.log) <= rx.log && rxMark == old(rxMark) + rcvd <= |rx.log|
      ensures fq.log == old(fq.log) + BareAddrs(rx.log[old(rxMark)..rxMark])
      ensures eopCnt == EopCount(rx.log[old(rxMark)..rxMark])
    {
      hide Inv, Shape, View, Forwarding, ProdRing.Valid, ConsRing.Valid;
      hide BareAddrs, EopCount;
      Kernel();
      Facts();
      var ret, idxFq := ReserveFill(rcvd);
      Kernel();
      Facts();
      eopCnt := CopyDropped(rcvd, idxRx, idxFq);
      SubmitDropped(rcvd);
      KernelAfterDrop();
    }

    method KernelAfterDrop()
      requires Inv() && rxMark <= |rx.log|
      modifies fq`consumer, tx`consumer, rx`producer, rx`log, rx.slots, cq`producer, cq`log, cq.slots
      modifies this`kernelRx, this`kernelTx
      ensures Inv() && old(rx.log) <= rx.log
      ensures forall i: nat :: i <= rxMark ==> rx.log[i..rxMark] == old(rx.log)[i..rxMark]
    {
      hide Inv, Shape, View, Forwarding, ProdRing.Valid, ConsRing.Valid;
      Kernel();
    }

    method PeekDrop(nb: nat) returns (n: nat, idx: nat)
      requires Inv() && rxMark == rx.cachedCons
      modifies rx`cachedProd, rx`cachedCons
      ensures Inv() && n <= nb && idx == rxMark && rx.cachedCons == idx + n <= |rx.log|
      ensures n == 0 <==> nb == 0 || rxMark == |rx.log|
    {
      hide FramesOf, DescFrames, FrameOf, Owners.All, ProdRing.Kept, ConsRing.Kept, Forwarding;
      ghost var o := View();
      n, idx := rx.Peek(nb);
      assert View() == o;
    }

    method CopyDropped(rcvd: nat, first: nat, fqFirst: nat) returns (eopCnt: nat)
      requires Inv() && first == rxMark && rx.cachedCons == rxMark + rcvd <= |rx.log|
      requires fq.producer == |fq.log| == fqFirst && fq.cachedProd == fqFirst + rcvd
      modifies fq`consumer, fq`log, fq.slots, tx`consumer, rx`producer, rx`log, rx.slots, cq`producer, cq`log, cq.slots
      modifies this`kernelRx, this`kernelTx
      ensures Inv() && old(rx.log) <= rx.log && first + rcvd <= |rx.log|
      ensures fq.log == old(fq.log) + BareAddrs(rx.log[first..first + rcvd])
      ensures eopCnt == EopCount(rx.log[first..first + rcvd])
    {
      hide Inv, Shape, View, Forwarding, ProdRing.Valid, ConsRing.Valid;
      hide BareAddrs, EopCount, ExtractAddr, Eop;
      Facts();
      var idxRx, idxFq := first, fqFirst;
      eopCnt := 0;
      EmptyDrop(rx.log, first);
      for i := 0 to rcvd
        invariant Inv() && idxRx == first + i && idxFq == fqFirst + i
        invariant old(rx.log) <= rx.log && first + rcvd <= |rx.log|
        invariant fq.log == old(fq.log) + BareAddrs(rx.log[first..first + i])
        invariant eopCnt == EopCount(rx.log[first..first + i])
      {
        ghost var seen := rx.log;
        var eop := CopyOne(idxRx, idxFq);
        eopCnt := eopCnt + if eop then 1 else 0;
        idxFq, idxRx := idxFq + 1, idxRx + 1;
        DropNext(rx.log, first, i);
        assert rx.log[first..first + i] == seen[first..first + i];
      }
    }

    method CopyOne(idxRx: nat, idxFq: nat) returns (eop: bool)
      requires Inv() && rxMark <= idxRx < rx.cachedCons && fq.producer <= |fq.log| == idxFq < fq.cachedProd
      modifies fq`consumer, fq`log, fq.slots, tx`consumer, rx`producer, rx`log, rx.slots, cq`producer, cq`log, cq.slots
      modifies this`kernelRx, this`kernelTx
      ensures Inv() && old(rx.log) <= rx.log && idxRx < |rx.log|
      ensures fq.log == old(fq.log) + [ExtractAddr(rx.log[idxRx].addr)] && eop == Eop(rx.log[idxRx])
    {
      hide Inv, Shape, View, ProdRing.Valid, ConsRing.Valid, ExtractAddr, Eop;
      var desc := GetDrop(idxRx);
      Kernel();
      PutFill(idxFq, ExtractAddr(desc.addr));
      eop := Eop(desc);
      Kernel();
    }

    lemma DropNext(s: seq<Desc>, first: nat, i: nat)
      requires first + i < |s|
      ensures BareAddrs(s[first..first + i + 1]) == BareAddrs(s[first..first + i]) + [ExtractAddr(s[first + i].addr)]
      ensures EopCount(s[first..first + i + 1]) == EopCount(s[first..first + i]) + if Eop(s[first + i]) then 1 else 0
    {
      assert s[first..first + i + 1][..i] == s[first..first + i];
    }

    method GetDrop(idx: nat) returns (desc: Desc)
      requires Inv() && rxMark <= idx < rx.cachedCons
      ensures idx < |rx.log| && desc == rx.log[idx]
    {
      desc := rx.Get(idx);
    }

    method SubmitDropped(rcvd: nat)
      requires Inv() && rxMark + rcvd <= rx.cachedCons <= |rx.log| && fq.producer + rcvd == |fq.log|
      requires fq.log[fq.producer..] == BareAddrs(rx.log[rxMark..rxMark + rcvd])
      modifies fq`producer, this`rxMark
      ensures Inv() && fq.producer == |fq.log| && rxMark == old(rxMark) + rcvd
    {
      hide FramesOf, DescFrames, FrameOf, Owners.All, ProdRing.Kept, ConsRing.Kept, Forwarding, BareAddrs;
      ghost var o := View();
      FramesDropped(fq.log, fq.consumer, fq.producer, rx.log, rxMark, rcvd, frameSize);
      fq.Submit(rcvd);
      rxMark := rxMark + rcvd;
      MoveFront(o.rx, o.fill, rcvd);
      RxToFill(o, o.rx[rcvd..], o.fill + o.rx[..rcvd]);
      assert View() == o.(rx := o.rx[rcvd..], fill := o.fill + o.rx[..rcvd]);
    }

    method ReleaseDropped(rcvd: nat)
      requires Inv() && rx.consumer + rcvd == rxMark
      modifies rx`consumer
      ensures Inv() && rx.consumer == rxMark
    {
      hide FramesOf, DescFrames, FrameOf, Owners.All, ProdRing.Kept, ConsRing.Kept, Forwarding;
      ghost var o := View();
      rx.Release(rcvd);
      assert View() == o;
    }
  }

  /** Every state of forwarding that is reached from a new socket. */
  method ForwardFromStart(fillSize: nat, compSize: nat, rxSize: nat, txSize: nat, frameSize: nat, batchSize: nat,
                          rounds: nat, spins: nat)
    returns (xsk: Xsk, waiting: nat)
    requires RingSize(fillSize) && RingSize(compSize) && RingSize(rxSize) && RingSize(txSize)
    requires frameSize > 0 && batchSize > 0
    requires fillSize * frameSize <= 0x8000_0000
    ensures xsk.Waiting(waiting) && xsk.fq.size == fillSize
    ensures forall f: nat :: f < fillSize ==> xsk.View().Holders(f) == 1
    ensures xsk.outstandingTx == |xsk.View().tx| + |xsk.View().kernelTx| + |xsk.View().comp|
  {
    hide Xsk.Idle, Xsk.DropIdle, Xsk.Inv, Xsk.Forwarding, Xsk.Peeked, Xsk.View, Xsk.Settled, Owners.Holders;
    xsk := new Xsk(fillSize, compSize, rxSize, txSize, frameSize, batchSize);
    waiting := xsk.L2fwdAll(rounds, spins);
    xsk.Facts();
    forall f: nat | f < fillSize
      ensures xsk.View().Holders(f) == 1
    {
      xsk.EachFrameOwnedOnce(f);
    }
    xsk.OutstandingIsInFlight(waiting);
  }
}
