/**
 The same program over a kernel that may deliver into any frame it holds. The fill ring is still never
 rewritten, so what a return hands back was settled at the start; what it should hand back depends on the kernel.
 */
module XskAnyOrder {
  import opened Words
  import opened XskReceive

  /** The socket, and the frame each delivery went into. */
  datatype Any<P> = Any(rx: Rx<P>, addrs: seq<nat>)

  /** Delivery into the `i`-th frame held, or any other step. */
  datatype AnyEvent<P> = Pick(packet: Arrival<P>, i: nat) | Other(e: Event<P>)

  predicate Effective<P>(s: Any<P>, e: AnyEvent<P>) { e.Pick? && CanDeliver(s.rx) && e.i < |s.rx.held| }

  function AnyStep<P>(s: Any<P>, e: AnyEvent<P>): (t: Any<P>)
    requires Shaped(s.rx)
    ensures Shaped(t.rx) && t.rx.n == s.rx.n && t.rx.frameSize == s.rx.frameSize && t.rx.fill == s.rx.fill
  {
    if Effective(s, e) then Any(DeliverNth(s.rx, e.packet, e.i), s.addrs + [s.rx.held[e.i]])
    else if e.Other? && !e.e.Deliver? then s.(rx := Step(s.rx, e.e))
    else s
  }

  function AnyRun<P>(s: Any<P>, es: seq<AnyEvent<P>>): (t: Any<P>)
    requires Shaped(s.rx)
    ensures Shaped(t.rx) && t.rx.n == s.rx.n && t.rx.frameSize == s.rx.frameSize && t.rx.fill == s.rx.fill
  {
    if es == [] then s else AnyStep(AnyRun(s, es[..|es| - 1]), es[|es| - 1])
  }

  /** Every delivery of the run went into the frame held longest. */
  predicate InOrder<P>(s: Any<P>, es: seq<AnyEvent<P>>)
    requires Shaped(s.rx)
  {
    es != [] ==>
      && InOrder(s, es[..|es| - 1])
      && (Effective(AnyRun(s, es[..|es| - 1]), es[|es| - 1]) ==> es[|es| - 1].i == 0)
  }

  /** The frame handed back for delivery `j`, whenever that happens. */
  function Returned<P>(s: Any<P>, j: nat): nat
    requires Shaped(s.rx)
  {
    FillAddr(s.rx, s.rx.n + j)
  }

  /** Every delivery has its own frame handed back. */
  predicate AllReturnedRight<P>(s: Any<P>)
    requires Shaped(s.rx)
  {
    forall j | 0 <= j < |s.addrs| :: Returned(s, j) == s.addrs[j]
  }

  /** What holds in whatever order frames are used. */
  ghost predicate AnyInv<P>(s: Any<P>) {
    && Counts(s.rx) && |s.addrs| == |s.rx.delivered|
    && (forall j | s.rx.released <= j < |s.rx.delivered| :: s.rx.rx[j % s.rx.n].addr == s.addrs[j])
  }

  lemma StepKeepsAnyInv<P>(s: Any<P>, e: AnyEvent<P>)
    requires AnyInv(s)
    ensures AnyInv(AnyStep(s, e)) && s.addrs <= AnyStep(s, e).addrs
  {
    if Effective(s, e) {
      var d := |s.rx.delivered|;
      forall j | s.rx.released <= j < d
        ensures j % s.rx.n != d % s.rx.n
      {
        SlotsDiffer(j, d, s.rx.n);
      }
    }
  }

  lemma {:induction false} RunKeepsAnyInv<P>(s: Any<P>, es: seq<AnyEvent<P>>)
    requires AnyInv(s)
    ensures AnyInv(AnyRun(s, es)) && s.addrs <= AnyRun(s, es).addrs
  {
    if es != [] {
      RunKeepsAnyInv(s, es[..|es| - 1]);
      StepKeepsAnyInv(AnyRun(s, es[..|es| - 1]), es[|es| - 1]);
    }
  }

  /** The next submit hands back `Returned` of the oldest packet read, whose descriptor named its own frame. */
  lemma NextReturn<P>(s: Any<P>)
    requires AnyInv(s) && s.rx.submitted < |s.rx.read|
    ensures HandedBack(s.rx) == Returned(s, s.rx.submitted)
    ensures OldestRead(s.rx) == s.addrs[s.rx.submitted]
  {
  }

  /** A delivery in fill order is returned right and keeps the invariant; one out of order is returned wrong. */
  lemma PickIsRightIff<P>(s: Any<P>, e: AnyEvent<P>)
    requires AnyInv(s) && Inv(s.rx) && Effective(s, e)
    ensures var t := AnyStep(s, e); Returned(t, |s.addrs|) == t.addrs[|s.addrs|] <==> e.i == 0
    ensures e.i == 0 ==> Inv(AnyStep(s, e).rx)
  {
    ReuseNeedsFillOrder(s.rx, e.packet, e.i);
    if e.i == 0 {
      DeliverKeepsInv(s.rx, e.packet);
    }
  }

  lemma StepIsRightIff<P>(s: Any<P>, e: AnyEvent<P>)
    requires AnyInv(s)
    requires AllReturnedRight(s) ==> Inv(s.rx)
    ensures var t := AnyStep(s, e);
            && (AllReturnedRight(t) ==> Inv(t.rx))
            && (AllReturnedRight(t) <==> AllReturnedRight(s) && (Effective(s, e) ==> e.i == 0))
  {
    var t := AnyStep(s, e);
    StepKeepsAnyInv(s, e);
    assert forall j: nat :: Returned(t, j) == Returned(s, j);
    if AllReturnedRight(t) {
      forall j | 0 <= j < |s.addrs|
        ensures Returned(s, j) == s.addrs[j]
      {
        assert Returned(t, j) == t.addrs[j];
      }
    }
    if AllReturnedRight(s) {
      if Effective(s, e) {
        PickIsRightIff(s, e);
      } else if e.Other? {
        StepKeepsInv(s.rx, e.e);
      }
    }
  }

  /**
   Over every run, whichever frames the kernel picks: all frames are handed back for themselves if and only if
   every delivery was made in fill order.
   */
  lemma {:induction false} ReturnedRightIff<P>(s: Any<P>, es: seq<AnyEvent<P>>)
    requires AnyInv(s) && Inv(s.rx) && AllReturnedRight(s)
    ensures AllReturnedRight(AnyRun(s, es)) <==> InOrder(s, es)
    ensures AllReturnedRight(AnyRun(s, es)) ==> Inv(AnyRun(s, es).rx)
  {
    if es != [] {
      ReturnedRightIff(s, es[..|es| - 1]);
      RunKeepsAnyInv(s, es[..|es| - 1]);
      StepIsRightIff(AnyRun(s, es[..|es| - 1]), es[|es| - 1]);
    }
  }

  /** In particular from the populated fill ring. */
  lemma FreshSocketIsRight<P>(n: nat, frameSize: nat, umem: map<nat, P>, rx: seq<Desc>)
    requires n > 0 && frameSize > 0 && |rx| == n
    ensures var s := Any(Start(n, frameSize, umem, rx), []);
            AnyInv(s) && Inv(s.rx) && AllReturnedRight(s)
  {
  }
}
