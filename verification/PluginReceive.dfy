/**
 The open62541 XDP plugin's receive and release, and the reader callback that pairs them. A packet the
 filter refuses is peeked and its fill slot reserved, but nothing is ever handed back for it.
 */
module PluginReceive {
  import opened Words
  import opened Rings
  import opened XskReceive
  import opened XskSocket
  import opened UadpFrame

  datatype Status = Good | GoodNoData | GoodNonCriticalTimeout | BadInternalError

  const FRAMES: u32 := 2048

  /** Between callbacks: every descriptor looked at is either released or was refused by the filter. */
  ghost predicate Quiet<P>(s: Rx<P>) {
    s.submitted == s.released && |s.read| == s.reserved == s.peeked
  }

  /** Entries waiting in the fill ring, frames inside the kernel, and packets nobody has looked at. */
  function InCirculation<P>(s: Rx<P>): int { (s.n + s.submitted - s.taken) + |s.held| + Unread(s) }

  function NotReturned<P>(s: Rx<P>): int { |s.read| - s.released }

  /** Each refused packet takes one frame out of circulation. */
  lemma RefusedFramesAreLost<P>(s: Rx<P>)
    requires Inv(s) && Quiet(s)
    ensures InCirculation(s) == s.n - NotReturned(s)
  {
  }

  /** The oldest packet not read before has been read. */
  ghost predicate ReadOneMore<P>(s: Rx<P>, t: Rx<P>) {
    && |t.read| == |s.read| + 1 && t.read[..|s.read|] == s.read
    && t.read <= t.delivered
  }

  /** A message stays intact in its frame, whatever the kernel does, until its own callback releases. */
  lemma MessageStaysPut<P>(s: Rx<P>, es: seq<Event<P>>)
    requires Inv(s) && KernelOnly(es) && s.submitted < |s.read|
    ensures var t, j := Run(s, es), |s.read| - 1;
            Addr(s, j) in t.umem && t.umem[Addr(s, j)] == s.read[j].frame
  {
    RunKeepsInv(s, es);
    KernelRunsAside(s, es);
    var t, j := Run(s, es), |s.read| - 1;
    assert Addr(t, j) in t.umem && t.umem[Addr(t, j)] == t.delivered[j].frame;
  }

  /** The steps a callback can cause without accepting anything, and those of the kernel. */
  predicate ReleasesNothing<P>(es: seq<Event<P>>) {
    forall i | 0 <= i < |es| :: !es[i].SubmitFill? && !es[i].ReleaseRx?
  }

  /** Once as many packets were refused as there are frames, no packet is ever received again. */
  lemma {:induction false} Starved<P>(s: Rx<P>, es: seq<Event<P>>)
    requires Inv(s) && Quiet(s) && NotReturned(s) == s.n && ReleasesNothing(es)
    ensures Run(s, es) == s
  {
    if es != [] {
      Starved(s, es[..|es| - 1]);
    }
  }

  /** Until then the kernel can always bring another packet. */
  lemma ReceivesUntilStarved<P>(s: Rx<P>, p: Arrival<P>)
    requires Inv(s) && Quiet(s)
    ensures Unread(Run(s, [Deliver(p)])) > 0 || Unread(Run(s, [TakeFill, Deliver(p)])) > 0
            <==> NotReturned(s) < s.n
  {
    RunThen(s, [], Deliver(p));
    RunThen(s, [], TakeFill);
    RunThen(s, [TakeFill], Deliver(p));
    assert [] + [Deliver(p)] == [Deliver(p)] && [] + [TakeFill] == [Event<P>.TakeFill];
    assert [Event<P>.TakeFill] + [Deliver(p)] == [TakeFill, Deliver(p)];
  }

  /** One callback: what `select` returned, and the kernel's activity between the accesses. */
  datatype Turn = Turn(ready: int, k: seq<seq<Event<Frame>>>)

  predicate Scheduled(t: Turn) { |t.k| == 4 && forall i | 0 <= i < 4 :: KernelOnly(t.k[i]) }

  /** How many callbacks had a message to process. */
  function Messages(views: seq<View>): nat {
    if views == [] then 0 else Messages(views[..|views| - 1]) + (if views[|views| - 1] == NoMessage then 0 else 1)
  }

  class Channel {
    const self: Endpoint
    const xsk: RxSocket<Frame>

    ghost var accepted: nat
    ghost var refused: nat

    ghost predicate Valid()
      reads this, xsk
    {
      && xsk.Valid() && xsk.n == FRAMES
      && Quiet(xsk.m)
      && xsk.m.released == accepted
      && |xsk.m.read| == accepted + refused
    }

    constructor (self: Endpoint, xsk: RxSocket<Frame>)
      requires xsk.Valid() && xsk.n == FRAMES && xsk.m.read == [] && Quiet(xsk.m)
      ensures Valid() && accepted == refused == 0 && this.xsk == xsk && this.self == self
    {
      this.self, this.xsk := self, xsk;
      accepted, refused := 0, 0;
    }

    /**
     `receive`. `ready` is the result of the select call, `k` the kernel's activity between accesses. It
     reads the oldest unread packet, if there is one; reserving its replacement cannot fail.
     */
    method Receive(ready: int, k: seq<seq<Event<Frame>>>) returns (status: Status, message: View)
      requires xsk.Valid() && Quiet(xsk.m)
      requires |k| == 3 && forall i | 0 <= i < 3 :: KernelOnly(k[i])
      modifies xsk
      ensures xsk.Valid() && Quiet(xsk.m) && xsk.m.released == old(xsk.m.released)
      ensures status == BadInternalError <==> ready == -1
      ensures status == GoodNonCriticalTimeout <==> ready == 0
      ensures xsk.m.read == old(xsk.m.read) ==> message == NoMessage && status != Good
      ensures xsk.m.read != old(xsk.m.read) ==>
                && ready != 0 && ready != -1
                && ReadOneMore(old(xsk.m), xsk.m)
                && var a := xsk.m.read[|old(xsk.m).read|];
                   message == Seen(self, a.frame, a.len) && (status == Good <==> Accepts(self, a.frame))
      ensures ready != 0 && ready != -1 && old(Unread(xsk.m)) > 0 ==> xsk.m.read != old(xsk.m.read)
      ensures old(NotReturned(xsk.m)) == xsk.n ==> xsk.m == old(xsk.m)
    {
      message := NoMessage;
      if ready == 0 {
        return GoodNonCriticalTimeout, NoMessage;
      }
      if ready == -1 {
        return BadInternalError, NoMessage;
      }
      if NotReturned(xsk.m) == xsk.n {
        Starved(xsk.m, k[0]);
      }
      xsk.Kernel(k[0]);
      var rcvd := xsk.PeekOne();
      if rcvd.Refused? {
        return GoodNoData, NoMessage;
      }
      status, message := Fetch(rcvd.idx, k[1], k[2]);
    }

    /** The part of `receive` after a successful peek. */
    method Fetch(idx: u32, k1: seq<Event<Frame>>, k2: seq<Event<Frame>>) returns (status: Status, message: View)
      requires xsk.Valid() && |xsk.m.read| == xsk.m.reserved && xsk.m.reserved + 1 == xsk.m.peeked
      requires Mask(idx, xsk.n) == |xsk.m.read| % xsk.n && xsk.m.submitted == xsk.m.released
      requires KernelOnly(k1) && KernelOnly(k2)
      modifies xsk
      ensures xsk.Valid() && Quiet(xsk.m) && xsk.m.released == old(xsk.m.released)
      ensures ReadOneMore(old(xsk.m), xsk.m)
      ensures var a := xsk.m.read[|old(xsk.m).read|];
              message == Seen(self, a.frame, a.len) && status == if Accepts(self, a.frame) then Good else GoodNoData
    {
      Claim(k1, k2);
      var a := xsk.ReadOne(idx);
      if !Accepts(self, a.frame) {
        return GoodNoData, NoMessage;
      }
      return Good, Seen(self, a.frame, a.len);
    }

    method Claim(k1: seq<Event<Frame>>, k2: seq<Event<Frame>>)
      requires xsk.Valid() && xsk.m.reserved + 1 == xsk.m.peeked && KernelOnly(k1) && KernelOnly(k2)
      modifies xsk
      ensures xsk.Valid() && SameProgram(old(xsk.m).(reserved := old(xsk.m.peeked)), xsk.m)
    {
      xsk.Kernel(k1);
      var ret := xsk.ReserveOne();
      if ret.Refused? {
        assert false;  // the internal error the C code reports here cannot occur
      }
      xsk.Kernel(k2);
    }

    /** `release`: submits one reserved fill slot and releases one descriptor, the oldest of each. */
    method Release(k: seq<Event<Frame>>)
      requires xsk.Valid() && xsk.m.submitted == xsk.m.released < |xsk.m.read| && KernelOnly(k)
      modifies xsk
      ensures xsk.Valid() && xsk.m.submitted == xsk.m.released == old(xsk.m.released) + 1
      ensures xsk.m.read == old(xsk.m.read)
      ensures xsk.m.reserved == old(xsk.m.reserved) && xsk.m.peeked == old(xsk.m.peeked)
    {
      xsk.SubmitOne();
      xsk.Kernel(k);
      xsk.ReleaseOne();
    }

    /**
     The reader callback: receive, process what arrived, release. Over any number of callbacks the frames in
     circulation number exactly 2048 minus the packets that were looked at and not released.
     */
    method ReaderCallback(ready: int, k: seq<seq<Event<Frame>>>) returns (processed: View)
      requires Valid()
      requires |k| == 4 && forall i | 0 <= i < 4 :: KernelOnly(k[i])
      modifies this, xsk
      ensures Valid() && InCirculation(xsk.m) == FRAMES - refused
      ensures xsk.m.read == old(xsk.m.read) ==>
                processed == NoMessage && accepted == old(accepted) && refused == old(refused)
      ensures xsk.m.read != old(xsk.m.read) ==>
                && ReadOneMore(old(xsk.m), xsk.m)
                && var a := xsk.m.read[|old(xsk.m).read|];
                && processed == Seen(self, a.frame, a.len)
                && accepted == old(accepted) + (if processed == NoMessage then 0 else 1)
                && refused == old(refused) + (if processed == NoMessage then 1 else 0)
      ensures old(refused) == FRAMES ==> xsk.m == old(xsk.m) && refused == FRAMES && processed == NoMessage
    {
      var status, message := Receive(ready, k[..3]);
      processed := message;
      if message != NoMessage {
        Release(k[3]);
        accepted := accepted + 1;
      } else if xsk.m.read != old(xsk.m.read) {
        refused := refused + 1;
      }
      RefusedFramesAreLost(xsk.m);
    }

    /** Any number of callbacks. Once 2048 packets went unreleased no later one receives anything. */
    method ReaderCallbacks(turns: seq<Turn>) returns (processed: seq<View>)
      requires Valid()
      requires forall t | 0 <= t < |turns| :: Scheduled(turns[t])
      modifies this, xsk
      ensures Valid() && InCirculation(xsk.m) == FRAMES - refused && refused <= FRAMES
      ensures |processed| == |turns| && old(xsk.m.read) <= xsk.m.read
      ensures accepted == old(accepted) + Messages(processed) && refused >= old(refused)
      ensures old(refused) == FRAMES ==> xsk.m == old(xsk.m) && forall t | 0 <= t < |turns| :: processed[t] == NoMessage
    {
      RefusedFramesAreLost(xsk.m);
      processed := [];
      var t := 0;
      while t < |turns|
        invariant 0 <= t <= |turns| && |processed| == t
        invariant Valid() && InCirculation(xsk.m) == FRAMES - refused && old(xsk.m.read) <= xsk.m.read
        invariant accepted == old(accepted) + Messages(processed) && refused >= old(refused)
        invariant old(refused) == FRAMES ==>
                    && xsk.m == old(xsk.m) && refused == FRAMES
                    && forall u | 0 <= u < t :: processed[u] == NoMessage
      {
        assert Scheduled(turns[t]);
        var view := ReaderCallback(turns[t].ready, turns[t].k);
        assert (processed + [view])[..t] == processed;
        processed := processed + [view];
        t := t + 1;
      }
    }
  }
}
