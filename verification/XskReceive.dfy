/**
 AF_XDP reception as a transition system over counters that never wrap. The kernel and the user program
 share a fill ring, an rx ring and the frames; every step below is one access to that shared state, and
 the two sides interleave in any order.

 User programs only ever reserve, submit, peek and release: after the initial fill nobody writes a fill
 slot again. Handing slot `submitted` back therefore hands back whatever address the slot has held since
 the beginning.
 */
module XskReceive {
  import opened Words

  datatype Desc = Desc(addr: nat, len: nat)

  /** What the device stores for one packet: the frame memory as the reader sees it, and the descriptor length. */
  datatype Arrival<P> = Arrival(frame: P, len: nat)

  /**
   `held` are the frames the kernel has taken from the fill ring and not delivered yet. `delivered` and
   `read` record every packet the kernel published and every packet the program looked at.
   */
  datatype Rx<P> = Rx(
    n: nat, frameSize: nat,
    fill: seq<nat>, rx: seq<Desc>, umem: map<nat, P>, held: seq<nat>,
    taken: nat, delivered: seq<Arrival<P>>,
    peeked: nat, reserved: nat, read: seq<Arrival<P>>, submitted: nat, released: nat)

  datatype Event<P> =
    | TakeFill
    | Deliver(packet: Arrival<P>)
    | PeekRx
    | ReserveFill
    | ReadFrame
    | SubmitFill
    | ReleaseRx

  /** The frame address that history position `j` uses: positions go round the `n` frames. */
  function Addr<P>(s: Rx<P>, j: nat): nat
    requires s.n > 0
  {
    (j % s.n) * s.frameSize
  }

  /** Free fill slots, with every slot filled at the start. */
  function FreeFill<P>(s: Rx<P>): int { s.taken - s.reserved }

  function Unread<P>(s: Rx<P>): int { |s.delivered| - s.peeked }

  /** One step; a side that has nothing to do leaves the state alone. */
  function Step<P>(s: Rx<P>, e: Event<P>): Rx<P>
    requires Shaped(s)
  {
    match e
    case TakeFill =>
      if s.taken < s.n + s.submitted
      then s.(held := s.held + [s.fill[s.taken % s.n]], taken := s.taken + 1)
      else s
    case Deliver(p) => if CanDeliver(s) then DeliverNth(s, p, 0) else s
    case PeekRx =>
      if s.reserved == s.peeked && Unread(s) > 0 then s.(peeked := s.peeked + 1) else s
    case ReserveFill =>
      if s.reserved < s.peeked && FreeFill(s) > 0 then s.(reserved := s.reserved + 1) else s
    case ReadFrame =>
      if |s.read| < s.reserved && s.rx[|s.read| % s.n].addr in s.umem
      then
        var d := s.rx[|s.read| % s.n];
        s.(read := s.read + [Arrival(s.umem[d.addr], d.len)])
      else s
    case SubmitFill => if s.submitted < |s.read| then s.(submitted := s.submitted + 1) else s
    case ReleaseRx => if s.released < s.submitted then s.(released := s.released + 1) else s
  }

  predicate Shaped<P>(s: Rx<P>) { s.n > 0 && |s.fill| == s.n && |s.rx| == s.n }

  /** The kernel holds a frame and the rx ring has a free slot. */
  predicate CanDeliver<P>(s: Rx<P>) { s.held != [] && |s.delivered| < s.released + s.n }

  /** Delivers into the `i`-th frame the kernel holds; a kernel that respects fill order uses `i == 0`. */
  function DeliverNth<P>(s: Rx<P>, p: Arrival<P>, i: nat): Rx<P>
    requires Shaped(s) && CanDeliver(s) && i < |s.held|
  {
    var addr := s.held[i];
    s.(umem := s.umem[addr := p.frame],
       rx := s.rx[|s.delivered| % s.n := Desc(addr, p.len)],
       held := s.held[..i] + s.held[i + 1..],
       delivered := s.delivered + [p])
  }

  function Run<P>(s: Rx<P>, es: seq<Event<P>>): (r: Rx<P>)
    requires Shaped(s)
    ensures Shaped(r) && r.n == s.n && r.frameSize == s.frameSize
  {
    if es == [] then s else Step(Run(s, es[..|es| - 1]), es[|es| - 1])
  }

  /** The state after the fill ring was populated with every frame once. */
  function Start<P>(n: nat, frameSize: nat, umem: map<nat, P>, rx: seq<Desc>): Rx<P>
    requires n > 0
  {
    Rx(n, frameSize, seq(n, i requires 0 <= i < n => i * frameSize), rx, umem, [], 0, [], 0, 0, [], 0, 0)
  }

  ghost predicate Counts<P>(s: Rx<P>) {
    && Shaped(s) && s.frameSize > 0
    && s.released <= s.submitted <= |s.read| <= s.reserved <= s.peeked <= |s.delivered| <= s.taken <= s.n + s.submitted
    && |s.delivered| <= s.released + s.n
    && |s.held| == s.taken - |s.delivered|
  }

  /** Whatever the frames contain: who owns which, in the order they go round. */
  ghost predicate Order<P>(s: Rx<P>) {
    && Counts(s)
    && (forall i | 0 <= i < s.n :: s.fill[i] == i * s.frameSize)
    && (forall i | 0 <= i < |s.held| :: s.held[i] == Addr(s, |s.delivered| + i))
    && (forall j | s.released <= j < |s.delivered| :: s.rx[j % s.n] == Desc(Addr(s, j), s.delivered[j].len))
  }

  /** The invariant of every interleaving: also, a packet is what was delivered until its frame is handed back. */
  ghost predicate Inv<P>(s: Rx<P>) {
    && Order(s)
    && (forall j | s.submitted <= j < |s.delivered| ::
          Addr(s, j) in s.umem && s.umem[Addr(s, j)] == s.delivered[j].frame)
    && s.read == s.delivered[..|s.read|]
  }

  lemma AddrsDiffer<P>(s: Rx<P>, i: nat, j: nat)
    requires s.n > 0 && s.frameSize > 0 && i < j < i + s.n
    ensures Addr(s, i) != Addr(s, j)
  {
    SlotsDiffer(i, j, s.n);
    MultipleIsFar(s.frameSize, i % s.n - j % s.n);
    assert Addr(s, i) - Addr(s, j) == s.frameSize * (i % s.n - j % s.n);
  }

  lemma DeliverKeepsOrder<P>(s: Rx<P>, p: Arrival<P>)
    requires Order(s) && CanDeliver(s)
    ensures Order(DeliverNth(s, p, 0))
  {
    var t := DeliverNth(s, p, 0);
    var d := |s.delivered|;
    assert Addr(s, d) == s.held[0];
    forall j | s.released <= j < d
      ensures j % s.n != d % s.n
    {
      SlotsDiffer(j, d, s.n);
    }
    assert forall i | 0 <= i < |t.held| :: t.held[i] == s.held[i + 1] == Addr(s, d + 1 + i);
    assert t.rx[d % s.n] == Desc(Addr(t, d), t.delivered[d].len);
    forall j | t.released <= j < |t.delivered|
      ensures t.rx[j % t.n] == Desc(Addr(t, j), t.delivered[j].len)
    {
      if j < d {
        assert s.rx[j % s.n] == Desc(Addr(s, j), s.delivered[j].len);
      }
    }
  }

  lemma DeliverKeepsInv<P>(s: Rx<P>, p: Arrival<P>)
    requires Inv(s) && CanDeliver(s)
    ensures Inv(DeliverNth(s, p, 0))
  {
    var t := DeliverNth(s, p, 0);
    var d := |s.delivered|;
    DeliverKeepsOrder(s, p);
    assert Addr(s, d) == s.held[0];
    forall j | t.submitted <= j < |t.delivered|
      ensures Addr(t, j) in t.umem && t.umem[Addr(t, j)] == t.delivered[j].frame
    {
      if j < d {
        AddrsDiffer(s, j, d);
        assert Addr(s, j) in s.umem;
      }
    }
  }

  lemma ReadKeepsInv<P>(s: Rx<P>)
    requires Inv(s)
    ensures Inv(Step(s, ReadFrame))
  {
    var k, t := |s.read|, Step(s, ReadFrame);
    if t != s {
      assert s.rx[k % s.n] == Desc(Addr(s, k), s.delivered[k].len);
      assert t.read == s.delivered[..k] + [s.delivered[k]] == s.delivered[..k + 1];
    }
  }

  lemma TakeKeepsOrder<P>(s: Rx<P>)
    requires Order(s)
    ensures Order(Step(s, TakeFill))
  {
    var t := Step(s, TakeFill);
    if t != s {
      assert t.held[|s.held|] == Addr(s, |s.delivered| + |s.held|);
    }
  }

  lemma StepKeepsOrder<P>(s: Rx<P>, e: Event<P>)
    requires Order(s)
    ensures Order(Step(s, e))
  {
    match e
    case TakeFill => TakeKeepsOrder(s);
    case Deliver(p) => if CanDeliver(s) { DeliverKeepsOrder(s, p); }
    case _ =>
  }

  lemma StepKeepsInv<P>(s: Rx<P>, e: Event<P>)
    requires Inv(s)
    ensures Inv(Step(s, e))
  {
    match e
    case Deliver(p) => if CanDeliver(s) { DeliverKeepsInv(s, p); }
    case ReadFrame => ReadKeepsInv(s);
    case _ => StepKeepsOrder(s, e);
  }

  lemma StepOnlyAdds<P>(s: Rx<P>, e: Event<P>)
    requires Shaped(s)
    ensures s.delivered <= Step(s, e).delivered && s.read <= Step(s, e).read
  {
  }

  /** Every run keeps the invariant, and what was delivered and read stays delivered and read. */
  lemma {:induction false} RunKeepsInv<P>(s: Rx<P>, es: seq<Event<P>>)
    requires Inv(s)
    ensures Inv(Run(s, es)) && s.delivered <= Run(s, es).delivered && s.read <= Run(s, es).read
  {
    if es != [] {
      var before := Run(s, es[..|es| - 1]);
      RunKeepsInv(s, es[..|es| - 1]);
      StepKeepsInv(before, es[|es| - 1]);
      StepOnlyAdds(before, es[|es| - 1]);
    }
  }

  lemma StartHolds<P>(n: nat, frameSize: nat, umem: map<nat, P>, rx: seq<Desc>)
    requires n > 0 && frameSize > 0 && |rx| == n
    ensures Inv(Start(n, frameSize, umem, rx))
  {
  }

  lemma {:induction false} RunConcat<P>(s: Rx<P>, es: seq<Event<P>>, fs: seq<Event<P>>)
    requires Shaped(s)
    ensures Run(s, es + fs) == Run(Run(s, es), fs)
  {
    if fs == [] {
      assert es + fs == es;
    } else {
      var whole := es + fs;
      assert whole[..|whole| - 1] == es + fs[..|fs| - 1];
      RunConcat(s, es, fs[..|fs| - 1]);
    }
  }

  lemma RunThen<P>(s: Rx<P>, es: seq<Event<P>>, e: Event<P>)
    requires Shaped(s)
    ensures Run(s, es + [e]) == Step(Run(s, es), e)
  {
    assert (es + [e])[..|es|] == es;
  }

  /** Steps the kernel can take on its own. */
  predicate KernelOnly<P>(es: seq<Event<P>>) { forall i | 0 <= i < |es| :: es[i].TakeFill? || es[i].Deliver? }

  /** The kernel may deliver more at any time; it touches none of the program's counts. */
  ghost predicate SameProgram<P>(s: Rx<P>, t: Rx<P>) {
    && t.peeked == s.peeked && t.reserved == s.reserved && t.read == s.read
    && t.submitted == s.submitted && t.released == s.released
    && s.delivered <= t.delivered
  }

  lemma {:induction false} KernelRunsAside<P>(s: Rx<P>, es: seq<Event<P>>)
    requires Shaped(s) && KernelOnly(es)
    ensures SameProgram(s, Run(s, es))
  {
    if es != [] {
      KernelRunsAside(s, es[..|es| - 1]);
    }
  }

  // ---------------------------------------------------------------------------------------------------
  // What every interleaving guarantees

  /** The rings implement a FIFO channel: what the program reads is what was delivered, in order, never overwritten. */
  lemma ReadsAreDeliveries<P>(n: nat, frameSize: nat, umem: map<nat, P>, rx: seq<Desc>, es: seq<Event<P>>)
    requires n > 0 && frameSize > 0 && |rx| == n
    ensures Run(Start(n, frameSize, umem, rx), es).read <= Run(Start(n, frameSize, umem, rx), es).delivered
  {
    StartHolds(n, frameSize, umem, rx);
    RunKeepsInv(Start(n, frameSize, umem, rx), es);
  }

  /**
   Every frame, by current owner: descriptors not yet handed back, frames inside the kernel, and entries
   waiting in the fill ring.
   */
  function Owners<P>(s: Rx<P>): seq<nat>
    requires Shaped(s) && s.submitted <= |s.delivered| && s.taken <= s.n + s.submitted
  {
    seq<nat>(|s.delivered| - s.submitted, i requires 0 <= i => RxAddr(s, s.submitted + i))
    + s.held
    + seq<nat>(s.n + s.submitted - s.taken, i requires 0 <= i => FillAddr(s, s.taken + i))
  }

  function RxAddr<P>(s: Rx<P>, j: nat): nat
    requires Shaped(s)
  {
    s.rx[j % s.n].addr
  }

  function FillAddr<P>(s: Rx<P>, j: nat): nat
    requires Shaped(s)
  {
    s.fill[j % s.n]
  }

  ghost predicate EachFrameOnce(owners: seq<nat>, n: nat, frameSize: nat) {
    && |owners| == n
    && (forall f | 0 <= f < n :: f * frameSize in owners)
    && (forall i, j | 0 <= i < j < |owners| :: owners[i] != owners[j])
  }

  lemma OwnersGoRound<P>(s: Rx<P>)
    requires Inv(s)
    ensures |Owners(s)| == s.n
    ensures forall i | 0 <= i < s.n :: Owners(s)[i] == Addr(s, s.submitted + i)
  {
    forall i | 0 <= i < s.n
      ensures Owners(s)[i] == Addr(s, s.submitted + i)
    {
      var j := s.submitted + i;
      if j < |s.delivered| {
        assert s.rx[j % s.n] == Desc(Addr(s, j), s.delivered[j].len);
        assert Owners(s)[i] == RxAddr(s, j);
      } else if j < s.taken {
        assert s.held[j - |s.delivered|] == Addr(s, |s.delivered| + (j - |s.delivered|));
      } else {
        assert s.fill[j % s.n] == Addr(s, j);
        assert Owners(s)[i] == FillAddr(s, s.taken + (j - s.taken));
      }
    }
  }

  /** No frame is lost and none is in two places, at any point of any interleaving. */
  lemma FramesAreConserved<P>(s: Rx<P>)
    requires Inv(s)
    ensures EachFrameOnce(Owners(s), s.n, s.frameSize)
  {
    OwnersGoRound(s);
    var owners := Owners(s);
    forall f | 0 <= f < s.n
      ensures f * s.frameSize in owners
    {
      var i := (f - s.submitted) % s.n;
      var q := (f - s.submitted) / s.n;
      assert s.submitted + i == s.n * (-q) + f;
      ModUnique(s.submitted + i, s.n, -q, f);
      assert owners[i] == f * s.frameSize;
    }
    forall i, j | 0 <= i < j < |owners|
      ensures owners[i] != owners[j]
    {
      AddrsDiffer(s, s.submitted + i, s.submitted + j);
    }
  }

  /** The address a `Submit` hands back, and the address of the oldest descriptor not handed back yet. */
  function HandedBack<P>(s: Rx<P>): nat
    requires Shaped(s)
  {
    FillAddr(s, s.n + s.submitted)
  }

  function OldestRead<P>(s: Rx<P>): nat
    requires Shaped(s)
  {
    RxAddr(s, s.submitted)
  }

  /** The slot nobody rewrote names exactly the frame that is being returned. */
  lemma StaleSlotIsRight<P>(s: Rx<P>)
    requires Inv(s) && s.submitted < |s.read|
    ensures HandedBack(s) == OldestRead(s) == Addr(s, s.submitted)
  {
    ModShift(s.submitted, s.n, 1);
    assert s.rx[s.submitted % s.n] == Desc(Addr(s, s.submitted), s.delivered[s.submitted].len);
  }

  /** After a successful peek there is always a fill slot to reserve, so a retry loop never goes round. */
  lemma PeekImpliesRoom<P>(s: Rx<P>)
    requires Inv(s)
    ensures FreeFill(s) >= |s.delivered| - s.reserved
    ensures s.reserved < s.peeked ==> Step(s, Event<P>.ReserveFill).reserved == s.reserved + 1
  {
  }

  /**
   All of this rests on the kernel using frames in fill order. Whatever is outstanding, a delivery into the
   `i`-th frame the kernel holds is handed back right if and only if `i` is 0; otherwise its return will hand
   back a frame the kernel still holds.
   */
  lemma ReuseNeedsFillOrder<P>(s: Rx<P>, p: Arrival<P>, i: nat)
    requires Inv(s) && CanDeliver(s) && i < |s.held|
    ensures var t, d := DeliverNth(s, p, i), |s.delivered|;
            && (FillAddr(t, s.n + d) == RxAddr(t, d) <==> i == 0)
            && (i != 0 ==> FillAddr(t, s.n + d) in t.held)
  {
    var d := |s.delivered|;
    var t := DeliverNth(s, p, i);
    ModShift(d, s.n, 1);
    assert FillAddr(t, s.n + d) == Addr(s, d) == s.held[0];
    assert RxAddr(t, d) == s.held[i] == Addr(s, d + i);
    if i != 0 {
      AddrsDiffer(s, d, d + i);
      assert t.held[0] == s.held[0];
    }
  }
}
