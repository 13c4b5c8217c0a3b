/**
 Sending and receiving over the same frames. The fill ring holds every frame even on a sender, so a packet that
 arrives is stored in a frame a descriptor may be in flight from; and a send may write a frame that holds a packet
 nobody has read. The two positions in the ring of frames decide.
 */
module XskShared {
  import opened Words
  import T = XskTransmit
  import R = XskReceive

  /** Both halves of a socket; `tx.frames` and `rx.umem` are the one memory. */
  datatype Both = Both(tx: T.Tx, rx: R.Rx<seq<byte>>)

  /** A packet is stored `headroom` bytes into its frame. */
  datatype Event =
    | Tx(e: T.Event)
    | Rx(r: R.Event<seq<byte>>)
    | Arrive(headroom: nat, packet: seq<byte>)

  ghost predicate Inv(b: Both) {
    && T.Inv(b.tx) && R.Order(b.rx)
    && b.tx.n == b.rx.n && b.tx.frameSize == b.rx.frameSize && b.tx.frames == b.rx.umem
  }

  predicate CanArrive(b: Both, headroom: nat, packet: seq<byte>)
    requires R.Shaped(b.rx)
  {
    && R.CanDeliver(b.rx) && b.rx.held[0] in b.rx.umem
    && headroom + |packet| <= |b.rx.umem[b.rx.held[0]]|
  }

  predicate Shaped(b: Both) { T.Shaped(b.tx) && R.Shaped(b.rx) }

  function Arrived(b: Both, headroom: nat, packet: seq<byte>): (c: Both)
    requires Shaped(b) && CanArrive(b, headroom, packet)
    ensures Shaped(c)
  {
    var frame := T.Splice(b.rx.umem[b.rx.held[0]], headroom, packet);
    var rx := R.DeliverNth(b.rx, R.Arrival(frame, |packet|), 0);
    Both(b.tx.(frames := rx.umem), rx)
  }

  function Sending(b: Both, e: T.Event): (c: Both)
    requires Shaped(b)
    ensures Shaped(c)
  {
    var tx := T.Step(b.tx, e);
    Both(tx, b.rx.(umem := tx.frames))
  }

  function Receiving(b: Both, r: R.Event<seq<byte>>): (c: Both)
    requires Shaped(b)
    ensures Shaped(c)
  {
    if r.Deliver? then b else b.(rx := R.Step(b.rx, r))
  }

  function Step(b: Both, e: Event): (c: Both)
    requires Shaped(b)
    ensures Shaped(c)
  {
    match e
    case Tx(e) => Sending(b, e)
    case Rx(r) => Receiving(b, r)
    case Arrive(headroom, packet) => if CanArrive(b, headroom, packet) then Arrived(b, headroom, packet) else b
  }

  lemma FramesKeepInv(tx: T.Tx, addr: nat, frame: seq<byte>)
    requires T.Inv(tx) && addr in tx.frames && |frame| == |tx.frames[addr]|
    ensures T.Inv(tx.(frames := tx.frames[addr := frame]))
  {
  }

  lemma StepKeepsInv(b: Both, e: Event)
    requires Inv(b)
    ensures Inv(Step(b, e))
  {
    match e
    case Tx(e) => T.StepKeepsInv(b.tx, e);
    case Rx(r) => if !r.Deliver? { R.StepKeepsOrder(b.rx, r); }
    case Arrive(headroom, packet) =>
      if CanArrive(b, headroom, packet) {
        var frame := T.Splice(b.rx.umem[b.rx.held[0]], headroom, packet);
        FramesKeepInv(b.tx, b.rx.held[0], frame);
        R.DeliverKeepsOrder(b.rx, R.Arrival(frame, |packet|));
      }
  }

  // ---------------------------------------------------------------------------------------------------
  // Which steps touch the other side's frames

  /** Position `p` in the ring of frames lies in the `count` positions from `from` on. */
  predicate InRange(p: int, from: int, count: int, n: int)
    requires n > 0
  {
    (p - from) % n < count
  }

  predicate SameFrame(i: nat, j: nat, n: nat)
    requires n > 0
  {
    i % n == j % n
  }

  /** A position in range shares its frame with one of the range. */
  lemma PositionInRange(p: nat, from: nat, count: nat, n: nat) returns (j: nat)
    requires n > 0 && InRange(p, from, count, n)
    ensures from <= j < from + count && SameFrame(j, p, n)
  {
    var r, q := (p - from) % n, (p - from) / n;
    j := from + r;
    assert p == n * q + j;
    ModShift(j, n, q);
  }

  /** And only then. */
  lemma RangeOfPosition(p: nat, from: nat, count: nat, n: nat, j: nat)
    requires n > 0 && from <= j < from + count && SameFrame(j, p, n)
    ensures InRange(p, from, count, n)
  {
    var k := p / n - j / n;
    assert p - j == n * k;
    ModShift(j - from, n, k);
    var x := j - from;
    assert x % n <= x by {
      if x < n {
        ModUnique(x, n, 0, x);
      }
    }
  }

  lemma SameAddr(tx: T.Tx, i: nat, j: nat)
    requires T.Counts(tx)
    ensures T.Addr(tx, i) == T.Addr(tx, j) <==> SameFrame(i, j, tx.n)
  {
    if i % tx.n != j % tx.n {
      MultipleIsFar(tx.frameSize, i % tx.n - j % tx.n);
      assert T.Addr(tx, i) - T.Addr(tx, j) == tx.frameSize * (i % tx.n - j % tx.n);
    }
  }

  /** No frame in flight is changed between two states. */
  ghost predicate FlightSpared(b: Both, c: Both)
    requires Inv(b) && Inv(c) && |c.tx.posted| == |b.tx.posted|
  {
    forall j | b.tx.completed <= j < |b.tx.posted| :: T.FrameOf(c.tx, j) == T.FrameOf(b.tx, j)
  }

  /** No packet waiting to be handed back is changed. */
  ghost predicate PacketsSpared(b: Both, c: Both)
    requires Inv(b) && Inv(c)
  {
    forall j | b.rx.submitted <= j < |b.rx.delivered| ::
      T.Addr(b.tx, j) in b.rx.umem && T.Addr(b.tx, j) in c.rx.umem
      && c.rx.umem[T.Addr(b.tx, j)] == b.rx.umem[T.Addr(b.tx, j)]
  }

  /** Where a packet goes, and that it changes nothing else. */
  lemma ArrivedFrames(b: Both, headroom: nat, packet: seq<byte>)
    requires Inv(b) && CanArrive(b, headroom, packet)
    ensures var c, at := Arrived(b, headroom, packet), T.Addr(b.tx, |b.rx.delivered|);
            && Inv(c) && at in b.tx.frames
            && c.tx == b.tx.(frames := b.tx.frames[at := T.Splice(b.tx.frames[at], headroom, packet)])
            && c.rx.umem == c.tx.frames && c.rx.delivered[..|b.rx.delivered|] == b.rx.delivered
            && |c.rx.delivered| == |b.rx.delivered| + 1 && c.rx.submitted == b.rx.submitted
  {
    StepKeepsInv(b, Arrive(headroom, packet));
    assert b.rx.held[0] == R.Addr(b.rx, |b.rx.delivered|) == T.Addr(b.tx, |b.rx.delivered|);
  }

  /**
   A packet that changes its frame spares the frames in flight if and only if the position it is delivered to is
   not among those in flight.
   */
  lemma ArrivalSparesIff(b: Both, headroom: nat, packet: seq<byte>)
    requires Inv(b) && CanArrive(b, headroom, packet)
    requires Arrived(b, headroom, packet).rx.umem != b.rx.umem
    ensures Inv(Arrived(b, headroom, packet))
    ensures FlightSpared(b, Arrived(b, headroom, packet)) <==>
            !InRange(|b.rx.delivered|, b.tx.completed, |b.tx.posted| - b.tx.completed, b.tx.n)
  {
    var c, d := Arrived(b, headroom, packet), |b.rx.delivered|;
    var from, count := b.tx.completed, |b.tx.posted| - b.tx.completed;
    ArrivedFrames(b, headroom, packet);
    FlightSparedIff(b.tx, c.tx, d, c.tx.frames[T.Addr(b.tx, d)]);
    if InRange(d, from, count, b.tx.n) {
      var j := PositionInRange(d, from, count, b.tx.n);
      assert T.FrameOf(c.tx, j) != T.FrameOf(b.tx, j);
    } else if j :| from <= j < from + count && SameFrame(j, d, b.tx.n) {
      RangeOfPosition(d, from, count, b.tx.n, j);
    }
  }

  /** Changing the frame of position `d` spares the frames in flight if none of them is the same. */
  lemma FlightSparedIff(tx: T.Tx, u: T.Tx, d: nat, frame: seq<byte>)
    requires T.Inv(tx) && T.Inv(u) && T.Addr(tx, d) in tx.frames && frame != tx.frames[T.Addr(tx, d)]
    requires u == tx.(frames := tx.frames[T.Addr(tx, d) := frame])
    ensures forall j: nat :: T.FrameOf(u, j) == T.FrameOf(tx, j) <==> !SameFrame(j, d, tx.n)
  {
    forall j: nat
      ensures T.FrameOf(u, j) == T.FrameOf(tx, j) <==> !SameFrame(j, d, tx.n)
    {
      SameAddr(tx, j, d);
    }
  }

  /** A packet stored behind a descriptor's length takes none of its bytes. */
  lemma HeadroomSpares(frame: seq<byte>, headroom: nat, packet: seq<byte>, len: nat)
    requires headroom + |packet| <= |frame| && len <= headroom
    ensures T.Splice(frame, headroom, packet)[..len] == frame[..len]
  {
  }

  /** On a socket that only sends, the fill ring is never refilled: only the first `n` packets are stored at all. */
  lemma SenderReceivesFew(b: Both)
    requires Inv(b) && b.rx.submitted == 0
    ensures |b.rx.delivered| <= b.rx.n
  {
  }

  /** A write that changes its frame spares the packets not handed back if and only if `curTx` is not among them. */
  lemma WriteSparesIff(b: Both, offset: nat, data: seq<byte>)
    requires Inv(b) && T.CanWrite(b.tx, offset, data)
    requires T.Step(b.tx, T.Write(offset, data)).frames != b.tx.frames
    ensures Inv(Step(b, Tx(T.Write(offset, data))))
    ensures PacketsSpared(b, Step(b, Tx(T.Write(offset, data)))) <==>
            !InRange(|b.tx.posted|, b.rx.submitted, |b.rx.delivered| - b.rx.submitted, b.tx.n)
  {
    var c, p := Step(b, Tx(T.Write(offset, data))), |b.tx.posted|;
    var from, count := b.rx.submitted, |b.rx.delivered| - b.rx.submitted;
    StepKeepsInv(b, Tx(T.Write(offset, data)));
    PacketsSparedIff(b, offset, data);
    if InRange(p, from, count, b.tx.n) {
      var j := PositionInRange(p, from, count, b.tx.n);
      assert c.rx.umem[T.Addr(b.tx, j)] != b.rx.umem[T.Addr(b.tx, j)];
    } else if j :| from <= j < from + count && SameFrame(j, p, b.tx.n) {
      RangeOfPosition(p, from, count, b.tx.n, j);
    }
  }

  lemma PacketsSparedIff(b: Both, offset: nat, data: seq<byte>)
    requires Inv(b) && T.CanWrite(b.tx, offset, data)
    requires T.Step(b.tx, T.Write(offset, data)).frames != b.tx.frames
    ensures var c := Step(b, Tx(T.Write(offset, data)));
            forall j: nat ::
              && T.Addr(b.tx, j) in b.rx.umem && T.Addr(b.tx, j) in c.rx.umem
              && (c.rx.umem[T.Addr(b.tx, j)] == b.rx.umem[T.Addr(b.tx, j)]
                  <==> !SameFrame(j, |b.tx.posted|, b.tx.n))
  {
    var c, p := Step(b, Tx(T.Write(offset, data))), |b.tx.posted|;
    assert T.CurAddr(b.tx) == T.Addr(b.tx, p);
    forall j: nat
      ensures T.Addr(b.tx, j) in b.rx.umem && T.Addr(b.tx, j) in c.rx.umem
      ensures c.rx.umem[T.Addr(b.tx, j)] == b.rx.umem[T.Addr(b.tx, j)] <==> !SameFrame(j, p, b.tx.n)
    {
      SameAddr(b.tx, j, p);
      assert (j % b.tx.n) * b.tx.frameSize in b.tx.frames;
    }
  }

  // ---------------------------------------------------------------------------------------------------
  // Runs in which neither side touches the other's frames

  /** Nothing in flight was changed since it was posted, nothing unread since it was delivered. */
  ghost predicate Good(b: Both) { Inv(b) && T.Intact(b.tx) && R.Inv(b.rx) }

  /** A write finds room in the window and a frame without a packet, a packet a frame that is not in flight. */
  predicate Clear(b: Both, e: Event)
    requires Shaped(b)
  {
    match e
    case Tx(e) =>
      e.Write? ==>
        && b.tx.outstanding < b.tx.n
        && !InRange(|b.tx.posted|, b.rx.submitted, |b.rx.delivered| - b.rx.submitted, b.tx.n)
    case Rx(r) => true
    case Arrive(headroom, packet) =>
      CanArrive(b, headroom, packet) ==>
        !InRange(|b.rx.delivered|, b.tx.completed, |b.tx.posted| - b.tx.completed, b.tx.n)
  }

  lemma TxStepKeepsGood(b: Both, e: T.Event)
    requires Good(b) && Clear(b, Tx(e))
    ensures Good(Step(b, Tx(e)))
  {
    var c := Step(b, Tx(e));
    StepKeepsInv(b, Tx(e));
    T.StepKeepsIntact(b.tx, e);
    if c.tx.frames != b.tx.frames {
      WriteSparesIff(b, e.offset, e.data);
      forall j | c.rx.submitted <= j < |c.rx.delivered|
        ensures R.Addr(c.rx, j) in c.rx.umem && c.rx.umem[R.Addr(c.rx, j)] == c.rx.delivered[j].frame
      {
        assert R.Addr(b.rx, j) in b.rx.umem && T.Addr(b.tx, j) == R.Addr(b.rx, j);
      }
    }
  }

  lemma ArrivalKeepsIntact(b: Both, headroom: nat, packet: seq<byte>)
    requires Good(b) && CanArrive(b, headroom, packet) && Clear(b, Arrive(headroom, packet))
    ensures Inv(Arrived(b, headroom, packet)) && T.Intact(Arrived(b, headroom, packet).tx)
  {
    var c := Arrived(b, headroom, packet);
    ArrivedFrames(b, headroom, packet);
    if c.tx.frames != b.tx.frames {
      ArrivalSparesIff(b, headroom, packet);
    }
    forall j | c.tx.completed <= j < |c.tx.posted|
      ensures T.FrameOf(c.tx, j)[..c.tx.posted[j].desc.len] == c.tx.posted[j].bytes
    {
      assert T.FrameOf(c.tx, j) == T.FrameOf(b.tx, j);
    }
  }

  lemma StepKeepsGood(b: Both, e: Event)
    requires Good(b) && Clear(b, e)
    ensures Good(Step(b, e))
  {
    match e
    case Tx(e) => TxStepKeepsGood(b, e);
    case Rx(r) =>
      StepKeepsInv(b, e);
      R.StepKeepsInv(b.rx, r);
    case Arrive(headroom, packet) =>
      if CanArrive(b, headroom, packet) {
        ArrivalKeepsIntact(b, headroom, packet);
        R.DeliverKeepsInv(b.rx, R.Arrival(T.Splice(b.rx.umem[b.rx.held[0]], headroom, packet), |packet|));
      }
  }

  function Run(b: Both, es: seq<Event>): (c: Both)
    requires Shaped(b)
    ensures Shaped(c)
  {
    if es == [] then b else Step(Run(b, es[..|es| - 1]), es[|es| - 1])
  }

  predicate AllClear(b: Both, es: seq<Event>)
    requires Shaped(b)
  {
    es != [] ==> AllClear(b, es[..|es| - 1]) && Clear(Run(b, es[..|es| - 1]), es[|es| - 1])
  }

  /**
   Over every such run of both halves, whatever arrives: the wire carries what was posted and the program reads
   what was delivered.
   */
  lemma {:induction false} ClearRunsAreGood(b: Both, es: seq<Event>)
    requires Good(b) && AllClear(b, es)
    ensures var c := Run(b, es);
            && Good(c)
            && (forall k | 0 <= k < |c.tx.wire| :: c.tx.wire[k] == c.tx.posted[k].bytes)
            && c.rx.read <= c.rx.delivered
  {
    if es != [] {
      ClearRunsAreGood(b, es[..|es| - 1]);
      StepKeepsGood(Run(b, es[..|es| - 1]), es[|es| - 1]);
    }
  }
}
