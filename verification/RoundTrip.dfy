/**
 The whole round trip: a publisher on board A, board B as in `Forwarding`, and the return subscriber on A
 that writes the result file. The network may lose, repeat and reorder; it only never invents messages.
 */
module RoundTrip {
  import opened Words
  import F = Forwarding

  /** What A sends: a sequence number and the time it was sent. */
  datatype Stamp = Stamp(sequence: u64, txTime: u64)

  /** One line of the result file. */
  datatype Line =
    | DuplicateSkipped
    | MsgqCopy
    | NothingToForward
    | Measured(a2b: int, seqA: u64, txPubA: u64, rxSubB: u64, processing: int,
               b2a: int, seqB: u64, txPubB: u64, rxSubA: u64, returned: int)

  datatype Input = NullData | EmptyVariant | NoElements | Data(row: F.Row)

  function Latency(later: u64, earlier: u64): int { ToI64(ToU64(later - earlier)) }

  function LineOf(r: F.Row, rxSubA: u64): Line {
    if r.seqA == F.ERROR_DUPLICATE then DuplicateSkipped
    else if r.seqA == F.ERROR_MSGQ_COPY then MsgqCopy
    else if r.seqA == F.ERROR_NOTHING_TO_FORWARD then NothingToForward
    else Measured(Latency(r.rxSubB, r.txPubA), r.seqA, r.txPubA, r.rxSubB, Latency(r.txPubB, r.rxSubB),
                  Latency(rxSubA, r.txPubB), r.seqB, r.txPubB, rxSubA, Latency(rxSubA, r.txPubA))
  }

  /** A signed 64-bit latency between two recorded times: their difference modulo 2^64, and exactly if in order. */
  predicate IsLatency(l: int, later: u64, earlier: u64) {
    && -0x8000_0000_0000_0000 <= l < 0x8000_0000_0000_0000
    && (l - (later - earlier)) % W64 == 0
    && (0 <= later - earlier < 0x8000_0000_0000_0000 ==> l == later - earlier)
  }

  /**
   A line about row `r`, received at `now`: the text of its own error code, or the row's numbers, the time of
   arrival, and the latency of each leg and of the whole between its own two times.
   */
  predicate IsLineFor(l: Line, r: F.Row, now: u64) {
    match l
    case DuplicateSkipped => r.seqA == 3131313131313131313
    case MsgqCopy => r.seqA == 4343434343434343434
    case NothingToForward => r.seqA == 5656565656565656565
    case Measured(a2b, seqA, txPubA, rxSubB, processing, b2a, seqB, txPubB, rxSubA, returned) =>
      && r.seqA !in {3131313131313131313, 4343434343434343434, 5656565656565656565}
      && r == F.Row(seqA, txPubA, rxSubB, seqB, txPubB) && rxSubA == now
      && IsLatency(a2b, rxSubB, txPubA) && IsLatency(processing, txPubB, rxSubB)
      && IsLatency(b2a, rxSubA, txPubB) && IsLatency(returned, rxSubA, txPubA)
  }

  lemma LatencyIsOne(later: u64, earlier: u64)
    ensures IsLatency(Latency(later, earlier), later, earlier)
  {
    var k := Wraps(later, earlier);
    ModUnique(Latency(later, earlier) - (later - earlier), W64, k, 0);
  }

  lemma LineIsForRow(r: F.Row, now: u64)
    ensures IsLineFor(LineOf(r, now), r, now)
  {
    LatencyIsOne(r.rxSubB, r.txPubA);
    LatencyIsOne(r.txPubB, r.rxSubB);
    LatencyIsOne(now, r.txPubB);
    LatencyIsOne(now, r.txPubA);
  }

  /** The process on board A that receives what B returns. */
  class ReturnSubscriber {
    const packetCount: u64
    var running: bool
    var outputOpen: bool
    var output: seq<Line>

    constructor (packetCount: u64)
      ensures this.packetCount == packetCount && running && outputOpen && output == []
    {
      this.packetCount, running, outputOpen, output := packetCount, true, true, [];
    }

    /** `subReturnStoreDataReceived`: writes one line while the file is open; the last number closes it. */
    method StoreDataReceived(input: Input, now: u64)
      modifies this
      ensures output == old(output) + (if input.Data? && old(outputOpen) then [LineOf(input.row, now)] else [])
      ensures input.Data? && old(outputOpen) ==>
                |output| == |old(output)| + 1 && IsLineFor(output[|old(output)|], input.row, now)
      ensures var ends :=
                match input
                case Data(row) =>
                  && row.seqA >= packetCount
                  && row.seqA !in {3131313131313131313, 4343434343434343434, 5656565656565656565}
                case NoElements => packetCount == 0  // an empty array counts as number 0
                case _ => false;
              (outputOpen <==> old(outputOpen) && !ends) && (running <==> old(running) && !ends)
    {
      if input.Data? {
        LineIsForRow(input.row, now);
      }
      var seqA: u64 := 0;
      if input.NullData? || input.EmptyVariant? {
        return;
      }
      if input.Data? {
        var r := input.row;
        seqA := r.seqA;
        var a2b := ToI64(ToU64(r.rxSubB - r.txPubA));
        var b2a := ToI64(ToU64(now - r.txPubB));
        var processing := ToI64(ToU64(r.txPubB - r.rxSubB));
        var returned := ToI64(ToU64(now - r.txPubA));
        if outputOpen {
          if seqA == F.ERROR_DUPLICATE {
            output := output + [DuplicateSkipped];
          } else if seqA == F.ERROR_MSGQ_COPY {
            output := output + [MsgqCopy];
          } else if seqA == F.ERROR_NOTHING_TO_FORWARD {
            output := output + [NothingToForward];
          } else {
            output := output
                      + [Measured(a2b, seqA, r.txPubA, r.rxSubB, processing, b2a, r.seqB, r.txPubB, now, returned)];
          }
        }
      }
      if !F.IsError(seqA) && seqA >= packetCount {
        outputOpen := false;
        running := false;
      }
    }
  }

  /** The three legs add up to the whole, modulo 2^64; exactly, when the clocks agree on the order of events. */
  lemma LatenciesAddUp(r: F.Row, rxSubA: u64)
    requires !F.IsError(r.seqA)
    ensures var l := LineOf(r, rxSubA);
            && (l.a2b + l.processing + l.b2a - l.returned) % W64 == 0
            && (r.txPubA <= r.rxSubB <= r.txPubB <= rxSubA < r.txPubA + 0x8000_0000_0000_0000 ==>
                  l.a2b + l.processing + l.b2a == l.returned == rxSubA - r.txPubA)
  {
    var l := LineOf(r, rxSubA);
    var k1 := Wraps(r.rxSubB, r.txPubA);
    var k2 := Wraps(r.txPubB, r.rxSubB);
    var k3 := Wraps(rxSubA, r.txPubB);
    var k4 := Wraps(rxSubA, r.txPubA);
    assert l.a2b + l.processing + l.b2a - l.returned == W64 * (k1 + k2 + k3 - k4) + 0;
    ModUnique(l.a2b + l.processing + l.b2a - l.returned, W64, k1 + k2 + k3 - k4, 0);
  }

  /** How many times 2^64 separates a printed latency from the true difference. */
  lemma Wraps(later: u64, earlier: u64) returns (k: int)
    ensures Latency(later, earlier) == later - earlier + W64 * k
    ensures 0 <= later - earlier < 0x8000_0000_0000_0000 ==> k == 0
  {
    var d := later - earlier;
    var w := ToU64(d);
    k := if Latency(later, earlier) == w then -(d / W64) else -(d / W64) - 1;
  }

  // ---------------------------------------------------------------------------------------------------
  // The system

  /** Which row a line is about, and when it arrived. */
  datatype Arrival = Arrival(row: nat, now: u64)

  datatype System = System(published: seq<Stamp>, b: F.Board, lines: seq<Line>, arrivals: seq<Arrival>)

  datatype Event =
    | Publish(sequence: u64, now: u64)
    | ArriveAtB(index: nat, now: u64)         // some earlier publication reaches B
    | NonDataAtB(input: F.Input)              // the library calls the subscriber with nothing usable
    | BPolls
    | BForwards(now: u64)
    | ArriveAtA(index: nat, now: u64)         // some earlier row of B reaches A

  function Step(s: System, e: Event): System {
    match e
    case Publish(sequence, now) => s.(published := s.published + [Stamp(sequence, now)])
    case ArriveAtB(i, now) =>
      if i < |s.published|
      then s.(b := F.OnReceive(s.b, F.Data(s.published[i].sequence, s.published[i].txTime), now))
      else s
    case NonDataAtB(input) => if input.Data? then s else s.(b := F.OnReceive(s.b, input, 0))
    case BPolls => s.(b := F.OnPoll(s.b))
    case BForwards(now) => s.(b := F.OnForward(s.b, now))
    case ArriveAtA(i, now) =>
      if i < |s.b.rows|
      then s.(lines := s.lines + [LineOf(s.b.rows[i], now)], arrivals := s.arrivals + [Arrival(i, now)])
      else s
  }

  function Run(s: System, es: seq<Event>): System {
    if es == [] then s else Step(Run(s, es[..|es| - 1]), es[|es| - 1])
  }

  function Start(capacity: nat, queueOpen: bool, packetCount: u64): System {
    System([], F.Start(capacity, queueOpen, packetCount), [], [])
  }

  /** A row is an error report, or carries a message B recorded on reception. */
  ghost predicate HonestRow(b: F.Board, r: F.Row) {
    F.IsError(r.seqA) || F.Msg(r.seqA, r.txPubA, r.rxSubB) in b.received
  }

  /** A line is an error report, or measures a publication of A that B recorded at the time stated. */
  ghost predicate HonestLine(s: System, l: Line) {
    l.Measured? ==>
      && Stamp(l.seqA, l.txPubA) in s.published
      && F.Msg(l.seqA, l.txPubA, l.rxSubB) in s.b.received
      && (l.a2b + l.processing + l.b2a - l.returned) % W64 == 0
  }

  /** Every line is for the row that arrived, at the time it arrived. */
  ghost predicate LinesAreForRows(s: System) {
    && |s.lines| == |s.arrivals|
    && (forall k | 0 <= k < |s.lines| ::
          s.arrivals[k].row < |s.b.rows|
          && IsLineFor(s.lines[k], s.b.rows[s.arrivals[k].row], s.arrivals[k].now))
  }

  ghost predicate Honest(s: System) {
    && F.Inv(s.b)
    && (forall m | m in s.b.received :: Stamp(m.rxSequence, m.txTime) in s.published)
    && (forall r | r in s.b.rows :: HonestRow(s.b, r))
    && (forall l | l in s.lines :: HonestLine(s, l))
    && LinesAreForRows(s)
  }

  /** A call adds at most one row, with the time of the call, about what is in hand or an error. */
  lemma ForwardAddsRow(b: F.Board, now: u64)
    requires b.pending.Some? ==> b.pending.value in b.received
    ensures var t := F.OnForward(b, now);
            && t.received == b.received
            && (t.rows == b.rows ||
                (|t.rows| == |b.rows| + 1 && t.rows[..|b.rows|] == b.rows
                 && HonestRow(b, t.rows[|b.rows|]) && t.rows[|b.rows|].txPubB == now))
  {
    F.UnreadIsCopyError(b.prevRxSequence);
  }

  lemma ForwardIsHonest(b: F.Board, now: u64)
    requires F.Inv(b) && forall r | r in b.rows :: HonestRow(b, r)
    ensures var t := F.OnForward(b, now);
            F.Inv(t) && t.received == b.received && b.rows <= t.rows && forall r | r in t.rows :: HonestRow(t, r)
  {
    var t := F.OnForward(b, now);
    if b.pending.Some? {
      F.InHandWasReceived(b);
    }
    ForwardAddsRow(b, now);
    assert F.Inv(t) by {
      F.ForwardKeepsInv(b, now);
    }
    forall r | r in t.rows
      ensures HonestRow(t, r)
    {
      if t.rows != b.rows {
        assert t.rows == b.rows + [t.rows[|b.rows|]];
      }
    }
  }

  lemma ReceiveIsHonest(s: System, input: F.Input, now: u64)
    requires Honest(s)
    requires input.Data? ==> Stamp(input.sequence, input.txTime) in s.published
    ensures Honest(s.(b := F.OnReceive(s.b, input, now)))
  {
    var t := s.(b := F.OnReceive(s.b, input, now));
    F.ReceiveKeepsInv(s.b, input, now);
    assert forall m | m in s.b.received :: m in t.b.received;
    assert forall r | r in t.b.rows :: HonestRow(s.b, r);
    assert forall l | l in t.lines :: HonestLine(s, l);
  }

  lemma ReturnIsHonest(s: System, i: nat, now: u64)
    requires Honest(s) && i < |s.b.rows|
    ensures Honest(Step(s, ArriveAtA(i, now)))
  {
    var r, l := s.b.rows[i], LineOf(s.b.rows[i], now);
    assert HonestRow(s.b, r);
    if l.Measured? {
      LatenciesAddUp(r, now);
      assert HonestLine(s, l);
    }
    var t := Step(s, ArriveAtA(i, now));
    LineIsForRow(r, now);
    forall x | x in t.lines
      ensures HonestLine(t, x)
    {
      assert x in s.lines || x == l;
      assert HonestLine(s, x);
    }
  }

  lemma StepIsHonest(s: System, e: Event)
    requires Honest(s)
    ensures Honest(Step(s, e))
  {
    var t := Step(s, e);
    match e
    case Publish(sequence, now) =>
      assert forall p | p in s.published :: p in t.published;
      assert forall l | l in t.lines :: HonestLine(s, l);
    case ArriveAtB(i, now) =>
      if i < |s.published| {
        ReceiveIsHonest(s, F.Data(s.published[i].sequence, s.published[i].txTime), now);
      }
    case NonDataAtB(input) =>
      if !input.Data? {
        ReceiveIsHonest(s, input, 0);
      }
    case BPolls =>
      F.StepKeepsInv(s.b, F.Poll);
      assert forall r | r in t.b.rows :: HonestRow(s.b, r);
      assert forall l | l in t.lines :: HonestLine(s, l);
    case BForwards(now) =>
      ForwardIsHonest(s.b, now);
      assert forall l | l in t.lines :: HonestLine(s, l);
    case ArriveAtA(i, now) =>
      if i < |s.b.rows| {
        ReturnIsHonest(s, i, now);
      }
  }

  /** In every run, each measured line pairs a publication of A with B's own record of receiving it. */
  lemma {:induction false} EveryLineIsHonest(capacity: nat, queueOpen: bool, packetCount: u64, es: seq<Event>)
    ensures Honest(Run(Start(capacity, queueOpen, packetCount), es))
  {
    if es != [] {
      EveryLineIsHonest(capacity, queueOpen, packetCount, es[..|es| - 1]);
      StepIsHonest(Run(Start(capacity, queueOpen, packetCount), es[..|es| - 1]), es[|es| - 1]);
    }
  }
}
