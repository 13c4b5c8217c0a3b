/**
 Board B of the round trip (`src/opcua-tsn/opcua_datasource.c`): the subscriber callback queues what it
 receives on a bounded message queue that drops when full, and the return publisher's callback forwards one
 message per call. Both run in their own threads; each step below is one of their accesses to shared state.
 */
module Forwarding {
  import opened Words
  import opened Subsequences

  const ERROR_DUPLICATE: u64 := 3131313131313131313
  const ERROR_MSGQ_COPY: u64 := 4343434343434343434
  const ERROR_NOTHING_TO_FORWARD: u64 := 5656565656565656565
  const ATTEMPTS: nat := 15

  /** `struct msgq_buf` without its type word. */
  datatype Msg = Msg(rxSequence: u64, txTime: u64, rxTime: u64)

  /** The five numbers the return publisher sends. */
  datatype Row = Row(seqA: u64, txPubA: u64, rxSubB: u64, seqB: u64, txPubB: u64)

  /** What the library hands the subscriber callback. */
  datatype Input = NullData | EmptyVariant | NoElements | Data(sequence: u64, txTime: u64)

  const UNREAD := Msg(888, 888, 888)

  datatype Option<T> = None | Some(value: T)

  /**
   Shared state, then the records the claims are about: everything received, the positions in it of what was
   queued, everything dequeued and judged, and what of that was forwarded as good, with its positions.
   */
  datatype Board = Board(
    capacity: nat, queueOpen: bool, packetCount: u64,
    queue: seq<Msg>, gate: bool, running: bool,
    txSequence: int, prevRxSequence: u64, polls: nat, pending: Option<Msg>,
    received: seq<Msg>, queuedAt: seq<int>, dropped: nat,
    judged: seq<Msg>, good: seq<Msg>, goodAt: seq<int>, duplicates: nat, early: nat, otherErrors: nat, rows: seq<Row>)

  datatype Event =
    | Receive(input: Input, now: u64)
    | Poll
    | Forward(now: u64)

  datatype Verdict = EarlyInvalid | EarlyMissed | NothingToForward | CopyError | Duplicate | Good

  /** The chain of tests on a dequeued message, in source order. */
  function Judge(m: Msg, prev: u64): Verdict {
    if m.rxSequence < 10 && m.rxTime == 999 && m.txTime == 999 then EarlyInvalid
    else if m.rxSequence < 10 && m.rxTime == 888 && m.txTime == 888 then EarlyMissed
    else if m.rxSequence == 999 && m.rxTime == 999 && m.txTime == 999 then NothingToForward
    else if m.rxSequence == 888 && m.rxTime == 888 && m.txTime == 888 then CopyError
    else if m.rxSequence == prev && m.rxSequence > 10 && m.rxTime != 999 then Duplicate
    else Good
  }

  function Carried(m: Msg, v: Verdict): Msg {
    match v
    case NothingToForward => Msg(ERROR_NOTHING_TO_FORWARD, ERROR_NOTHING_TO_FORWARD, ERROR_NOTHING_TO_FORWARD)
    case CopyError => Msg(ERROR_MSGQ_COPY, ERROR_MSGQ_COPY, ERROR_MSGQ_COPY)
    case Duplicate => Msg(ERROR_DUPLICATE, ERROR_DUPLICATE, ERROR_DUPLICATE)
    case _ => m
  }

  predicate IsError(sequence: u64) {
    sequence == ERROR_DUPLICATE || sequence == ERROR_MSGQ_COPY || sequence == ERROR_NOTHING_TO_FORWARD
  }

  function StopIf(b: Board, stop: bool): Board { b.(running := b.running && !stop) }

  /** `subStoreDataReceived`. */
  function OnReceive(b: Board, input: Input, now: u64): Board {
    match input
    case NullData => b
    case EmptyVariant => b
    case NoElements => StopIf(b, b.packetCount == 999)  // the local message still holds its initial 999
    case Data(sequence, txTime) =>
      var m := Msg(sequence, txTime, now);
      var fits := b.queueOpen && |b.queue| < b.capacity;
      StopIf(b.(gate := true,
                received := b.received + [m],
                queue := if fits then b.queue + [m] else b.queue,
                queuedAt := if fits then b.queuedAt + [|b.received|] else b.queuedAt,
                dropped := if fits then b.dropped else b.dropped + 1),
             sequence == b.packetCount)
  }

  /** One of at most fifteen attempts to dequeue without waiting. */
  function OnPoll(b: Board): Board {
    if b.pending.Some? || b.polls == ATTEMPTS then b
    else if b.queue == [] then b.(polls := b.polls + 1)
    else b.(pending := Some(b.queue[0]), queue := b.queue[1..])
  }

  /** The rest of `pubReturnGetDataToTransmit`, once something was dequeued or the attempts ran out. */
  function OnForward(b: Board, now: u64): Board {
    if b.pending.Some? then
      var m := b.pending.value;
      var v := Judge(m, b.prevRxSequence);
      Send(Counted(b.(pending := None), m, v), m, v, now)
    else if b.polls == ATTEMPTS then Send(b, UNREAD, Judge(UNREAD, b.prevRxSequence), now)
    else b
  }

  function Send(b: Board, m: Msg, v: Verdict, now: u64): Board {
    var c := Carried(m, v);
    var txSequence := if v == Good then b.txSequence + 1 else b.txSequence;
    var t := b.(
      gate := b.gate && v != EarlyInvalid && v != EarlyMissed,
      txSequence := txSequence,
      prevRxSequence := if IsError(c.rxSequence) then b.prevRxSequence else c.rxSequence,
      rows := b.rows + [Row(c.rxSequence, c.txTime, c.rxTime, ToU64(txSequence), now)],
      polls := 0);
    StopIf(t, txSequence >= b.packetCount)
  }

  /** Files the verdict on a message from the queue. */
  function Counted(b: Board, m: Msg, v: Verdict): Board {
    var t := b.(judged := b.judged + [m]);
    match v
    case Good => t.(good := b.good + [m], goodAt := b.goodAt + [|b.judged|])
    case Duplicate => t.(duplicates := b.duplicates + 1)
    case EarlyInvalid => t.(early := b.early + 1)
    case EarlyMissed => t.(early := b.early + 1)
    case _ => t.(otherErrors := b.otherErrors + 1)
  }

  function Step(b: Board, e: Event): Board {
    match e
    case Receive(input, now) => OnReceive(b, input, now)
    case Poll => OnPoll(b)
    case Forward(now) => OnForward(b, now)
  }

  function Run(b: Board, es: seq<Event>): Board {
    if es == [] then b else Step(Run(b, es[..|es| - 1]), es[|es| - 1])
  }

  function Start(capacity: nat, queueOpen: bool, packetCount: u64): Board {
    Board(capacity, queueOpen, packetCount, [], false, true, -2, 999, 0, None, [], [], 0, [], [], [], 0, 0, 0, [])
  }

  /** Everything that was queued: judged, in hand, and still waiting, in that order. */
  function Queued(b: Board): seq<Msg> { b.judged + InHand(b) + b.queue }

  function InHand(b: Board): seq<Msg> { if b.pending.Some? then [b.pending.value] else [] }

  /** The accounting that holds in every interleaving. */
  ghost predicate Inv(b: Board) {
    && |b.queue| <= b.capacity && b.polls <= ATTEMPTS
    && Picks(Queued(b), b.received, b.queuedAt)
    && |b.received| == |b.queuedAt| + b.dropped
    && |b.judged| == |b.good| + b.duplicates + b.early + b.otherErrors
    && Picks(b.good, b.judged, b.goodAt)
    && b.txSequence == |b.good| - 2
  }

  lemma ReceiveKeepsInv(b: Board, input: Input, now: u64)
    requires Inv(b)
    ensures Inv(OnReceive(b, input, now))
  {
    if input.Data? {
      var t := OnReceive(b, input, now);
      var m := Msg(input.sequence, input.txTime, now);
      ReceiveQueues(b, input, now);
      PicksGrow(Queued(b), b.received, b.queuedAt, m);
      assert Picks(Queued(t), t.received, t.queuedAt);
    }
  }

  /** A message that fits goes to the end of the line; one that does not changes nothing there. */
  lemma ReceiveQueues(b: Board, input: Input, now: u64)
    requires input.Data?
    ensures Queued(OnReceive(b, input, now))
            == Queued(b) + if b.queueOpen && |b.queue| < b.capacity
                           then [Msg(input.sequence, input.txTime, now)] else []
  {
    var m, t := Msg(input.sequence, input.txTime, now), OnReceive(b, input, now);
    assert InHand(t) == InHand(b) && t.judged == b.judged;
    if b.queueOpen && |b.queue| < b.capacity {
      assert t.queue == b.queue + [m];
      assert b.judged + InHand(b) + (b.queue + [m]) == Queued(b) + [m];
    } else {
      assert Queued(b) + [] == Queued(b);
    }
  }

  lemma PollKeepsQueued(b: Board)
    ensures Queued(OnPoll(b)) == Queued(b)
  {
  }

  lemma CountingKeepsPicks(b: Board, m: Msg, v: Verdict)
    requires Picks(b.good, b.judged, b.goodAt)
    ensures var t := Counted(b, m, v); Picks(t.good, t.judged, t.goodAt)
  {
    PicksGrow(b.good, b.judged, b.goodAt, m);
  }

  /** With nothing read, the message is the local initial value, which the chain reports as a copy error. */
  lemma UnreadIsCopyError(prev: u64)
    ensures Judge(UNREAD, prev) == CopyError
  {
  }

  lemma SendKeepsInv(b: Board, m: Msg, v: Verdict, now: u64)
    requires Inv(b) && b.pending == Some(m)
    ensures Inv(Send(Counted(b.(pending := None), m, v), m, v, now))
  {
    var t := Send(Counted(b.(pending := None), m, v), m, v, now);
    CountingKeepsPicks(b.(pending := None), m, v);
    assert t.judged == b.judged + InHand(b) && InHand(t) == [];
    assert Queued(t) == Queued(b);
  }

  lemma ForwardKeepsInv(b: Board, now: u64)
    requires Inv(b)
    ensures Inv(OnForward(b, now))
  {
    if b.pending.Some? {
      SendKeepsInv(b, b.pending.value, Judge(b.pending.value, b.prevRxSequence), now);
    } else if b.polls == ATTEMPTS {
      UnreadIsCopyError(b.prevRxSequence);
      assert Queued(Send(b, UNREAD, CopyError, now)) == Queued(b);
    }
  }

  lemma StepKeepsInv(b: Board, e: Event)
    requires Inv(b)
    ensures Inv(Step(b, e))
  {
    match e
    case Receive(input, now) => ReceiveKeepsInv(b, input, now);
    case Poll => PollKeepsQueued(b);
    case Forward(now) => ForwardKeepsInv(b, now);
  }

  lemma {:induction false} RunKeepsInv(b: Board, es: seq<Event>)
    requires Inv(b)
    ensures Inv(Run(b, es))
  {
    if es != [] {
      RunKeepsInv(b, es[..|es| - 1]);
      StepKeepsInv(Run(b, es[..|es| - 1]), es[|es| - 1]);
    }
  }

  // ---------------------------------------------------------------------------------------------------
  // Accounting and order

  /**
   For every interleaving: good forwards are a subsequence of what was received, in order; the sequence number
   counts them from -2; and every message received was forwarded, reported, is in hand, waits or was dropped.
   */
  lemma ForwardingAccounts(capacity: nat, queueOpen: bool, packetCount: u64, es: seq<Event>)
    ensures var b := Run(Start(capacity, queueOpen, packetCount), es);
            && Subsequence(b.good, b.received)
            && b.txSequence == -2 + |b.good|
            && |b.received| == |b.good| + b.duplicates + b.early + b.otherErrors + |InHand(b)| + |b.queue| + b.dropped
  {
    var b := Run(Start(capacity, queueOpen, packetCount), es);
    RunKeepsInv(Start(capacity, queueOpen, packetCount), es);
    PicksOfPrefix(Queued(b), b.received, b.queuedAt, |b.judged|);
    assert Queued(b)[..|b.judged|] == b.judged;
    PicksCompose(b.good, b.judged, b.received, b.goodAt, b.queuedAt[..|b.judged|]);
  }

  // ---------------------------------------------------------------------------------------------------
  // A clock past its first microsecond

  /** Every clock reading of the subscriber exceeds 999 ns. */
  predicate ClockRuns(es: seq<Event>) { forall i | 0 <= i < |es| && es[i].Receive? :: es[i].now > 999 }

  ghost predicate Stamped(b: Board) { forall m | m in b.received :: m.rxTime > 999 }

  lemma {:induction false} ReceivedIsStamped(b: Board, es: seq<Event>)
    requires Stamped(b) && ClockRuns(es)
    ensures Stamped(Run(b, es))
  {
    if es != [] {
      ReceivedIsStamped(b, es[..|es| - 1]);
    }
  }

  lemma InHandWasReceived(b: Board)
    requires Inv(b) && b.pending.Some?
    ensures b.pending.value in b.received
  {
    assert Queued(b)[|b.judged|] == b.pending.value;
    assert b.received[b.queuedAt[|b.judged|]] == b.pending.value;
  }

  /**
   Then a message from the queue is forwarded or found a duplicate, nothing else: the gate, once open, stays
   open, and nothing is ever reported early or missing.
   */
  lemma {:induction false} GateStaysOpen(b: Board, es: seq<Event>)
    requires Inv(b) && Stamped(b) && ClockRuns(es)
    ensures b.gate ==> Run(b, es).gate
    ensures Run(b, es).early == b.early && Run(b, es).otherErrors == b.otherErrors
  {
    if es != [] {
      var before := Run(b, es[..|es| - 1]);
      GateStaysOpen(b, es[..|es| - 1]);
      ReceivedIsStamped(b, es[..|es| - 1]);
      RunKeepsInv(b, es[..|es| - 1]);
      if before.pending.Some? {
        InHandWasReceived(before);
      }
    }
  }

  /** The messages that close the gate: an early number, and both times equal to one of the sentinels. */
  predicate Closes(m: Msg) { m.rxSequence < 10 && m.rxTime == m.txTime && (m.rxTime == 888 || m.rxTime == 999) }

  function Closers(ms: seq<Msg>): nat {
    if ms == [] then 0 else Closers(ms[..|ms| - 1]) + (if Closes(ms[|ms| - 1]) then 1 else 0)
  }

  predicate IsData(e: Event) { e.Receive? && e.input.Data? }

  lemma EarlyIffCloses(m: Msg, prev: u64)
    ensures Judge(m, prev) in {EarlyInvalid, EarlyMissed} <==> Closes(m)
  {
  }

  lemma JudgedGate(b: Board, m: Msg, now: u64)
    requires b.pending == Some(m)
    ensures var t := OnForward(b, now);
            && t.judged == b.judged + [m] && t.early == b.early + (if Closes(m) then 1 else 0)
            && t.gate == (b.gate && !Closes(m))
  {
    EarlyIffCloses(m, b.prevRxSequence);
  }

  lemma StepGate(b: Board, e: Event)
    ensures var t := Step(b, e);
            && t.early - Closers(t.judged) == b.early - Closers(b.judged) && t.early >= b.early
            && t.gate == (IsData(e) || (b.gate && t.early == b.early))
  {
    if e.Forward? {
      UnreadIsCopyError(b.prevRxSequence);
      if b.pending.Some? {
        JudgedGate(b, b.pending.value, e.now);
        assert (b.judged + [b.pending.value])[..|b.judged|] == b.judged;
      }
    }
  }

  /**
   While nothing usable is received, an open gate closes if and only if a closing message is judged; anything
   usable opens it again.
   */
  lemma {:induction false} GateClosesIff(b: Board, es: seq<Event>)
    ensures var t := Run(b, es);
            && t.early - b.early == Closers(t.judged) - Closers(b.judged) >= 0
            && ((forall i | 0 <= i < |es| :: !IsData(es[i])) ==>
                  (t.gate <==> b.gate && Closers(t.judged) == Closers(b.judged)))
            && (es != [] && IsData(es[|es| - 1]) ==> t.gate)
  {
    if es != [] {
      GateClosesIff(b, es[..|es| - 1]);
      StepGate(Run(b, es[..|es| - 1]), es[|es| - 1]);
    }
  }

  /** An error row in place of a message; nothing else changes. */
  lemma ExhaustedIsCopyError(b: Board, now: u64)
    requires b.pending.None? && b.polls == ATTEMPTS
    ensures var t := OnForward(b, now);
            && t == b.(rows := t.rows, polls := 0, running := t.running)
            && t.rows == b.rows + [Row(ERROR_MSGQ_COPY, ERROR_MSGQ_COPY, ERROR_MSGQ_COPY, ToU64(b.txSequence), now)]
  {
    UnreadIsCopyError(b.prevRxSequence);
  }

  function Polls(k: nat): (es: seq<Event>)
    ensures |es| == k && forall i | 0 <= i < k :: es[i] == Poll
  {
    seq(k, _ => Poll)
  }

  lemma {:induction false} EmptyPolls(b: Board, k: nat)
    requires b.queue == [] && b.pending.None? && b.polls == 0 && k <= ATTEMPTS
    ensures Run(b, Polls(k)) == b.(polls := k)
  {
    if k > 0 {
      EmptyPolls(b, k - 1);
      assert Polls(k)[..k - 1] == Polls(k - 1);
    }
  }

  /** Fifteen attempts on an empty queue are reported as a copy error, and forward nothing. */
  lemma FifteenMisses(b: Board, now: u64)
    requires b.queue == [] && b.pending.None? && b.polls == 0
    ensures var t := Run(b, Polls(15) + [Forward(now)]);
            && t == b.(rows := t.rows, running := t.running)
            && t.rows == b.rows + [Row(ERROR_MSGQ_COPY, ERROR_MSGQ_COPY, ERROR_MSGQ_COPY, ToU64(b.txSequence), now)]
  {
    EmptyPolls(b, 15);
    assert (Polls(15) + [Forward(now)])[..15] == Polls(15);
    ExhaustedIsCopyError(b.(polls := 15), now);
  }

  // ---------------------------------------------------------------------------------------------------
  // Duplicates

  function Sequences(ms: seq<Msg>): (s: seq<int>)
    ensures |s| == |ms| && forall i | 0 <= i < |s| :: s[i] == ms[i].rxSequence
  {
    seq(|ms|, i requires 0 <= i < |ms| => ms[i].rxSequence as int)
  }

  /** The duplicate memory never runs ahead of the last message judged. */
  ghost predicate MemoryBehind(b: Board) {
    && (b.judged == [] ==> b.prevRxSequence == 999)
    && (b.judged != [] ==> b.prevRxSequence <= b.judged[|b.judged| - 1].rxSequence)
    && b.duplicates == FalseDuplicates(b)
  }

  function FalseDuplicates(b: Board): nat {
    if b.judged != [] && b.judged[0].rxSequence == 999 then 1 else 0
  }

  /** What is dequeued increases if what is received does. */
  lemma InHandIsLarger(b: Board)
    requires Inv(b) && StrictlyIncreasing(Sequences(b.received)) && b.pending.Some? && b.judged != []
    ensures b.judged[|b.judged| - 1].rxSequence < b.pending.value.rxSequence
  {
    var k := |b.judged|;
    assert Queued(b)[k - 1] == b.judged[k - 1] && Queued(b)[k] == b.pending.value;
    assert b.queuedAt[k - 1] < b.queuedAt[k];
    assert Sequences(b.received)[b.queuedAt[k - 1]] < Sequences(b.received)[b.queuedAt[k]];
  }

  lemma ForwardKeepsMemory(b: Board, now: u64)
    requires Inv(b) && Stamped(b) && MemoryBehind(b) && StrictlyIncreasing(Sequences(b.received))
    ensures MemoryBehind(OnForward(b, now))
  {
    if b.pending.Some? {
      InHandWasReceived(b);
      if b.judged != [] {
        InHandIsLarger(b);
      }
      JudgedKeepsMemory(b, b.pending.value, now);
    }
  }

  lemma JudgedKeepsMemory(b: Board, m: Msg, now: u64)
    requires MemoryBehind(b) && m.rxTime > 999 && b.pending == Some(m)
    requires b.judged != [] ==> b.judged[|b.judged| - 1].rxSequence < m.rxSequence
    ensures MemoryBehind(OnForward(b, now))
  {
    var v, t := Judge(m, b.prevRxSequence), OnForward(b, now);
    assert t.judged == b.judged + [m];
    assert v == Duplicate || v == Good;
    if v == Duplicate {
      assert b.judged == [] && m.rxSequence == 999;
      assert t.prevRxSequence == b.prevRxSequence == 999 && t.duplicates == b.duplicates + 1;
    } else {
      assert t.prevRxSequence == (if IsError(m.rxSequence) then b.prevRxSequence else m.rxSequence);
      assert t.duplicates == b.duplicates;
    }
  }

  lemma {:induction false} DuplicatesCounted(b: Board, es: seq<Event>)
    requires Inv(b) && Stamped(b) && MemoryBehind(b) && ClockRuns(es)
    requires StrictlyIncreasing(Sequences(Run(b, es).received))
    ensures MemoryBehind(Run(b, es))
  {
    if es != [] {
      RunKeepsInv(b, es[..|es| - 1]);
      ReceivedIsStamped(b, es[..|es| - 1]);
      EarlierReceivedIncreases(Run(b, es[..|es| - 1]), es[|es| - 1]);
      DuplicatesCounted(b, es[..|es| - 1]);
      StepKeepsMemory(Run(b, es[..|es| - 1]), es[|es| - 1]);
    }
  }

  lemma EarlierReceivedIncreases(b: Board, e: Event)
    requires StrictlyIncreasing(Sequences(Step(b, e).received))
    ensures StrictlyIncreasing(Sequences(b.received))
  {
    ReceivedOnlyGrows(b, e);
    var all := Step(b, e).received;
    forall i, j | 0 <= i < j < |b.received|
      ensures Sequences(b.received)[i] < Sequences(b.received)[j]
    {
      assert Sequences(all)[i] < Sequences(all)[j] && all[i] == b.received[i] && all[j] == b.received[j];
    }
  }

  lemma StepKeepsMemory(b: Board, e: Event)
    requires Inv(b) && Stamped(b) && MemoryBehind(b) && StrictlyIncreasing(Sequences(b.received))
    ensures MemoryBehind(Step(b, e))
  {
    if e.Forward? {
      ForwardKeepsMemory(b, e.now);
    }
  }

  /**
   Strictly increasing input produces a duplicate report if and only if the first message judged is numbered
   999, the value the memory starts with; and then exactly one. With a working queue of at least one place that
   is the first message received.
   */
  lemma FalseDuplicateIff(capacity: nat, queueOpen: bool, packetCount: u64, es: seq<Event>)
    requires ClockRuns(es)
    requires StrictlyIncreasing(Sequences(Run(Start(capacity, queueOpen, packetCount), es).received))
    ensures var b := Run(Start(capacity, queueOpen, packetCount), es);
            && b.duplicates == FalseDuplicates(b)
            && (queueOpen && capacity > 0 && b.judged != [] ==>
                  b.received != [] && b.duplicates == if b.received[0].rxSequence == 999 then 1 else 0)
  {
    DuplicatesCounted(Start(capacity, queueOpen, packetCount), es);
    if queueOpen && capacity > 0 {
      FirstIsNeverDropped(capacity, packetCount, es);
    }
  }

  lemma FirstIsQueued(b: Board, e: Event)
    requires Inv(b) && b.queueOpen && b.capacity > 0
    requires b.received != [] ==> b.queuedAt != [] && b.queuedAt[0] == 0
    ensures var t := Step(b, e);
            && t.queueOpen && t.capacity == b.capacity
            && (t.received != [] ==> t.queuedAt != [] && t.queuedAt[0] == 0)
  {
    if b.received == [] {
      assert Queued(b) == [];
    }
  }

  /** With a working queue of at least one place, the first message judged is the first received. */
  lemma {:induction false} FirstIsNeverDropped(capacity: nat, packetCount: u64, es: seq<Event>)
    requires capacity > 0
    ensures var b := Run(Start(capacity, true, packetCount), es);
            && b.queueOpen && b.capacity == capacity
            && (b.received != [] ==> b.queuedAt != [] && b.queuedAt[0] == 0)
            && (b.judged != [] ==> b.received != [] && b.judged[0] == b.received[0])
  {
    var b := Run(Start(capacity, true, packetCount), es);
    RunKeepsInv(Start(capacity, true, packetCount), es);
    if es != [] {
      FirstIsNeverDropped(capacity, packetCount, es[..|es| - 1]);
      RunKeepsInv(Start(capacity, true, packetCount), es[..|es| - 1]);
      FirstIsQueued(Run(Start(capacity, true, packetCount), es[..|es| - 1]), es[|es| - 1]);
    }
    if b.judged != [] {
      assert Queued(b)[0] == b.judged[0];
    }
  }

  // ---------------------------------------------------------------------------------------------------
  // What board A sees

  /** The last number sent that is not an error code, or the value the memory starts with. */
  function LastSent(rows: seq<Row>): u64 {
    if rows == [] then 999
    else if IsError(rows[|rows| - 1].seqA) then LastSent(rows[..|rows| - 1])
    else rows[|rows| - 1].seqA
  }

  /** No row repeats the number before it, error rows in between or not, except among the first ten numbers. */
  predicate NoRepeats(rows: seq<Row>) {
    forall k | 0 <= k < |rows| && !IsError(rows[k].seqA) && rows[k].seqA > 10 :: rows[k].seqA != LastSent(rows[..k])
  }

  /** The duplicate memory is what was last sent, and it does its work whatever arrives. */
  lemma {:induction false} RowsNeverRepeat(b: Board, es: seq<Event>)
    requires Inv(b) && Stamped(b) && ClockRuns(es)
    requires b.prevRxSequence == LastSent(b.rows) && NoRepeats(b.rows)
    ensures Run(b, es).prevRxSequence == LastSent(Run(b, es).rows) && NoRepeats(Run(b, es).rows)
  {
    if es != [] {
      var before := Run(b, es[..|es| - 1]);
      RowsNeverRepeat(b, es[..|es| - 1]);
      ReceivedIsStamped(b, es[..|es| - 1]);
      RunKeepsInv(b, es[..|es| - 1]);
      if es[|es| - 1].Forward? {
        ForwardRepeatsNothing(before, es[|es| - 1].now);
      }
    }
  }

  lemma RowAppended(rows: seq<Row>, row: Row)
    requires NoRepeats(rows)
    requires !IsError(row.seqA) && row.seqA > 10 ==> row.seqA != LastSent(rows)
    ensures NoRepeats(rows + [row])
    ensures LastSent(rows + [row]) == if IsError(row.seqA) then LastSent(rows) else row.seqA
  {
    var all := rows + [row];
    assert all[..|rows|] == rows;
    forall k | 0 <= k < |all| && !IsError(all[k].seqA) && all[k].seqA > 10
      ensures all[k].seqA != LastSent(all[..k])
    {
      if k < |rows| {
        assert all[..k] == rows[..k];
      }
    }
  }

  lemma ForwardRepeatsNothing(b: Board, now: u64)
    requires Inv(b) && Stamped(b) && b.prevRxSequence == LastSent(b.rows) && NoRepeats(b.rows)
    ensures var t := OnForward(b, now); t.prevRxSequence == LastSent(t.rows) && NoRepeats(t.rows)
  {
    if b.pending.Some? {
      assert b.pending.value.rxTime != 999 by {
        InHandWasReceived(b);
      }
      JudgedRepeatsNothing(b, b.pending.value, now);
    } else if b.polls == ATTEMPTS {
      SendRepeatsNothing(b, UNREAD, now);
    }
  }

  lemma JudgedRepeatsNothing(b: Board, m: Msg, now: u64)
    requires b.pending == Some(m) && m.rxTime != 999
    requires b.prevRxSequence == LastSent(b.rows) && NoRepeats(b.rows)
    ensures var t := OnForward(b, now); t.prevRxSequence == LastSent(t.rows) && NoRepeats(t.rows)
  {
    var v := Judge(m, b.prevRxSequence);
    var c := Counted(b.(pending := None), m, v);
    assert c.rows == b.rows && c.prevRxSequence == b.prevRxSequence;
    assert OnForward(b, now) == Send(c, m, v, now);
    SendRepeatsNothing(c, m, now);
  }

  lemma SendRepeatsNothing(b: Board, m: Msg, now: u64)
    requires b.prevRxSequence == LastSent(b.rows) && NoRepeats(b.rows) && m.rxTime != 999
    ensures var t := Send(b, m, Judge(m, b.prevRxSequence), now);
            t.prevRxSequence == LastSent(t.rows) && NoRepeats(t.rows)
  {
    RowAppended(b.rows, Send(b, m, Judge(m, b.prevRxSequence), now).rows[|b.rows|]);
  }

  // ---------------------------------------------------------------------------------------------------
  // Which message becomes which row

  /** The first three numbers of a row. */
  predicate RowSays(r: Row, seqA: u64, txPubA: u64, rxSubB: u64) {
    r.seqA == seqA && r.txPubA == txPubA && r.rxSubB == rxSubB
  }

  predicate RowIsCode(r: Row, code: u64) { RowSays(r, code, code, code) }

  /** A message that repeats the last number sent and is neither early nor a local initial value. */
  predicate Repeats(m: Msg, rows: seq<Row>) {
    m.rxSequence == LastSent(rows) && m.rxSequence > 10 && m.rxTime != 999 && m != Msg(888, 888, 888)
  }

  /**
   The row of a dequeued message whose number is no error code: one of the three codes, each for its own kind of
   message, or the message itself. The last number is the time of the call, and the number before it counts the
   messages forwarded; it moves exactly for a message that is neither coded nor early.
   */
  ghost predicate RowFor(b: Board, m: Msg, row: Row, now: u64) {
    && (RowIsCode(row, 5656565656565656565) <==> m == Msg(999, 999, 999))
    && (RowIsCode(row, 4343434343434343434) <==> m == Msg(888, 888, 888))
    && (RowIsCode(row, 3131313131313131313) <==> Repeats(m, b.rows))
    && (m != Msg(999, 999, 999) && m != Msg(888, 888, 888) && !Repeats(m, b.rows) ==>
          RowSays(row, m.rxSequence, m.txTime, m.rxTime))
    && row.txPubB == now
    && row.seqB == ToU64(|b.good| - 2 + (if Forwards(m, b.rows) then 1 else 0))
  }

  predicate Forwards(m: Msg, rows: seq<Row>) {
    !Closes(m) && m != Msg(999, 999, 999) && m != Msg(888, 888, 888) && !Repeats(m, rows)
  }

  predicate NoCode(m: Msg) { !IsError(m.rxSequence) }

  /** The verdict in the terms of the message and the rows sent before. */
  lemma VerdictIff(m: Msg, rows: seq<Row>)
    ensures var v := Judge(m, LastSent(rows));
            && (v == NothingToForward <==> m == Msg(999, 999, 999))
            && (v == CopyError <==> m == Msg(888, 888, 888))
            && (v == Duplicate <==> Repeats(m, rows))
            && (v == Good <==> Forwards(m, rows))
  {
  }

  /** Each of them gets the row it should. */
  lemma ForwardSends(b: Board, m: Msg, now: u64)
    requires Inv(b) && b.prevRxSequence == LastSent(b.rows) && b.pending == Some(m) && NoCode(m)
    ensures var t := OnForward(b, now);
            && |t.rows| == |b.rows| + 1 && t.rows[..|b.rows|] == b.rows
            && RowFor(b, m, t.rows[|b.rows|], now)
            && t.judged == b.judged + [m]
            && t.duplicates == b.duplicates + (if Repeats(m, b.rows) then 1 else 0)
  {
    VerdictIff(m, b.rows);
  }

  function RowsWith(rows: seq<Row>, code: u64): nat {
    if rows == [] then 0
    else RowsWith(rows[..|rows| - 1], code) + (if RowIsCode(rows[|rows| - 1], code) then 1 else 0)
  }

  function Initials(ms: seq<Msg>, m: Msg): nat {
    if ms == [] then 0 else Initials(ms[..|ms| - 1], m) + (if ms[|ms| - 1] == m then 1 else 0)
  }

  /** The codes sent so far, by what they report; failed attempts are copy errors too. */
  ghost predicate CodesCount(b: Board) {
    && b.prevRxSequence == LastSent(b.rows)
    && RowsWith(b.rows, 3131313131313131313) == b.duplicates
    && RowsWith(b.rows, 5656565656565656565) == Initials(b.judged, Msg(999, 999, 999))
    && RowsWith(b.rows, 4343434343434343434) >= Initials(b.judged, Msg(888, 888, 888))
  }

  ghost predicate Uncoded(b: Board) { forall m | m in b.received :: NoCode(m) }

  lemma RowCounts(rows: seq<Row>, row: Row, code: u64)
    ensures RowsWith(rows + [row], code) == RowsWith(rows, code) + (if RowIsCode(row, code) then 1 else 0)
    ensures LastSent(rows + [row]) == if IsError(row.seqA) then LastSent(rows) else row.seqA
  {
    assert (rows + [row])[..|rows|] == rows;
  }

  lemma JudgedKeepsCodes(b: Board, m: Msg, now: u64)
    requires Inv(b) && CodesCount(b) && b.pending == Some(m) && NoCode(m)
    ensures CodesCount(OnForward(b, now))
  {
    var t := OnForward(b, now);
    ForwardSends(b, m, now);
    var row := t.rows[|b.rows|];
    assert t.rows == b.rows + [row];
    RowCounts(b.rows, row, 3131313131313131313);
    RowCounts(b.rows, row, 5656565656565656565);
    RowCounts(b.rows, row, 4343434343434343434);
    assert (b.judged + [m])[..|b.judged|] == b.judged;
    assert t.prevRxSequence == if IsError(row.seqA) then b.prevRxSequence else row.seqA;
  }

  lemma MissKeepsCodes(b: Board, now: u64)
    requires CodesCount(b) && b.pending.None? && b.polls == ATTEMPTS
    ensures CodesCount(OnForward(b, now))
  {
    var t := OnForward(b, now);
    ExhaustedIsCopyError(b, now);
    var row := t.rows[|b.rows|];
    RowCounts(b.rows, row, 3131313131313131313);
    RowCounts(b.rows, row, 5656565656565656565);
    RowCounts(b.rows, row, 4343434343434343434);
  }

  lemma StepKeepsCodes(b: Board, e: Event)
    requires Inv(b) && CodesCount(b) && Uncoded(b)
    ensures CodesCount(Step(b, e))
  {
    if e.Forward? {
      if b.pending.Some? {
        InHandWasReceived(b);
        JudgedKeepsCodes(b, b.pending.value, e.now);
      } else if b.polls == ATTEMPTS {
        MissKeepsCodes(b, e.now);
      }
    }
  }

  /**
   Over every run in which no number received is itself an error code: the rows with the duplicate code number the
   duplicates, and those with the nothing-to-forward code the initial values that came through the queue.
   */
  lemma {:induction false} CodesReport(b: Board, es: seq<Event>)
    requires Inv(b) && CodesCount(b) && Uncoded(Run(b, es))
    ensures CodesCount(Run(b, es)) && Uncoded(b)
  {
    if es != [] {
      var before := Run(b, es[..|es| - 1]);
      ReceivedOnlyGrows(before, es[|es| - 1]);
      CodesReport(b, es[..|es| - 1]);
      RunKeepsInv(b, es[..|es| - 1]);
      StepKeepsCodes(before, es[|es| - 1]);
    }
  }

  lemma ReceivedOnlyGrows(b: Board, e: Event)
    ensures b.received <= Step(b, e).received
  {
  }

  /** With a clock past 999 ns no row ever says that there is nothing to forward. */
  lemma NothingIsNeverMissing(capacity: nat, queueOpen: bool, packetCount: u64, es: seq<Event>)
    requires ClockRuns(es) && Uncoded(Run(Start(capacity, queueOpen, packetCount), es))
    ensures RowsWith(Run(Start(capacity, queueOpen, packetCount), es).rows, 5656565656565656565) == 0
  {
    var b := Run(Start(capacity, queueOpen, packetCount), es);
    CodesReport(Start(capacity, queueOpen, packetCount), es);
    RunKeepsInv(Start(capacity, queueOpen, packetCount), es);
    ReceivedIsStamped(Start(capacity, queueOpen, packetCount), es);
    JudgedWasReceived(b);
    NoInitials(b.judged);
  }

  lemma JudgedWasReceived(b: Board)
    requires Inv(b)
    ensures forall m | m in b.judged :: m in b.received
  {
    forall m | m in b.judged
      ensures m in b.received
    {
      var i :| 0 <= i < |b.judged| && b.judged[i] == m;
      assert Queued(b)[i] == m && b.received[b.queuedAt[i]] == m;
    }
  }

  lemma {:induction false} NoInitials(ms: seq<Msg>)
    requires forall m | m in ms :: m.rxTime > 999
    ensures Initials(ms, Msg(999, 999, 999)) == 0
  {
    if ms != [] {
      NoInitials(ms[..|ms| - 1]);
    }
  }

  // ---------------------------------------------------------------------------------------------------
  // When the process on board B stops

  /** An empty array while the last packet is number 999: the local message still says 999. */
  predicate EmptyStop(e: Event, packetCount: u64) { e.Receive? && e.input.NoElements? && packetCount == 999 }

  lemma SendStops(b: Board, m: Msg, v: Verdict, now: u64)
    ensures var t := Send(b, m, v, now);
            && (t.running <==> b.running && t.txSequence < b.packetCount)
            && |t.rows| == |b.rows| + 1 && t.packetCount == b.packetCount
            && t.received == b.received && t.good == b.good
  {
  }

  lemma CountedAdds(b: Board, m: Msg, v: Verdict)
    ensures var t := Counted(b, m, v);
            && t.running == b.running && t.rows == b.rows && t.packetCount == b.packetCount
            && t.received == b.received && |t.good| >= |b.good|
  {
  }

  lemma ForwardRunning(b: Board, now: u64)
    requires Inv(b)
    ensures var t := OnForward(b, now);
            && t.packetCount == b.packetCount && |t.good| >= |b.good| && |t.rows| >= |b.rows|
            && (t.running <==> b.running && (|t.rows| > |b.rows| ==> |t.good| - 2 < b.packetCount))
            && (|t.good| > |b.good| ==> |t.rows| > |b.rows|)
            && t.received == b.received
  {
    var t := OnForward(b, now);
    assert t.txSequence == |t.good| - 2 by {
      ForwardKeepsInv(b, now);
    }
    if b.pending.Some? {
      var m, v := b.pending.value, Judge(b.pending.value, b.prevRxSequence);
      CountedAdds(b.(pending := None), m, v);
      SendStops(Counted(b.(pending := None), m, v), m, v, now);
    } else if b.polls == ATTEMPTS {
      SendStops(b, UNREAD, Judge(UNREAD, b.prevRxSequence), now);
    }
  }

  lemma ReceiveRunning(b: Board, input: Input, now: u64)
    ensures var t, e := OnReceive(b, input, now), Receive(input, now);
            && t.packetCount == b.packetCount && t.good == b.good && t.rows == b.rows
            && (t.running <==>
                  && b.running && !EmptyStop(e, b.packetCount)
                  && (input.Data? ==> input.sequence != b.packetCount))
            && t.received == b.received + if input.Data? then [Msg(input.sequence, input.txTime, now)] else []
  {
  }

  lemma StepRunning(b: Board, e: Event)
    requires Inv(b)
    ensures var t := Step(b, e);
            && t.packetCount == b.packetCount && |t.good| >= |b.good|
            && (t.running <==>
                  && b.running && !EmptyStop(e, b.packetCount)
                  && (IsData(e) ==> e.input.sequence != b.packetCount)
                  && (|t.rows| > |b.rows| ==> |t.good| - 2 < b.packetCount))
            && (|t.good| > |b.good| ==> |t.rows| > |b.rows|)
            && |t.rows| >= |b.rows|
            && t.received == b.received + if IsData(e) then [Msg(e.input.sequence, e.input.txTime, e.now)] else []
  {
    match e
    case Forward(now) => ForwardRunning(b, now);
    case Receive(input, now) => ReceiveRunning(b, input, now);
    case Poll =>
  }

  /**
   Over every run: the process still runs if and only if the last number was not received, no empty array came
   while that number is 999, and fewer messages were forwarded than stop the return publisher.
   */
  lemma {:induction false} RunningIff(capacity: nat, queueOpen: bool, packetCount: u64, es: seq<Event>)
    ensures var b := Run(Start(capacity, queueOpen, packetCount), es);
            && b.packetCount == packetCount
            && (b.running <==>
                  && (forall m | m in b.received :: m.rxSequence != packetCount)
                  && (forall i | 0 <= i < |es| :: !EmptyStop(es[i], packetCount))
                  && |b.good| - 2 < packetCount)
  {
    if es != [] {
      var before := Run(Start(capacity, queueOpen, packetCount), es[..|es| - 1]);
      RunningIff(capacity, queueOpen, packetCount, es[..|es| - 1]);
      RunKeepsInv(Start(capacity, queueOpen, packetCount), es[..|es| - 1]);
      StepRunning(before, es[|es| - 1]);
      assert forall i | 0 <= i < |es| - 1 :: es[..|es| - 1][i] == es[i];
    }
  }
}
