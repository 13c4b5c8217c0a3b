/**
 The round trip over a network that may lose messages but keeps their order, with a publisher whose numbers
 increase: what the result file then shows.
 */
module RoundTripOrder {
  import opened Words
  import opened Subsequences
  import F = Forwarding
  import R = RoundTrip
  import Publisher
  import Schedule

  /** The system, and which publications reached B and which rows reached A, in order of arrival. */
  datatype Traced = Traced(s: R.System, toB: seq<int>, toA: seq<int>)

  function Step(t: Traced, e: R.Event): Traced {
    Traced(R.Step(t.s, e),
           if e.ArriveAtB? && e.index < |t.s.published| then t.toB + [e.index as int] else t.toB,
           if e.ArriveAtA? && e.index < |t.s.b.rows| then t.toA + [e.index as int] else t.toA)
  }

  function Run(t: Traced, es: seq<R.Event>): Traced {
    if es == [] then t else Step(Run(t, es[..|es| - 1]), es[|es| - 1])
  }

  function Start(capacity: nat, queueOpen: bool, packetCount: u64): Traced {
    Traced(R.Start(capacity, queueOpen, packetCount), [], [])
  }

  /** B's clock is past its first microsecond, and no number is one of the error codes. */
  predicate Usual(es: seq<R.Event>) {
    forall i | 0 <= i < |es| ::
      && (es[i].ArriveAtB? ==> es[i].now > 999)
      && (es[i].Publish? ==> !F.IsError(es[i].sequence))
      && (es[i].NonDataAtB? ==> !es[i].input.Data?)
  }

  function Numbers(ps: seq<R.Stamp>): (s: seq<int>)
    ensures |s| == |ps| && forall i | 0 <= i < |s| :: s[i] == ps[i].sequence
  {
    seq(|ps|, i requires 0 <= i < |ps| => ps[i].sequence as int)
  }

  /** How many rows carry a message. */
  function Carrying(rows: seq<F.Row>): nat {
    if rows == [] then 0 else Carrying(rows[..|rows| - 1]) + (if F.IsError(rows[|rows| - 1].seqA) then 0 else 1)
  }

  /** Row `r`, if it carries a message, carries the next good one, with its number counted from -1. */
  ghost predicate CarriesGood(rows: seq<F.Row>, good: seq<F.Msg>, r: nat)
    requires r < |rows|
  {
    var g := Carrying(rows[..r]);
    F.IsError(rows[r].seqA)
    || (g < |good| && rows[r].seqA == good[g].rxSequence && rows[r].seqB == ToU64(g - 1))
  }

  ghost predicate RowsCarryGood(rows: seq<F.Row>, good: seq<F.Msg>) {
    |good| == Carrying(rows) && forall r | 0 <= r < |rows| :: CarriesGood(rows, good, r)
  }

  /** What B received is the publications that arrived. */
  ghost predicate ReceivedArrived(t: Traced) {
    && |t.s.b.received| == |t.toB|
    && (forall k | 0 <= k < |t.toB| ::
          && 0 <= t.toB[k] < |t.s.published|
          && t.s.b.received[k].rxSequence == t.s.published[t.toB[k]].sequence)
  }

  /** A line is about the row that arrived. */
  predicate LineOfRow(l: R.Line, row: F.Row) {
    (l.Measured? <==> !F.IsError(row.seqA)) && (l.Measured? ==> l.seqA == row.seqA && l.seqB == row.seqB)
  }

  ghost predicate LinesArrived(t: Traced) {
    && |t.s.lines| == |t.toA|
    && (forall k | 0 <= k < |t.toA| ::
          0 <= t.toA[k] < |t.s.b.rows| && LineOfRow(t.s.lines[k], t.s.b.rows[t.toA[k]]))
  }

  ghost predicate Clean(b: F.Board) {
    && F.Inv(b) && F.Stamped(b) && RowsCarryGood(b.rows, b.good)
    && (forall m | m in b.received :: !F.IsError(m.rxSequence))
  }

  ghost predicate Inv(t: Traced) {
    && Clean(t.s.b) && ReceivedArrived(t) && LinesArrived(t)
    && (forall p | p in t.s.published :: !F.IsError(p.sequence))
  }

  // ---------------------------------------------------------------------------------------------------
  // Board B

  lemma CarryingMore(rows: seq<F.Row>, row: F.Row)
    ensures Carrying(rows + [row]) == Carrying(rows) + (if F.IsError(row.seqA) then 0 else 1)
    ensures forall r | 0 <= r <= |rows| :: (rows + [row])[..r] == rows[..r]
  {
    assert (rows + [row])[..|rows|] == rows;
  }

  /** A row for a good message, or an error row without one. */
  predicate RowFits(good: seq<F.Msg>, more: seq<F.Msg>, row: F.Row) {
    if F.IsError(row.seqA) then more == good
    else |more| == |good| + 1 && more[..|good|] == good
         && row.seqA == more[|good|].rxSequence && row.seqB == ToU64(|good| - 1)
  }

  lemma RowsMore(rows: seq<F.Row>, good: seq<F.Msg>, row: F.Row, more: seq<F.Msg>)
    requires RowsCarryGood(rows, good) && RowFits(good, more, row)
    ensures RowsCarryGood(rows + [row], more)
  {
    var all := rows + [row];
    CarryingMore(rows, row);
    forall r | 0 <= r < |all|
      ensures CarriesGood(all, more, r)
    {
      assert all[..r] == rows[..r];
      if r < |rows| {
        assert CarriesGood(rows, good, r) && all[r] == rows[r];
        if |more| > |good| && !F.IsError(rows[r].seqA) {
          assert more[..|good|][Carrying(rows[..r])] == good[Carrying(rows[..r])];
        }
      } else {
        assert rows[..r] == rows;
      }
    }
  }

  /** The row of a dequeued message. */
  lemma JudgedRow(b: F.Board, m: F.Msg, now: u64) returns (row: F.Row)
    requires b.pending == F.Option.Some(m) && m.rxTime > 999 && !F.IsError(m.rxSequence)
    requires b.txSequence == |b.good| - 2
    ensures var t := F.OnForward(b, now);
            t.rows == b.rows + [row] && RowFits(b.good, t.good, row) && t.received == b.received
  {
    var t := F.OnForward(b, now);
    var v := F.Judge(m, b.prevRxSequence);
    assert v == F.Duplicate || v == F.Good;
    row := t.rows[|b.rows|];
    if v == F.Good {
      assert t.good == b.good + [m];
    }
  }

  lemma ForwardKeepsRows(b: F.Board, now: u64)
    requires Clean(b)
    ensures var t := F.OnForward(b, now);
            RowsCarryGood(t.rows, t.good) && b.rows <= t.rows && t.received == b.received
  {
    if b.pending.Some? {
      F.InHandWasReceived(b);
      var row := JudgedRow(b, b.pending.value, now);
      RowsMore(b.rows, b.good, row, F.OnForward(b, now).good);
    } else if b.polls == F.ATTEMPTS {
      F.ExhaustedIsCopyError(b, now);
      RowsMore(b.rows, b.good, F.OnForward(b, now).rows[|b.rows|], b.good);
    }
  }

  lemma ForwardKeepsClean(b: F.Board, now: u64)
    requires Clean(b)
    ensures var t := F.OnForward(b, now); Clean(t) && b.rows <= t.rows && t.received == b.received
  {
    ForwardKeepsRows(b, now);
    assert F.Inv(F.OnForward(b, now)) by {
      F.ForwardKeepsInv(b, now);
    }
  }

  /** Receiving adds at most what was received, and touches no row. */
  lemma ReceiveAdds(b: F.Board, input: F.Input, now: u64)
    ensures var t := F.OnReceive(b, input, now);
            && t.rows == b.rows && t.good == b.good
            && t.received == b.received + if input.Data? then [F.Msg(input.sequence, input.txTime, now)] else []
  {
  }

  lemma ReceiveKeepsClean(b: F.Board, input: F.Input, now: u64)
    requires Clean(b) && (input.Data? ==> now > 999 && !F.IsError(input.sequence))
    ensures Clean(F.OnReceive(b, input, now))
  {
    ReceiveAdds(b, input, now);
    assert F.Inv(F.OnReceive(b, input, now)) by {
      F.ReceiveKeepsInv(b, input, now);
    }
  }

  lemma PollKeepsClean(b: F.Board)
    requires Clean(b)
    ensures var t := F.OnPoll(b); Clean(t) && t.rows == b.rows && t.received == b.received
  {
    F.StepKeepsInv(b, F.Poll);
  }

  // ---------------------------------------------------------------------------------------------------
  // The system

  /** A step of B that receives nothing and only adds rows. */
  lemma BoardKeepsInv(t: Traced, b: F.Board)
    requires Inv(t) && Clean(b) && t.s.b.rows <= b.rows && b.received == t.s.b.received
    ensures Inv(Traced(t.s.(b := b), t.toB, t.toA))
  {
    forall k | 0 <= k < |t.toA|
      ensures 0 <= t.toA[k] < |b.rows| && LineOfRow(t.s.lines[k], b.rows[t.toA[k]])
    {
      assert LineOfRow(t.s.lines[k], t.s.b.rows[t.toA[k]]);
    }
  }

  lemma ArrivalKeepsInv(t: Traced, i: nat, now: u64)
    requires Inv(t) && now > 999
    ensures Inv(Step(t, R.ArriveAtB(i, now)))
  {
    if i < |t.s.published| {
      var p := t.s.published[i];
      assert p in t.s.published;
      ReceiveKeepsClean(t.s.b, F.Data(p.sequence, p.txTime), now);
      ReceiveAdds(t.s.b, F.Data(p.sequence, p.txTime), now);
    }
  }

  lemma PublicationKeepsInv(t: Traced, sequence: u64, now: u64)
    requires Inv(t) && !F.IsError(sequence)
    ensures Inv(Step(t, R.Publish(sequence, now)))
  {
  }

  lemma ReturnKeepsInv(t: Traced, i: nat, now: u64)
    requires Inv(t)
    ensures Inv(Step(t, R.ArriveAtA(i, now)))
  {
    var u := Step(t, R.ArriveAtA(i, now));
    assert u.s.b == t.s.b && u.s.published == t.s.published && u.toB == t.toB;
    assert LinesArrived(u) by {
      if i < |t.s.b.rows| {
        assert LineOfRow(R.LineOf(t.s.b.rows[i], now), t.s.b.rows[i]);
      }
    }
  }

  lemma StepKeepsInv(t: Traced, e: R.Event)
    requires Inv(t) && Usual([e])
    ensures Inv(Step(t, e))
  {
    assert [e][0] == e;
    match e
    case Publish(sequence, now) => PublicationKeepsInv(t, sequence, now);
    case ArriveAtB(i, now) => ArrivalKeepsInv(t, i, now);
    case NonDataAtB(input) =>
      ReceiveKeepsClean(t.s.b, input, 0);
      ReceiveAdds(t.s.b, input, 0);
      BoardKeepsInv(t, F.OnReceive(t.s.b, input, 0));
    case BPolls =>
      PollKeepsClean(t.s.b);
      BoardKeepsInv(t, F.OnPoll(t.s.b));
    case BForwards(now) =>
      ForwardKeepsClean(t.s.b, now);
      BoardKeepsInv(t, F.OnForward(t.s.b, now));
    case ArriveAtA(i, now) => ReturnKeepsInv(t, i, now);
  }

  lemma {:induction false} RunKeepsInv(capacity: nat, queueOpen: bool, packetCount: u64, es: seq<R.Event>)
    requires Usual(es)
    ensures Inv(Run(Start(capacity, queueOpen, packetCount), es))
  {
    if es != [] {
      RunKeepsInv(capacity, queueOpen, packetCount, es[..|es| - 1]);
      StepKeepsInv(Run(Start(capacity, queueOpen, packetCount), es[..|es| - 1]), es[|es| - 1]);
    }
  }

  /** The order of publication survives to the good messages. */
  lemma GoodIncreases(t: Traced)
    requires Inv(t) && StrictlyIncreasing(t.toB) && StrictlyIncreasing(Numbers(t.s.published))
    ensures StrictlyIncreasing(F.Sequences(t.s.b.good))
  {
    var b := t.s.b;
    PicksOfPrefix(F.Queued(b), b.received, b.queuedAt, |b.judged|);
    assert F.Queued(b)[..|b.judged|] == b.judged;
    PicksCompose(b.good, b.judged, b.received, b.goodAt, b.queuedAt[..|b.judged|]);
    var at :| Picks(b.good, b.received, at);
    forall i, j | 0 <= i < j < |b.good|
      ensures F.Sequences(b.good)[i] < F.Sequences(b.good)[j]
    {
      var p, q := t.toB[at[i]], t.toB[at[j]];
      assert p < q;
      assert Numbers(t.s.published)[p] < Numbers(t.s.published)[q];
    }
  }

  lemma {:induction false} CarryingGrows(rows: seq<F.Row>, i: nat, j: nat)
    requires i <= j <= |rows|
    ensures Carrying(rows[..i]) <= Carrying(rows[..j])
    ensures i < j && !F.IsError(rows[i].seqA) ==> Carrying(rows[..i]) < Carrying(rows[..j])
    decreases j
  {
    if i < j {
      assert rows[..j][..j - 1] == rows[..j - 1];
      CarryingGrows(rows, i, j - 1);
    }
  }

  /**
   Over a network that keeps the order in both directions, whatever it loses, and a publisher whose numbers
   increase: in the result file the numbers of A strictly increase, and the number B gave counts the messages B
   returned, so it increases too and by one for every row that carries a message.
   */
  lemma ResultsInOrder(
    capacity: nat, queueOpen: bool, packetCount: u64, es: seq<R.Event>, t: Traced, j: nat, k: nat)
    requires Usual(es) && t == Run(Start(capacity, queueOpen, packetCount), es)
    requires StrictlyIncreasing(t.toB) && StrictlyIncreasing(t.toA) && StrictlyIncreasing(Numbers(t.s.published))
    requires j < k < |t.s.lines| && t.s.lines[j].Measured? && t.s.lines[k].Measured?
    ensures LinesArrived(t)
    ensures var g, h := Carrying(t.s.b.rows[..t.toA[j]]), Carrying(t.s.b.rows[..t.toA[k]]);
            && g < h && t.s.lines[j].seqA < t.s.lines[k].seqA
            && t.s.lines[j].seqB == ToU64(g - 1) && t.s.lines[k].seqB == ToU64(h - 1)
  {
    RunKeepsInv(capacity, queueOpen, packetCount, es);
    GoodIncreases(t);
    LinesOfRows(t, j, k);
  }

  lemma LinesOfRows(t: Traced, j: nat, k: nat)
    requires Inv(t) && StrictlyIncreasing(t.toA) && StrictlyIncreasing(F.Sequences(t.s.b.good))
    requires j < k < |t.s.lines| && t.s.lines[j].Measured? && t.s.lines[k].Measured?
    ensures var g, h := Carrying(t.s.b.rows[..t.toA[j]]), Carrying(t.s.b.rows[..t.toA[k]]);
            && g < h && t.s.lines[j].seqA < t.s.lines[k].seqA
            && t.s.lines[j].seqB == ToU64(g - 1) && t.s.lines[k].seqB == ToU64(h - 1)
  {
    var rows, good, p, q := t.s.b.rows, t.s.b.good, t.toA[j], t.toA[k];
    assert LineOfRow(t.s.lines[j], rows[p]) && LineOfRow(t.s.lines[k], rows[q]);
    assert CarriesGood(rows, good, p) && CarriesGood(rows, good, q);
    CarryingGrows(rows, p, q);
    assert F.Sequences(good)[Carrying(rows[..p])] < F.Sequences(good)[Carrying(rows[..q])];
  }

  lemma {:induction false} OneCarriedBetween(rows: seq<F.Row>, i: nat, j: nat)
    requires i < j <= |rows| && !F.IsError(rows[i].seqA)
    requires forall x | i < x < j :: F.IsError(rows[x].seqA)
    ensures Carrying(rows[..j]) == Carrying(rows[..i]) + 1
    decreases j
  {
    assert rows[..j][..j - 1] == rows[..j - 1];
    if i < j - 1 {
      OneCarriedBetween(rows, i, j - 1);
    }
  }

  /** If no row is lost on the way back, the numbers B gave to two measured lines in a row are consecutive. */
  lemma ConsecutiveUnlessLost(t: Traced, j: nat, k: nat)
    requires Inv(t) && j < k < |t.s.lines| && t.s.lines[j].Measured? && t.s.lines[k].Measured?
    requires forall x | 0 <= x < |t.toA| :: t.toA[x] == x
    requires forall x | j < x < k :: !t.s.lines[x].Measured?
    ensures t.s.lines[k].seqB == ToU64(t.s.lines[j].seqB + 1)
  {
    var rows, good := t.s.b.rows, t.s.b.good;
    forall x | j <= x <= k
      ensures F.IsError(rows[x].seqA) <==> !t.s.lines[x].Measured?
    {
      assert t.toA[x] == x && LineOfRow(t.s.lines[x], rows[t.toA[x]]);
    }
    assert LineOfRow(t.s.lines[j], rows[t.toA[j]]) && LineOfRow(t.s.lines[k], rows[t.toA[k]]);
    assert CarriesGood(rows, good, j) && CarriesGood(rows, good, k);
    OneCarriedBetween(rows, j, k);
    Schedule.U64Sum(Carrying(rows[..j]) as int - 1, 1);
  }

  /** The numbers of a lone publisher increase and are no error codes. */
  lemma PublisherIncreases(setup: nat, packetCount: nat)
    requires setup > 0 && packetCount <= 10_000_000
    ensures StrictlyIncreasing(Publisher.Upto(setup - 1, packetCount))
    ensures forall x | x in Publisher.Upto(setup - 1, packetCount) :: 0 <= x < W64 && !F.IsError(ToU64(x))
  {
  }
}
