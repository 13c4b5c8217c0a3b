/**
 The callbacks of `src/opcua-tsn/opcua_datasource.c` as code over the globals they update. Each one is proved
 against the step functions of `Forwarding`.
 */
module BoardCallbacks {
  import opened Words
  import opened Forwarding

  datatype SubLine = SubLine(latency: int, rxSequence: u64, txTime: u64, rxTime: u64)

  /** One call of the subscriber callback. */
  datatype Call = Call(input: Input, now: u64)

  function ReceiveAll(b: Board, calls: seq<Call>): Board {
    if calls == [] then b
    else OnReceive(ReceiveAll(b, calls[..|calls| - 1]), calls[|calls| - 1].input, calls[|calls| - 1].now)
  }

  /** Attempts `i` and later; after each one that fails, the subscriber thread runs. */
  function AfterPolls(b: Board, env: seq<seq<Call>>, i: nat): Board
    requires i <= |env|
    decreases |env| - i
  {
    if i == |env| || OnPoll(b).pending.Some? then OnPoll(b)
    else AfterPolls(ReceiveAll(OnPoll(b), env[i]), env, i + 1)
  }

  /** The process on board B. */
  class BoardB {
    const msgqCapacity: nat
    const msgqOpen: bool
    const packetCount: u64

    var msgq: seq<Msg>
    var running: bool
    var roundtripPubReturn: bool
    var txSequence: int
    var prevRxSequence: u64
    var subOutputOpen: bool
    var subOutput: seq<SubLine>

    ghost var b: Board  // the same state with its history

    ghost predicate Valid()
      reads this
    {
      Inv(b) && Matches(b)
    }

    ghost predicate Matches(b: Board)
      reads this
    {
      && b.capacity == msgqCapacity && b.queueOpen == msgqOpen && b.packetCount == packetCount
      && b.queue == msgq && b.running == running && b.gate == roundtripPubReturn
      && b.txSequence == txSequence && b.prevRxSequence == prevRxSequence
    }

    constructor (capacity: nat, open: bool, packetCount: u64)
      ensures Valid() && b == Start(capacity, open, packetCount) && subOutput == [] && subOutputOpen
    {
      msgqCapacity, msgqOpen, this.packetCount := capacity, open, packetCount;
      msgq, running, roundtripPubReturn := [], true, false;
      txSequence, prevRxSequence := -2, 999;
      subOutputOpen, subOutput := true, [];
      b := Start(capacity, open, packetCount);
    }

    /** `subStoreDataReceived`. */
    method SubStoreDataReceived(input: Input, now: u64)
      requires Valid()
      modifies this
      ensures Valid() && b == OnReceive(old(b), input, now)
      ensures subOutput == old(subOutput) +
                           (if input.Data? && old(subOutputOpen)
                            then [SubLine(ToI64(ToU64(now - input.txTime)), input.sequence, input.txTime, now)] else [])
      ensures subOutputOpen <==> old(subOutputOpen) && !(input.Data? && input.sequence == packetCount)
                                 && !(input.NoElements? && packetCount == 999)
    {
      ReceiveKeepsInv(b, input, now);
      Store(input, now, b);
      b := OnReceive(b, input, now);
    }

    method Store(input: Input, now: u64, ghost before: Board)
      requires Matches(before)
      modifies this`msgq, this`running, this`roundtripPubReturn, this`subOutput, this`subOutputOpen
      ensures Matches(OnReceive(before, input, now))
      ensures subOutput == old(subOutput) +
                           (if input.Data? && old(subOutputOpen)
                            then [SubLine(ToI64(ToU64(now - input.txTime)), input.sequence, input.txTime, now)] else [])
      ensures subOutputOpen <==> old(subOutputOpen) && !(input.Data? && input.sequence == packetCount)
                                 && !(input.NoElements? && packetCount == 999)
    {
      var m := Msg(999, 999, 999);
      if input.NullData? || input.EmptyVariant? {
        return;
      }
      if input.Data? {
        roundtripPubReturn := true;
        m := Msg(input.sequence, input.txTime, now);
        if subOutputOpen {
          subOutput := subOutput + [SubLine(ToI64(ToU64(m.rxTime - m.txTime)), m.rxSequence, m.txTime, m.rxTime)];
        }
        if msgqOpen && |msgq| < msgqCapacity {
          msgq := msgq + [m];
        }
      }
      if m.rxSequence == packetCount {
        subOutputOpen := false;
        running := false;
      }
    }

    /** The subscriber thread at work while the return publisher sleeps. */
    method Interfere(calls: seq<Call>)
      requires Valid()
      modifies this
      ensures Valid() && b == ReceiveAll(old(b), calls)
    {
      var i := 0;
      assert calls[..0] == [];
      while i < |calls|
        invariant 0 <= i <= |calls|
        invariant Valid() && b == ReceiveAll(old(b), calls[..i])
      {
        assert calls[..i + 1][..i] == calls[..i];
        SubStoreDataReceived(calls[i].input, calls[i].now);
        i := i + 1;
      }
      assert calls[..|calls|] == calls;
    }

    /** `pubReturnGetDataToTransmit`: `env[i]` is what the subscriber receives during the sleep after attempt `i`. */
    method PubReturnGetDataToTransmit(env: seq<seq<Call>>, now: u64) returns (row: Row)
      requires Valid() && |env| == ATTEMPTS && b.polls == 0 && b.pending.None?
      modifies this
      ensures Valid() && b.polls == 0 && b.pending.None?
      ensures b == OnForward(AfterPolls(old(b), env, 0), now)
      ensures b.rows == old(b.rows) + [row]
    {
      var msgqC := UNREAD;
      var got := false;
      var i := 0;
      while i < ATTEMPTS && !got
        invariant 0 <= i <= ATTEMPTS && Valid()
        invariant !got ==> b.polls == i && b.pending.None? && AfterPolls(old(b), env, 0) == AfterPolls(b, env, i)
        invariant got ==> b.pending == Some(msgqC) && AfterPolls(old(b), env, 0) == b
        invariant !got ==> msgqC == UNREAD
        invariant b.rows == old(b.rows)
        decreases ATTEMPTS - i, !got
      {
        PollKeepsQueued(b);
        ghost var before := b;
        b := OnPoll(b);
        if msgq != [] {
          msgqC, msgq, got := msgq[0], msgq[1..], true;
        } else {
          AllReceivesKeep(b, env[i]);
          Interfere(env[i]);
          i := i + 1;
        }
      }
      row := Respond(msgqC, now);
    }

    /** Validation, the outgoing row, and the end condition. */
    method Respond(msgqC: Msg, now: u64) returns (row: Row)
      requires Valid()
      requires if b.pending.Some? then msgqC == b.pending.value else b.polls == ATTEMPTS && msgqC == UNREAD
      modifies this
      ensures Valid() && b == OnForward(old(b), now) && b.rows == old(b.rows) + [row]
      ensures b.polls == 0 && b.pending.None?
    {
      ForwardKeepsInv(b, now);
      ForwardStartsOver(b, now);
      row := Build(msgqC, now, b);
      b := OnForward(b, now);
    }

    method Build(msgqC: Msg, now: u64, ghost before: Board) returns (row: Row)
      requires Matches(before)
      requires if before.pending.Some? then msgqC == before.pending.value
               else before.polls == ATTEMPTS && msgqC == UNREAD
      modifies this`roundtripPubReturn, this`txSequence, this`running, this`prevRxSequence
      ensures Matches(OnForward(before, now))
      ensures OnForward(before, now).rows == before.rows + [row]
    {
      UnreadIsCopyError(prevRxSequence);
      var curr := Validate(msgqC);
      row := Row(curr.rxSequence, curr.txTime, curr.rxTime, ToU64(txSequence), now);
      if txSequence >= packetCount {
        running := false;
      }
      if curr.rxSequence != ERROR_DUPLICATE && curr.rxSequence != ERROR_MSGQ_COPY &&
         curr.rxSequence != ERROR_NOTHING_TO_FORWARD {
        prevRxSequence := curr.rxSequence;
      }
    }

    /** The chain of tests, updating the gate and the sequence number and replacing what is not to be forwarded. */
    method Validate(msgqC: Msg) returns (curr: Msg)
      modifies this`roundtripPubReturn, this`txSequence
      ensures var v := Judge(msgqC, prevRxSequence);
              && curr == Carried(msgqC, v)
              && roundtripPubReturn == (old(roundtripPubReturn) && v != EarlyInvalid && v != EarlyMissed)
              && txSequence == old(txSequence) + (if v == Good then 1 else 0)
      ensures msgqC == Msg(999, 999, 999) ==>
                curr == Msg(5656565656565656565, 5656565656565656565, 5656565656565656565)
      ensures msgqC == Msg(888, 888, 888) ==>
                curr == Msg(4343434343434343434, 4343434343434343434, 4343434343434343434)
      ensures var again := msgqC.rxSequence == prevRxSequence && msgqC.rxSequence > 10 && msgqC.rxTime != 999;
              && (again && msgqC != Msg(888, 888, 888) ==>
                    curr == Msg(3131313131313131313, 3131313131313131313, 3131313131313131313))
              && (!again && msgqC != Msg(999, 999, 999) && msgqC != Msg(888, 888, 888) ==> curr == msgqC)
    {
      curr := msgqC;
      if curr.rxSequence < 10 && curr.rxTime == 999 && curr.txTime == 999 {
        roundtripPubReturn := false;
      } else if curr.rxSequence < 10 && curr.rxTime == 888 && curr.txTime == 888 {
        roundtripPubReturn := false;
      } else if curr.rxSequence == 999 && curr.rxTime == 999 && curr.txTime == 999 {
        curr := Msg(ERROR_NOTHING_TO_FORWARD, ERROR_NOTHING_TO_FORWARD, ERROR_NOTHING_TO_FORWARD);
      } else if curr.rxSequence == 888 && curr.rxTime == 888 && curr.txTime == 888 {
        curr := Msg(ERROR_MSGQ_COPY, ERROR_MSGQ_COPY, ERROR_MSGQ_COPY);
      } else if curr.rxSequence == prevRxSequence && curr.rxSequence > 10 && curr.rxTime != 999 {
        curr := Msg(ERROR_DUPLICATE, ERROR_DUPLICATE, ERROR_DUPLICATE);
      } else {
        txSequence := txSequence + 1;
      }
    }
  }

  lemma ForwardStartsOver(b: Board, now: u64)
    requires b.pending.Some? || b.polls == ATTEMPTS
    ensures OnForward(b, now).polls == 0 && OnForward(b, now).pending.None?
  {
  }

  /** Receiving does not touch what the return publisher has in hand. */
  lemma {:induction false} AllReceivesKeep(b: Board, calls: seq<Call>)
    ensures var t := ReceiveAll(b, calls); t.polls == b.polls && t.pending == b.pending && t.rows == b.rows
  {
    if calls != [] {
      AllReceivesKeep(b, calls[..|calls| - 1]);
    }
  }

  // ---------------------------------------------------------------------------------------------------
  // Calls are runs, so what Forwarding proves of every run holds of the process

  lemma {:induction false} RunConcat(b: Board, es: seq<Event>, fs: seq<Event>)
    ensures Run(b, es + fs) == Run(Run(b, es), fs)
  {
    if fs == [] {
      assert es + fs == es;
    } else {
      assert (es + fs)[..|es + fs| - 1] == es + fs[..|fs| - 1];
      RunConcat(b, es, fs[..|fs| - 1]);
    }
  }

  function Receives(calls: seq<Call>): seq<Event> {
    seq(|calls|, i requires 0 <= i < |calls| => Receive(calls[i].input, calls[i].now))
  }

  lemma {:induction false} ReceiveAllIsRun(b: Board, calls: seq<Call>)
    ensures ReceiveAll(b, calls) == Run(b, Receives(calls))
  {
    if calls != [] {
      ReceiveAllIsRun(b, calls[..|calls| - 1]);
      assert Receives(calls)[..|calls| - 1] == Receives(calls[..|calls| - 1]);
    }
  }

  function PollEvents(b: Board, env: seq<seq<Call>>, i: nat): seq<Event>
    requires i <= |env|
    decreases |env| - i
  {
    if i == |env| || OnPoll(b).pending.Some? then [Poll]
    else [Poll] + Receives(env[i]) + PollEvents(ReceiveAll(OnPoll(b), env[i]), env, i + 1)
  }

  lemma {:induction false} PollsAreRun(b: Board, env: seq<seq<Call>>, i: nat)
    requires i <= |env|
    ensures AfterPolls(b, env, i) == Run(b, PollEvents(b, env, i))
    decreases |env| - i
  {
    assert [Poll][..0] == [] && Run(b, [Poll]) == OnPoll(b);
    if i < |env| && OnPoll(b).pending.None? {
      var t := ReceiveAll(OnPoll(b), env[i]);
      ReceiveAllIsRun(OnPoll(b), env[i]);
      PollsAreRun(t, env, i + 1);
      RunConcat(b, [Poll], Receives(env[i]));
      RunConcat(b, [Poll] + Receives(env[i]), PollEvents(t, env, i + 1));
    }
  }

  /** One call of the return publisher is a run of the transition system. */
  lemma CallIsRun(b: Board, env: seq<seq<Call>>, now: u64)
    ensures OnForward(AfterPolls(b, env, 0), now) == Run(b, PollEvents(b, env, 0) + [Forward(now)])
  {
    PollsAreRun(b, env, 0);
    var es := PollEvents(b, env, 0);
    assert (es + [Forward(now)])[..|es|] == es;
  }
}
