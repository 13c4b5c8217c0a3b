/**
 How the TSQ listener pairs the samples of its two talkers (`src/tsq.c`), as a state machine over rounds of its
 main loop: what each `select` round read from the two sockets is arbitrary.
 */
module TsqPairing {
  import opened Words
  import opened Subsequences
  import opened TsqFraming

  /** One socket in one round: not readable, or `count` bytes that begin like `data`. */
  datatype Read = Idle | Arrived(count: nat, data: Payload)

  /** One line of the output file, and which of the accepted samples of each slot it compares. */
  datatype Line = Line(number: nat, secs: int, nsecs: int, at: seq<nat>)

  /**
   The listener's variables. `got` remembers every sample accepted from each slot; `dataAt` and `keepAt` say
   where in it `data` and `keep` came from.
   */
  datatype State = State(
    data: seq<Payload>, dataAt: seq<nat>, valid: seq<bool>,
    skip: bool, keepSlot: nat, keep: Payload, keepAt: nat,
    rounds: nat, log: seq<Line>, got: seq<seq<Payload>>)

  const Blank := Payload(0, 0, 0, 0)

  const Start := State([Blank, Blank], [0, 0], [false, false], false, 0, Blank, 0, 0, [], [[], []])

  function Secs(p: Payload): int { ToI64(p.secs) }

  predicate Shape(s: State) { |s.data| == |s.dataAt| == |s.valid| == |s.got| == 2 && s.keepSlot < 2 }

  /** A slot takes back the sample kept for it. */
  function Restored(s: State, i: nat): (t: State)
    requires Shape(s) && i < 2
    ensures Shape(t)
  {
    s.(data := s.data[i := s.keep], dataAt := s.dataAt[i := s.keepAt], valid := s.valid[i := true])
  }

  /** A slot takes a sample just validated. */
  function Stored(s: State, i: nat, p: Payload): (t: State)
    requires Shape(s) && i < 2
    ensures Shape(t)
  {
    s.(data := s.data[i := p], dataAt := s.dataAt[i := |s.got[i]|], valid := s.valid[i := true],
       got := s.got[i := s.got[i] + [p]])
  }

  /** The body of the loop over the slots. */
  function Take(s: State, i: nat, r: Read, ids: seq<u32>): (t: State)
    requires Shape(s) && i < 2
    ensures Shape(t)
  {
    if r.Idle? then s
    else if s.skip && s.keepSlot == i then Restored(s, i)
    else if r.count > 0 && Accepted(r.data, ids) then Stored(s, i, r.data)
    else s
  }

  function Kept(s: State, i: nat): (t: State)
    requires Shape(s) && i < 2
    ensures Shape(t)
  {
    s.(skip := true, keepSlot := i, keep := s.data[i], keepAt := s.dataAt[i])
  }

  /** The switch on the seconds between the two samples. */
  function Decided(s: State): (t: State)
    requires Shape(s)
    ensures Shape(t)
  {
    var off := Secs(s.data[0]) - Secs(s.data[1]);
    if off == 1 then Kept(s, 0)
    else if off == -1 then Kept(s, 1)
    else if off == 0 then
      s.(skip := false, keep := Blank, rounds := s.rounds + 1,
         log := s.log + [Line(s.rounds, off, s.data[0].nsecs - s.data[1].nsecs, s.dataAt)])
    else s.(skip := false, keep := Blank)
  }

  function Cleared(s: State): (t: State)
    requires Shape(s)
    ensures Shape(t)
  {
    s.(valid := [false, false], data := [Blank, Blank])
  }

  /** The comparison, once both slots hold a sample. */
  function Compare(s: State): (t: State)
    requires Shape(s)
    ensures Shape(t)
  {
    if s.valid[0] && s.valid[1] then Cleared(Decided(s)) else s
  }

  function Round(s: State, r: seq<Read>, ids: seq<u32>): (t: State)
    requires Shape(s) && |r| == 2
    ensures Shape(t)
  {
    Compare(Take(Take(s, 0, r[0], ids), 1, r[1], ids))
  }

  function Rounds(rs: seq<seq<Read>>, ids: seq<u32>): (t: State)
    requires forall k | 0 <= k < |rs| :: |rs[k]| == 2
    ensures Shape(t)
  {
    if rs == [] then Start else Round(Rounds(rs[..|rs| - 1], ids), rs[|rs| - 1], ids)
  }

  // ---------------------------------------------------------------------------------------------------
  // What every run keeps

  /** `p` is the accepted sample number `at` of slot `i`, and no line of the log has used it or a later one. */
  predicate Unused(s: State, i: nat, p: Payload, at: nat)
    requires Shape(s) && i < 2
  {
    && at < |s.got[i]| && s.got[i][at] == p
    && (forall k | 0 <= k < |s.log| :: |s.log[k].at| == 2 && s.log[k].at[i] < at)
  }

  /** A line is the difference of one accepted sample of each slot, taken in the same second. */
  predicate HonestLine(s: State, l: Line)
    requires Shape(s)
  {
    && |l.at| == 2 && l.at[0] < |s.got[0]| && l.at[1] < |s.got[1]|
    && (var a, b := s.got[0][l.at[0]], s.got[1][l.at[1]];
        Secs(a) == Secs(b) && l.secs == 0 && l.nsecs == a.nsecs - b.nsecs)
  }

  predicate LogInOrder(s: State)
    requires Shape(s)
  {
    && |s.log| == s.rounds
    && (forall k | 0 <= k < |s.log| :: s.log[k].number == k && HonestLine(s, s.log[k]))
    && (forall j, k | 0 <= j < k < |s.log| ::
          s.log[j].at[0] < s.log[k].at[0] && s.log[j].at[1] < s.log[k].at[1])
  }

  predicate AllAccepted(got: seq<Payload>, ids: seq<u32>) {
    forall k | 0 <= k < |got| :: Accepted(got[k], ids)
  }

  predicate Inv(s: State, ids: seq<u32>) {
    && Shape(s) && LogInOrder(s)
    && AllAccepted(s.got[0], ids) && AllAccepted(s.got[1], ids)
    && (forall i | 0 <= i < 2 :: s.valid[i] ==> Unused(s, i, s.data[i], s.dataAt[i]))
    && (if s.skip then Unused(s, s.keepSlot, s.keep, s.keepAt) else s.keep == Blank)
  }

  lemma TakeKeepsInv(s: State, i: nat, r: Read, ids: seq<u32>)
    requires Inv(s, ids) && i < 2
    ensures Inv(Take(s, i, r, ids), ids)
  {
    var t := Take(s, i, r, ids);
    assert t.log == s.log;
    assert forall j | 0 <= j < 2 :: s.got[j] <= t.got[j];
    forall k | 0 <= k < |t.log|
      ensures HonestLine(t, t.log[k])
    {
      assert HonestLine(s, s.log[k]);
    }
  }

  lemma CompareKeepsInv(s: State, ids: seq<u32>)
    requires Inv(s, ids)
    ensures Inv(Compare(s), ids)
  {
    var t := Compare(s);
    forall k | 0 <= k < |t.log|
      ensures t.log[k].number == k && HonestLine(t, t.log[k])
    {
      if k < |s.log| {
        assert HonestLine(s, s.log[k]) && t.log[k] == s.log[k];
      }
    }
  }

  lemma RoundKeepsInv(s: State, r: seq<Read>, ids: seq<u32>)
    requires Inv(s, ids) && |r| == 2
    ensures Inv(Round(s, r, ids), ids)
  {
    TakeKeepsInv(s, 0, r[0], ids);
    TakeKeepsInv(Take(s, 0, r[0], ids), 1, r[1], ids);
    CompareKeepsInv(Take(Take(s, 0, r[0], ids), 1, r[1], ids), ids);
  }

  /** Whatever is read, the log stays honest and in order and a kept sample is an accepted one still unused. */
  lemma {:induction false} RunKeepsInv(rs: seq<seq<Read>>, ids: seq<u32>)
    requires forall k | 0 <= k < |rs| :: |rs[k]| == 2
    ensures Inv(Rounds(rs, ids), ids)
  {
    if rs != [] {
      RunKeepsInv(rs[..|rs| - 1], ids);
      RoundKeepsInv(Rounds(rs[..|rs| - 1], ids), rs[|rs| - 1], ids);
    }
  }

  function SecondsOf(ps: seq<Payload>): (s: seq<int>)
    ensures |s| == |ps| && forall k | 0 <= k < |s| :: s[k] == Secs(ps[k])
  {
    seq(|ps|, k requires 0 <= k < |ps| => Secs(ps[k]))
  }

  /** The second logged in line `k`. */
  function LoggedSecond(s: State, k: nat): int
    requires Shape(s) && LogInOrder(s) && k < |s.log|
  {
    Secs(s.got[0][s.log[k].at[0]])
  }

  /** Line `k` compares a sample the first talker wrote with one the second wrote in the same second. */
  ghost predicate ComparesWritten(s: State, k: nat, written: seq<seq<Payload>>)
    requires Shape(s) && LogInOrder(s) && k < |s.log| && |written| == 2
  {
    exists a, b | a in written[0] && b in written[1] ::
      Secs(a) == Secs(b) == LoggedSecond(s, k) && s.log[k].nsecs == a.nsecs - b.nsecs
  }

  /**
   End to end, for what was accepted having been written in this order: each line compares one sample written by
   each talker, both of the same second, and no second is logged twice.
   */
  lemma LogOfWrittenSamples(s: State, ids: seq<u32>, written: seq<seq<Payload>>, at: seq<seq<int>>)
    requires Inv(s, ids) && |written| == |at| == 2
    requires Picks(s.got[0], written[0], at[0]) && Picks(s.got[1], written[1], at[1])
    requires StrictlyIncreasing(SecondsOf(written[0]))
    ensures forall k | 0 <= k < |s.log| :: ComparesWritten(s, k, written)
    ensures forall j, k | 0 <= j < k < |s.log| :: LoggedSecond(s, j) < LoggedSecond(s, k)
  {
    forall k | 0 <= k < |s.log|
      ensures ComparesWritten(s, k, written)
    {
      assert HonestLine(s, s.log[k]);
      var a, b := s.got[0][s.log[k].at[0]], s.got[1][s.log[k].at[1]];
      assert a in written[0] && b in written[1];
    }
    forall j, k | 0 <= j < k < |s.log|
      ensures LoggedSecond(s, j) < LoggedSecond(s, k)
    {
      assert HonestLine(s, s.log[j]) && HonestLine(s, s.log[k]);
      var m, n := at[0][s.log[j].at[0]], at[0][s.log[k].at[0]];
      assert SecondsOf(written[0])[m] < SecondsOf(written[0])[n];
    }
  }
}
