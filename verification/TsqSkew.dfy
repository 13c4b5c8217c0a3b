/**
 Two talkers whose samples carry seconds a fixed skew apart, and the reads their sockets then offer. A frame of
 256 bytes is read as 255 bytes, which hold the sample, and one byte more in some later round. Which socket is
 readable in which round is arbitrary; every frame is read out before the next one on its socket arrives, and
 both samples of a second before either of the next.
 */
module TsqSkew {
  import opened Words
  import opened TsqFraming
  import opened TsqPairing

  /** What is read from a socket in one round: nothing, the first 255 bytes of a frame, or its last byte. */
  datatype Act = Rest | Head | Tail

  /** One round for both slots. */
  datatype Acts = Acts(slot0: Act, slot1: Act)

  function ActOf(r: Acts, i: nat): Act { if i == 0 then r.slot0 else r.slot1 }

  function ReadOf(act: Act, p: Payload): Read {
    match act
    case Rest => Idle
    case Head => Arrived(255, p)
    case Tail => Arrived(1, Blank)
  }

  function ReadsOf(r: Acts, p0: Payload, p1: Payload): (rs: seq<Read>)
    ensures |rs| == 2
  {
    [ReadOf(r.slot0, p0), ReadOf(r.slot1, p1)]
  }

  /** How many frames were begun. */
  function Heads(rs: seq<Acts>, i: nat): nat {
    if rs == [] then 0 else Heads(rs[..|rs| - 1], i) + (if ActOf(rs[|rs| - 1], i) == Head then 1 else 0)
  }

  /** Whether a last byte is still unread. */
  function Pending(rs: seq<Acts>, i: nat, carry: bool): bool {
    if rs == [] then carry
    else match ActOf(rs[|rs| - 1], i)
      case Rest => Pending(rs[..|rs| - 1], i, carry)
      case Head => true
      case Tail => false
  }

  /** What a socket can offer: a frame after the last one was read out, a last byte if it is unread. */
  predicate Possible(rs: seq<Acts>, i: nat, carry: bool) {
    rs != [] ==>
      && Possible(rs[..|rs| - 1], i, carry)
      && (ActOf(rs[|rs| - 1], i) == Head ==> !Pending(rs[..|rs| - 1], i, carry))
      && (ActOf(rs[|rs| - 1], i) == Tail ==> Pending(rs[..|rs| - 1], i, carry))
  }

  /** Both samples of a second were read. */
  predicate Both(rs: seq<Acts>) { Heads(rs, 0) > 0 && Heads(rs, 1) > 0 }

  /** Slot `h` was read in a later round than the other one. */
  function Later(rs: seq<Acts>, h: nat): bool
    requires h < 2
  {
    if rs == [] then false
    else if ActOf(rs[|rs| - 1], h) == Head then Heads(rs[..|rs| - 1], 1 - h) > 0
    else Later(rs[..|rs| - 1], h)
  }

  lemma {:induction false} LaterNeedsOther(rs: seq<Acts>, h: nat)
    requires h < 2 && Later(rs, h)
    ensures Heads(rs, 1 - h) > 0 && Heads(rs, h) > 0
  {
    if ActOf(rs[|rs| - 1], h) != Head {
      LaterNeedsOther(rs[..|rs| - 1], h);
    }
  }

  /** Slot `h` still had its last byte to read once both samples were there. */
  function TailLeft(rs: seq<Acts>, h: nat, carry: bool): bool {
    if rs != [] && Both(rs[..|rs| - 1]) then TailLeft(rs[..|rs| - 1], h, carry) else Pending(rs, h, carry)
  }

  /** The rounds of one second. */
  predicate IsSecond(rs: seq<Acts>) { Heads(rs, 0) == 1 && Heads(rs, 1) == 1 }

  lemma {:induction false} HeadsGrow(rs: seq<Acts>, t: nat, i: nat)
    requires t <= |rs|
    ensures Heads(rs[..t], i) <= Heads(rs, i)
    decreases |rs|
  {
    if t < |rs| {
      assert rs[..|rs| - 1][..t] == rs[..t];
      HeadsGrow(rs[..|rs| - 1], t, i);
    } else {
      assert rs[..t] == rs;
    }
  }

  lemma {:induction false} PossiblePrefix(rs: seq<Acts>, t: nat, i: nat, carry: bool)
    requires t <= |rs| && Possible(rs, i, carry)
    ensures Possible(rs[..t], i, carry)
    decreases |rs|
  {
    if t < |rs| {
      assert rs[..|rs| - 1][..t] == rs[..t];
      PossiblePrefix(rs[..|rs| - 1], t, i, carry);
    } else {
      assert rs[..t] == rs;
    }
  }

  // ---------------------------------------------------------------------------------------------------
  // One round

  /** A sample with this slot's number. */
  predicate Sampled(p: Payload, ids: seq<u32>, sec: int) { Accepted(p, ids) && Secs(p) == sec }

  /** What slot `i` holds when the two are compared. */
  function Filled(s: State, i: nat, act: Act, p: Payload): (bool, Payload)
    requires Shape(s) && i < 2
  {
    if s.skip && s.keepSlot == i && act != Rest then (true, s.keep)
    else if act == Head then (true, p)
    else (s.valid[i], s.data[i])
  }

  lemma TakeOne(s: State, i: nat, act: Act, p: Payload, ids: seq<u32>)
    requires Shape(s) && i < 2 && Accepted(p, ids)
    ensures var t := Take(s, i, ReadOf(act, p), ids);
            && (t.valid[i], t.data[i]) == Filled(s, i, act, p)
            && t.valid[1 - i] == s.valid[1 - i] && t.data[1 - i] == s.data[1 - i]
            && t.skip == s.skip && t.keepSlot == s.keepSlot && t.keep == s.keep
            && t.log == s.log && t.rounds == s.rounds
  {
  }

  /** Both slots, then the comparison. */
  lemma TakeBoth(s: State, r: Acts, p0: Payload, p1: Payload, ids: seq<u32>)
    requires Shape(s) && Accepted(p0, ids) && Accepted(p1, ids)
    ensures var t := Take(Take(s, 0, ReadOf(r.slot0, p0), ids), 1, ReadOf(r.slot1, p1), ids);
            && (t.valid[0], t.data[0]) == Filled(s, 0, r.slot0, p0)
            && (t.valid[1], t.data[1]) == Filled(s, 1, r.slot1, p1)
            && t.skip == s.skip && t.keepSlot == s.keepSlot && t.keep == s.keep
            && t.log == s.log && t.rounds == s.rounds
            && Round(s, ReadsOf(r, p0, p1), ids) == Compare(t)
  {
    TakeOne(s, 0, r.slot0, p0, ids);
    TakeOne(Take(s, 0, ReadOf(r.slot0, p0), ids), 1, r.slot1, p1, ids);
  }

  // ---------------------------------------------------------------------------------------------------
  // A skew of one second: slot `h` is ahead

  /**
   The listener between two seconds: it holds nothing; or it keeps the sample of the slot ahead, with hope if a
   last byte read since, or still to be read, can bring it back without costing a sample; or it holds the sample of
   the slot ahead as a normal one.
   */
  datatype Mode = Empty | Kept(hope: bool) | Ahead

  function NextMode(m: Mode, later: bool, tailLeft: bool): Mode {
    match m
    case Empty => Kept(tailLeft)
    case Kept(hope) => if later && hope then Ahead else Empty
    case Ahead => if later then Ahead else Kept(tailLeft)
  }

  function NextLines(m: Mode, later: bool): nat {
    match m
    case Empty => 0
    case Kept(_) => 1
    case Ahead => if later then 1 else 0
  }

  /** Nothing is held or kept. */
  predicate HoldsNothing(s: State) { Shape(s) && !s.valid[0] && !s.valid[1] && !s.skip }

  /** Slot `i` alone holds `p`. */
  predicate HoldsOne(s: State, i: nat, p: Payload) {
    Shape(s) && i < 2 && s.valid[i] && !s.valid[1 - i] && !s.skip && s.data[i] == p
  }

  /** `p` is kept for slot `h`, whether it was brought back yet or not; the other slot holds nothing. */
  predicate Keeps(s: State, h: nat, p: Payload) {
    && Shape(s) && h < 2 && s.skip && s.keepSlot == h && s.keep == p && !s.valid[1 - h]
    && (s.valid[h] ==> s.data[h] == p)
  }

  /** `p` is kept for slot `h`, which was not read since, and the other slot holds `q`. */
  predicate Waits(s: State, h: nat, p: Payload, q: Payload) {
    && Shape(s) && h < 2 && s.skip && s.keepSlot == h && s.keep == p && !s.valid[h]
    && s.valid[1 - h] && s.data[1 - h] == q
  }

  /** `p` is kept, and the slot can still get it back without losing a sample, or already has, exactly if `hope`. */
  predicate KeepsWith(s: State, h: nat, p: Payload, hope: bool, pending: bool) {
    Keeps(s, h, p) && (hope <==> s.valid[h] || pending)
  }

  /** The listener after whole seconds, the last sample of the slot ahead being `p`. */
  predicate InMode(s: State, m: Mode, h: nat, p: Payload, pending: bool) {
    match m
    case Empty => HoldsNothing(s)
    case Kept(hope) => KeepsWith(s, h, p, hope, pending)
    case Ahead => HoldsOne(s, h, p)
  }

  /** The comparison for samples at most one second apart, `x` in slot `h` the later if any. */
  lemma CompareClose(t: State, h: nat, x: Payload, y: Payload)
    requires Shape(t) && h < 2 && t.valid[h] && t.valid[1 - h] && t.data[h] == x && t.data[1 - h] == y
    requires Secs(x) == Secs(y) || Secs(x) == Secs(y) + 1
    ensures var u := Compare(t);
            if Secs(x) == Secs(y) then HoldsNothing(u) && |u.log| == |t.log| + 1
            else KeepsWith(u, h, x, false, false) && u.log == t.log
  {
  }

  /** How far a second is: which samples were read, and the flags of the rounds so far. */
  datatype Progress = Progress(mine: bool, other: bool, pending: bool, later: bool, tailLeft: bool)

  function ProgressOf(rs: seq<Acts>, h: nat, carry: bool): Progress
    requires h < 2
  {
    Progress(Heads(rs, h) > 0, Heads(rs, 1 - h) > 0, Pending(rs, h, carry), Later(rs, h), TailLeft(rs, h, carry))
  }

  /** Within a second that began in mode `m0` with `lines` lines. */
  predicate Within(s: State, m0: Mode, lines: nat, h: nat, prev: Payload, mine: Payload, other: Payload, g: Progress)
    requires h < 2
  {
    match (g.mine, g.other)
    case (false, false) => InMode(s, m0, h, prev, g.pending) && |s.log| == lines
    case (true, true) =>
      InMode(s, NextMode(m0, g.later, g.tailLeft), h, mine, g.pending) && |s.log| == lines + NextLines(m0, g.later)
    case (true, false) =>
      && |s.log| == lines
      && (match m0
          case Kept(hope) => KeepsWith(s, h, prev, true, false)
          case _ => HoldsOne(s, h, mine))
    case (false, true) =>
      match m0
      case Empty => HoldsOne(s, 1 - h, other) && |s.log| == lines
      case Ahead => HoldsNothing(s) && |s.log| == lines + 1
      case Kept(hope) =>
        || (HoldsNothing(s) && hope && |s.log| == lines + 1)
        || (Waits(s, h, prev, other) && hope == g.pending && |s.log| == lines)
  }

  /** What one more round makes of the progress: `x` for the slot ahead, `y` for the other. */
  function Onward(g: Progress, x: Act, y: Act): Progress {
    var pending := x == Head || (x == Rest && g.pending);
    Progress(g.mine || x == Head, g.other || y == Head, pending,
             if x == Head then g.other else g.later,
             if g.mine && g.other then g.tailLeft else pending)
  }

  /** The acts a second allows next. */
  predicate Allowed(g: Progress, x: Act, y: Act) {
    && (x == Head ==> !g.mine && !g.pending) && (x == Tail ==> g.pending)
    && (y == Head ==> !g.other) && (g.later ==> g.mine && g.other)
  }

  lemma ProgressGoesOn(rs: seq<Acts>, r: Acts, h: nat, carry: bool)
    requires h < 2 && Possible(rs + [r], h, carry) && Heads(rs + [r], 0) <= 1 && Heads(rs + [r], 1) <= 1
    ensures ProgressOf(rs + [r], h, carry) == Onward(ProgressOf(rs, h, carry), ActOf(r, h), ActOf(r, 1 - h))
    ensures Allowed(ProgressOf(rs, h, carry), ActOf(r, h), ActOf(r, 1 - h))
  {
    assert (rs + [r])[..|rs|] == rs;
    if Later(rs, h) {
      LaterNeedsOther(rs, h);
    }
  }

  /** The listener after a round, `x` read from slot `h` and `y` from the other. */
  predicate Settles(s: State, u: State, h: nat, x: Act, mine: Payload, y: Act, other: Payload)
    requires Shape(s) && h < 2
  {
    var (vx, p), (vy, q) := Filled(s, h, x, mine), Filled(s, 1 - h, y, other);
    if vx && vy then
      && (Secs(p) == Secs(q) ==> HoldsNothing(u) && |u.log| == |s.log| + 1)
      && (Secs(p) == Secs(q) + 1 ==> KeepsWith(u, h, p, false, false) && u.log == s.log)
    else
      && Shape(u) && (u.valid[h], u.data[h]) == (vx, p) && (u.valid[1 - h], u.data[1 - h]) == (vy, q)
      && u.skip == s.skip && u.keepSlot == s.keepSlot && u.keep == s.keep && u.log == s.log
  }

  lemma RoundSettles(s: State, r: Acts, h: nat, mine: Payload, other: Payload, ids: seq<u32>)
    requires Shape(s) && h < 2 && Accepted(mine, ids) && Accepted(other, ids)
    ensures var p0, p1 := if h == 0 then mine else other, if h == 0 then other else mine;
            Settles(s, Round(s, ReadsOf(r, p0, p1), ids), h, ActOf(r, h), mine, ActOf(r, 1 - h), other)
  {
    var p0, p1 := if h == 0 then mine else other, if h == 0 then other else mine;
    var t := Take(Take(s, 0, ReadOf(r.slot0, p0), ids), 1, ReadOf(r.slot1, p1), ids);
    TakeBoth(s, r, p0, p1, ids);
    var x, y := Secs(t.data[h]), Secs(t.data[1 - h]);
    if t.valid[0] && t.valid[1] && (x == y || x == y + 1) {
      CompareClose(t, h, t.data[h], t.data[1 - h]);
    }
  }

  lemma EmptyGoesOn(s: State, u: State, lines: nat, h: nat, prev: Payload, mine: Payload, other: Payload,
                    g: Progress, x: Act, y: Act)
    requires h < 2 && Shape(s) && Secs(mine) == Secs(other) + 1 && Allowed(g, x, y)
    requires Within(s, Empty, lines, h, prev, mine, other, g) && Settles(s, u, h, x, mine, y, other)
    ensures Within(u, Empty, lines, h, prev, mine, other, Onward(g, x, y))
  {
  }

  lemma AheadGoesOn(s: State, u: State, lines: nat, h: nat, prev: Payload, mine: Payload, other: Payload,
                    g: Progress, x: Act, y: Act)
    requires h < 2 && Shape(s) && Secs(mine) == Secs(other) + 1 && Secs(prev) == Secs(other) && Allowed(g, x, y)
    requires Within(s, Ahead, lines, h, prev, mine, other, g) && Settles(s, u, h, x, mine, y, other)
    ensures Within(u, Ahead, lines, h, prev, mine, other, Onward(g, x, y))
  {
  }

  lemma KeptGoesOn(s: State, u: State, hope: bool, lines: nat, h: nat, prev: Payload, mine: Payload, other: Payload,
                   g: Progress, x: Act, y: Act)
    requires h < 2 && Shape(s) && Secs(mine) == Secs(other) + 1 && Secs(prev) == Secs(other) && Allowed(g, x, y)
    requires Within(s, Kept(hope), lines, h, prev, mine, other, g) && Settles(s, u, h, x, mine, y, other)
    ensures Within(u, Kept(hope), lines, h, prev, mine, other, Onward(g, x, y))
  {
  }

  /** One round of a second, whatever it reads. */
  lemma WithinRound(s: State, m0: Mode, lines: nat, h: nat, prev: Payload, mine: Payload, other: Payload,
                    rs: seq<Acts>, r: Acts, carry: bool, ids: seq<u32>)
    requires h < 2 && Accepted(mine, ids) && Accepted(other, ids)
    requires Secs(mine) == Secs(other) + 1 && (m0 != Empty ==> Secs(prev) == Secs(other))
    requires Possible(rs + [r], h, carry) && Heads(rs + [r], 0) <= 1 && Heads(rs + [r], 1) <= 1
    requires Within(s, m0, lines, h, prev, mine, other, ProgressOf(rs, h, carry)) && Shape(s)
    ensures var p0, p1 := if h == 0 then mine else other, if h == 0 then other else mine;
            Within(Round(s, ReadsOf(r, p0, p1), ids), m0, lines, h, prev, mine, other, ProgressOf(rs + [r], h, carry))
  {
    var p0, p1 := if h == 0 then mine else other, if h == 0 then other else mine;
    var u, g, x, y := Round(s, ReadsOf(r, p0, p1), ids), ProgressOf(rs, h, carry), ActOf(r, h), ActOf(r, 1 - h);
    ProgressGoesOn(rs, r, h, carry);
    RoundSettles(s, r, h, mine, other, ids);
    match m0
    case Empty => EmptyGoesOn(s, u, lines, h, prev, mine, other, g, x, y);
    case Ahead => AheadGoesOn(s, u, lines, h, prev, mine, other, g, x, y);
    case Kept(hope) => KeptGoesOn(s, u, hope, lines, h, prev, mine, other, g, x, y);
  }

  // ---------------------------------------------------------------------------------------------------
  // Whole seconds

  function SecondReads(rs: seq<Acts>, p0: Payload, p1: Payload): (all: seq<seq<Read>>)
    ensures |all| == |rs| && forall t | 0 <= t < |rs| :: all[t] == ReadsOf(rs[t], p0, p1)
  {
    seq(|rs|, t requires 0 <= t < |rs| => ReadsOf(rs[t], p0, p1))
  }

  /** Everything the listener reads, second `k` bringing sample `k` of either slot. */
  function AllReads(seconds: seq<seq<Acts>>, s0: seq<Payload>, s1: seq<Payload>): (all: seq<seq<Read>>)
    requires |seconds| <= |s0| && |seconds| <= |s1|
    ensures forall t | 0 <= t < |all| :: |all[t]| == 2
  {
    if seconds == [] then []
    else
      var k := |seconds| - 1;
      AllReads(seconds[..k], s0, s1) + SecondReads(seconds[k], s0[k], s1[k])
  }

  /** The greeting's last byte is the first thing to read. */
  function PendingAfter(seconds: seq<seq<Acts>>, i: nat): bool {
    if seconds == [] then true
    else Pending(seconds[|seconds| - 1], i, PendingAfter(seconds[..|seconds| - 1], i))
  }

  /** A schedule the two sockets can offer, second by second. */
  predicate Schedule(seconds: seq<seq<Acts>>) {
    seconds != [] ==>
      var k := |seconds| - 1;
      && Schedule(seconds[..k]) && IsSecond(seconds[k])
      && Possible(seconds[k], 0, PendingAfter(seconds[..k], 0))
      && Possible(seconds[k], 1, PendingAfter(seconds[..k], 1))
  }

  function ModeAfter(seconds: seq<seq<Acts>>, h: nat): Mode
    requires h < 2
  {
    if seconds == [] then Empty
    else
      var k := |seconds| - 1;
      NextMode(ModeAfter(seconds[..k], h), Later(seconds[k], h),
               TailLeft(seconds[k], h, PendingAfter(seconds[..k], h)))
  }

  function LinesAfter(seconds: seq<seq<Acts>>, h: nat): nat
    requires h < 2
  {
    if seconds == [] then 0
    else
      var k := |seconds| - 1;
      LinesAfter(seconds[..k], h) + NextLines(ModeAfter(seconds[..k], h), Later(seconds[k], h))
  }

  /** Samples a talker with one of the uids can write. */
  predicate Written(s: seq<Payload>, ids: seq<u32>) {
    forall k | 0 <= k < |s| :: Sendable(s[k]) && s[k].uid in ids
  }

  /** Gapless one-second streams two talkers wrote, those of slot 0 `skew` seconds ahead. */
  predicate Skewed(s0: seq<Payload>, s1: seq<Payload>, base: int, skew: int, ids: seq<u32>) {
    && |s0| == |s1| && Written(s0, ids) && Written(s1, ids)
    && (forall k | 0 <= k < |s0| :: Secs(s0[k]) == base + skew + k && Secs(s1[k]) == base + k)
  }

  /** The slot that is ahead by one second. */
  function AheadSlot(skew: int): nat { if skew == 1 then 0 else 1 }

  /** The last sample of slot `h` after `n` seconds. */
  function LastOf(s0: seq<Payload>, s1: seq<Payload>, h: nat, n: nat): Payload
    requires n <= |s0| && n <= |s1|
  {
    if n == 0 then Blank else if h == 0 then s0[n - 1] else s1[n - 1]
  }

  lemma RoundsGoOn(rs: seq<seq<Read>>, r: seq<Read>, ids: seq<u32>)
    requires |r| == 2 && forall t | 0 <= t < |rs| :: |rs[t]| == 2
    ensures Rounds(rs + [r], ids) == Round(Rounds(rs, ids), r, ids)
  {
    assert (rs + [r])[..|rs|] == rs;
  }

  lemma SecondReadsGoOn(rs: seq<Acts>, t: nat, p0: Payload, p1: Payload)
    requires 0 < t <= |rs|
    ensures rs[..t] == rs[..t - 1] + [rs[t - 1]]
    ensures SecondReads(rs[..t], p0, p1) == SecondReads(rs[..t - 1], p0, p1) + [ReadsOf(rs[t - 1], p0, p1)]
  {
  }

  lemma HeadsAtMostOne(rs: seq<Acts>, t: nat)
    requires IsSecond(rs) && t <= |rs|
    ensures Heads(rs[..t], 0) <= 1 && Heads(rs[..t], 1) <= 1
  {
    HeadsGrow(rs, t, 0);
    HeadsGrow(rs, t, 1);
  }

  /** The `t`-th round of a second. */
  lemma SecondGoesOn(before: seq<seq<Read>>, rs: seq<Acts>, t: nat, p0: Payload, p1: Payload, ids: seq<u32>)
    requires forall i | 0 <= i < |before| :: |before[i]| == 2
    requires 0 < t <= |rs|
    ensures Rounds(before + SecondReads(rs[..t], p0, p1), ids) ==
            Round(Rounds(before + SecondReads(rs[..t - 1], p0, p1), ids), ReadsOf(rs[t - 1], p0, p1), ids)
  {
    var x, r := SecondReads(rs[..t - 1], p0, p1), ReadsOf(rs[t - 1], p0, p1);
    SecondReadsGoOn(rs, t, p0, p1);
    assert before + (x + [r]) == (before + x) + [r];
    RoundsGoOn(before + x, r, ids);
  }

  /** The rounds of one second, one by one. */
  lemma {:induction false} WithinSecond(
    before: seq<seq<Read>>, m0: Mode, lines: nat, h: nat, prev: Payload, mine: Payload, other: Payload,
    rs: seq<Acts>, t: nat, carry: bool, ids: seq<u32>)
    requires forall i | 0 <= i < |before| :: |before[i]| == 2
    requires h < 2 && Accepted(mine, ids) && Accepted(other, ids) && t <= |rs|
    requires Secs(mine) == Secs(other) + 1 && (m0 != Empty ==> Secs(prev) == Secs(other))
    requires Possible(rs, h, carry) && IsSecond(rs)
    requires InMode(Rounds(before, ids), m0, h, prev, carry) && |Rounds(before, ids).log| == lines
    ensures var p0, p1 := if h == 0 then mine else other, if h == 0 then other else mine;
            Within(Rounds(before + SecondReads(rs[..t], p0, p1), ids), m0, lines, h, prev, mine, other,
                   ProgressOf(rs[..t], h, carry))
  {
    var p0, p1 := if h == 0 then mine else other, if h == 0 then other else mine;
    if t == 0 {
      assert before + SecondReads(rs[..0], p0, p1) == before;
    } else {
      WithinSecond(before, m0, lines, h, prev, mine, other, rs, t - 1, carry, ids);
      SecondGoesOn(before, rs, t, p0, p1, ids);
      SecondReadsGoOn(rs, t, p0, p1);
      HeadsAtMostOne(rs, t);
      PossiblePrefix(rs, t, h, carry);
      WithinRound(Rounds(before + SecondReads(rs[..t - 1], p0, p1), ids), m0, lines, h, prev, mine, other,
                  rs[..t - 1], rs[t - 1], carry, ids);
    }
  }

  /** What `ListenerFollows` says. */
  predicate Followed(
    s: State, seconds: seq<seq<Acts>>, s0: seq<Payload>, s1: seq<Payload>, h: nat)
    requires h < 2 && |seconds| <= |s0| && |seconds| <= |s1|
  {
    && InMode(s, ModeAfter(seconds, h), h, LastOf(s0, s1, h, |seconds|), PendingAfter(seconds, h))
    && |s.log| == LinesAfter(seconds, h)
  }

  /** The samples of second `k` are accepted, one second apart, and the last one was as late as the slower slot's. */
  lemma SamplesOfSecond(
    seconds: seq<seq<Acts>>, s0: seq<Payload>, s1: seq<Payload>, base: int, skew: int, ids: seq<u32>, k: nat)
    requires skew == 1 || skew == -1
    requires Skewed(s0, s1, base, skew, ids) && k < |seconds| <= |s0|
    ensures var h := AheadSlot(skew);
            var mine, other := if h == 0 then s0[k] else s1[k], if h == 0 then s1[k] else s0[k];
            && Accepted(mine, ids) && Accepted(other, ids) && Secs(mine) == Secs(other) + 1
            && (ModeAfter(seconds[..k], h) != Empty ==> Secs(LastOf(s0, s1, h, k)) == Secs(other))
  {
    SendableIsAccepted(s0[k], ids);
    SendableIsAccepted(s1[k], ids);
  }

  /** With a skew of one second the listener goes from mode to mode, for every schedule of the reads. */
  lemma {:induction false} ListenerFollows(
    seconds: seq<seq<Acts>>, s0: seq<Payload>, s1: seq<Payload>, base: int, skew: int, ids: seq<u32>)
    requires skew == 1 || skew == -1
    requires Skewed(s0, s1, base, skew, ids) && |seconds| <= |s0| && Schedule(seconds)
    ensures Followed(Rounds(AllReads(seconds, s0, s1), ids), seconds, s0, s1, AheadSlot(skew))
  {
    if seconds != [] {
      var k, h := |seconds| - 1, AheadSlot(skew);
      ListenerFollows(seconds[..k], s0, s1, base, skew, ids);
      SamplesOfSecond(seconds, s0, s1, base, skew, ids, k);
      SecondFollows(seconds, s0, s1, h, ids);
    }
  }

  lemma SecondFollows(seconds: seq<seq<Acts>>, s0: seq<Payload>, s1: seq<Payload>, h: nat, ids: seq<u32>)
    requires h < 2 && seconds != [] && |seconds| <= |s0| && |seconds| <= |s1| && Schedule(seconds)
    requires var k := |seconds| - 1;
             var mine, other := if h == 0 then s0[k] else s1[k], if h == 0 then s1[k] else s0[k];
             && Accepted(mine, ids) && Accepted(other, ids) && Secs(mine) == Secs(other) + 1
             && (ModeAfter(seconds[..k], h) != Empty ==> Secs(LastOf(s0, s1, h, k)) == Secs(other))
             && Followed(Rounds(AllReads(seconds[..k], s0, s1), ids), seconds[..k], s0, s1, h)
    ensures Followed(Rounds(AllReads(seconds, s0, s1), ids), seconds, s0, s1, h)
  {
    var k := |seconds| - 1;
    var before, rs := AllReads(seconds[..k], s0, s1), seconds[k];
    var mine, other := if h == 0 then s0[k] else s1[k], if h == 0 then s1[k] else s0[k];
    WithinSecond(before, ModeAfter(seconds[..k], h), LinesAfter(seconds[..k], h), h, LastOf(s0, s1, h, k),
                 mine, other, rs, |rs|, PendingAfter(seconds[..k], h), ids);
    assert rs[..|rs|] == rs;
  }

  // ---------------------------------------------------------------------------------------------------
  // When the skew goes away

  /**
   The sample kept in second `2 * m` gets back to its slot by its own last byte, before the slot's next frame:
   that byte was still unread when the sample was kept, and the next frame is read in a later round than the
   other slot's.
   */
  predicate HealsAfter(seconds: seq<seq<Acts>>, h: nat, m: nat)
    requires h < 2 && 2 * m + 1 < |seconds|
  {
    Later(seconds[2 * m + 1], h) && TailLeft(seconds[2 * m], h, PendingAfter(seconds[..2 * m], h))
  }

  /** No sample kept in seconds 0, 2, 4, ... comes back without costing one. */
  ghost predicate NeverHeals(seconds: seq<seq<Acts>>, h: nat)
    requires h < 2
  {
    forall m: nat | 2 * m + 1 < |seconds| :: !HealsAfter(seconds, h, m)
  }

  /** The listener never compares samples that arrive in different seconds as a matter of course. */
  ghost predicate NeverAhead(seconds: seq<seq<Acts>>, h: nat)
    requires h < 2
  {
    forall n | 0 <= n <= |seconds| :: ModeAfter(seconds[..n], h) != Ahead
  }

  lemma HealsInPrefix(seconds: seq<seq<Acts>>, h: nat, m: nat, n: nat)
    requires h < 2 && 2 * m + 1 < n <= |seconds|
    ensures HealsAfter(seconds[..n], h, m) == HealsAfter(seconds, h, m)
  {
    assert seconds[..n][..2 * m] == seconds[..2 * m];
  }

  lemma {:induction false} WhileNotHealed(seconds: seq<seq<Acts>>, h: nat)
    requires h < 2 && NeverHeals(seconds, h)
    ensures var n := |seconds|;
            && LinesAfter(seconds, h) == n / 2
            && (n % 2 == 0 ==> ModeAfter(seconds, h) == Empty)
            && (n % 2 == 1 ==>
                  ModeAfter(seconds, h) ==
                  Kept(TailLeft(seconds[n - 1], h, PendingAfter(seconds[..n - 1], h))))
  {
    var n := |seconds|;
    if n > 0 {
      var before := seconds[..n - 1];
      forall m: nat | 2 * m + 1 < |before|
        ensures !HealsAfter(before, h, m)
      {
        HealsInPrefix(seconds, h, m, n - 1);
      }
      WhileNotHealed(before, h);
      if n % 2 == 0 {
        assert !HealsAfter(seconds, h, n / 2 - 1);
        assert before[..n - 2] == seconds[..n - 2];
      }
    }
  }

  /** The first time it heals. */
  lemma FirstHealing(seconds: seq<seq<Acts>>, h: nat, m: nat)
    requires h < 2 && 2 * m + 1 < |seconds| && HealsAfter(seconds, h, m)
    requires forall i: nat | i < m :: !HealsAfter(seconds, h, i)
    ensures ModeAfter(seconds[..2 * m + 2], h) == Ahead
  {
    var kept := seconds[..2 * m + 1];
    forall i: nat | 2 * i + 1 < |kept|
      ensures !HealsAfter(kept, h, i)
    {
      HealsInPrefix(seconds, h, i, 2 * m + 1);
    }
    WhileNotHealed(kept, h);
    assert kept[..2 * m] == seconds[..2 * m];
    assert seconds[..2 * m + 2][..2 * m + 1] == kept;
  }

  ghost function FirstIndex(seconds: seq<seq<Acts>>, h: nat, m: nat): (i: nat)
    requires h < 2 && 2 * m + 1 < |seconds| && HealsAfter(seconds, h, m)
    ensures i <= m && HealsAfter(seconds, h, i)
    ensures forall j: nat | j < i :: !HealsAfter(seconds, h, j)
  {
    if j: nat :| j < m && HealsAfter(seconds, h, j) then FirstIndex(seconds, h, j) else m
  }

  /**
   The skew persists, with one line logged every two seconds, if and only if no kept sample comes back by its own
   last byte before the slot's next frame.
   */
  lemma SkewPersistsIff(seconds: seq<seq<Acts>>, h: nat)
    requires h < 2
    ensures NeverAhead(seconds, h) <==> NeverHeals(seconds, h)
    ensures NeverHeals(seconds, h) ==> LinesAfter(seconds, h) == |seconds| / 2
  {
    if NeverHeals(seconds, h) {
      WhileNotHealed(seconds, h);
      forall n | 0 <= n <= |seconds|
        ensures ModeAfter(seconds[..n], h) != Ahead
      {
        forall m: nat | 2 * m + 1 < n
          ensures !HealsAfter(seconds[..n], h, m)
        {
          HealsInPrefix(seconds, h, m, n);
        }
        WhileNotHealed(seconds[..n], h);
      }
    } else {
      var m: nat :| 2 * m + 1 < |seconds| && HealsAfter(seconds, h, m);
      FirstHealing(seconds, h, FirstIndex(seconds, h, m));
    }
  }

  /** A slot read after the other one still has its last byte to read. */
  lemma {:induction false} LaterLeavesTail(rs: seq<Acts>, h: nat, carry: bool)
    requires h < 2 && Later(rs, h) && Heads(rs, h) <= 1
    ensures TailLeft(rs, h, carry)
  {
    var before := rs[..|rs| - 1];
    if ActOf(rs[|rs| - 1], h) != Head {
      LaterNeedsOther(before, h);
      LaterLeavesTail(before, h, carry);
    }
  }

  lemma {:induction false} SchedulePrefix(seconds: seq<seq<Acts>>, n: nat)
    requires n <= |seconds| && Schedule(seconds)
    ensures Schedule(seconds[..n])
    ensures n < |seconds| ==> IsSecond(seconds[n])
    decreases |seconds|
  {
    if n < |seconds| - 1 {
      SchedulePrefix(seconds[..|seconds| - 1], n);
      assert seconds[..|seconds| - 1][..n] == seconds[..n];
    } else if n == |seconds| {
      assert seconds[..n] == seconds;
    }
  }

  /** If the slot ahead is always read after the other one, the skew is gone after the first second. */
  lemma {:induction false} OtherFirstHeals(seconds: seq<seq<Acts>>, h: nat)
    requires h < 2 && Schedule(seconds) && forall k | 0 <= k < |seconds| :: Later(seconds[k], h)
    ensures LinesAfter(seconds, h) == if seconds == [] then 0 else |seconds| - 1
    ensures ModeAfter(seconds, h) == if seconds == [] then Empty else if |seconds| == 1 then Kept(true) else Ahead
  {
    if seconds != [] {
      var k := |seconds| - 1;
      SchedulePrefix(seconds, k);
      OtherFirstHeals(seconds[..k], h);
      LaterLeavesTail(seconds[k], h, PendingAfter(seconds[..k], h));
    }
  }

  /** If it is never read after the other one, the skew stays: half the lines are lost. */
  lemma NeverLaterPersists(seconds: seq<seq<Acts>>, h: nat)
    requires h < 2 && forall k | 0 <= k < |seconds| :: !Later(seconds[k], h)
    ensures NeverAhead(seconds, h) && LinesAfter(seconds, h) == |seconds| / 2
  {
    SkewPersistsIff(seconds, h);
  }

  // ---------------------------------------------------------------------------------------------------
  // Both happen

  const TOGETHER: seq<Acts> := [Acts(Tail, Tail), Acts(Head, Head)]

  /** Slot 1 is read before slot 0. */
  const ONE_FIRST: seq<Acts> := [Acts(Tail, Tail), Acts(Rest, Head), Acts(Head, Rest)]

  function Repeated(second: seq<Acts>, n: nat): (seconds: seq<seq<Acts>>)
    ensures |seconds| == n && forall k | 0 <= k < n :: seconds[k] == second
  {
    seq(n, _ => second)
  }

  lemma TogetherByHand(i: nat)
    requires i < 2
    ensures Heads(TOGETHER, i) == 1 && !Later(TOGETHER, i)
    ensures Possible(TOGETHER, i, true) && Pending(TOGETHER, i, true)
  {
    var tails, both := Acts(Tail, Tail), Acts(Head, Head);
    assert TOGETHER == [] + [tails] + [both];
    OneRoundMore([], tails, i);
    OneRoundMore([], tails, 1 - i);
    OneRoundMore([] + [tails], both, i);
  }

  lemma OneFirstByHand(i: nat)
    requires i < 2
    ensures Heads(ONE_FIRST, i) == 1 && (Later(ONE_FIRST, i) <==> i == 0)
    ensures Possible(ONE_FIRST, i, true) && Pending(ONE_FIRST, i, true)
  {
    var tails, one, zero := Acts(Tail, Tail), Acts(Rest, Head), Acts(Head, Rest);
    assert ONE_FIRST == [] + [tails] + [one] + [zero];
    OneRoundMore([], tails, i);
    OneRoundMore([], tails, 1 - i);
    OneRoundMore([] + [tails], one, i);
    OneRoundMore([] + [tails], one, 1 - i);
    OneRoundMore([] + [tails] + [one], zero, i);
  }

  lemma OneRoundMore(rs: seq<Acts>, r: Acts, i: nat)
    requires i < 2
    ensures Heads(rs + [r], i) == Heads(rs, i) + (if ActOf(r, i) == Head then 1 else 0)
    ensures Pending(rs + [r], i, true) == (ActOf(r, i) == Head || (ActOf(r, i) == Rest && Pending(rs, i, true)))
    ensures Later(rs + [r], i) == (if ActOf(r, i) == Head then Heads(rs, 1 - i) > 0 else Later(rs, i))
    ensures Possible(rs + [r], i, true) ==
            (Possible(rs, i, true) && (ActOf(r, i) == Head ==> !Pending(rs, i, true))
             && (ActOf(r, i) == Tail ==> Pending(rs, i, true)))
  {
    assert (rs + [r])[..|rs|] == rs;
  }

  lemma {:induction false} RepeatedIsSchedule(second: seq<Acts>, n: nat)
    requires IsSecond(second)
    requires forall i | 0 <= i < 2 :: Possible(second, i, true) && Pending(second, i, true)
    ensures Schedule(Repeated(second, n))
    ensures PendingAfter(Repeated(second, n), 0) && PendingAfter(Repeated(second, n), 1)
  {
    if n > 0 {
      RepeatedIsSchedule(second, n - 1);
      assert Repeated(second, n)[..n - 1] == Repeated(second, n - 1);
    }
  }

  /** Read in the same round every second, `n` seconds with slot 0 ahead log half as many lines. */
  lemma ReadTogether(s0: seq<Payload>, s1: seq<Payload>, base: int, ids: seq<u32>)
    requires Skewed(s0, s1, base, 1, ids)
    ensures Schedule(Repeated(TOGETHER, |s0|))
    ensures |Rounds(AllReads(Repeated(TOGETHER, |s0|), s0, s1), ids).log| == |s0| / 2
  {
    TogetherByHand(0);
    TogetherByHand(1);
    RepeatedIsSchedule(TOGETHER, |s0|);
    ListenerFollows(Repeated(TOGETHER, |s0|), s0, s1, base, 1, ids);
    NeverLaterPersists(Repeated(TOGETHER, |s0|), 0);
  }

  /** Slot 1 read first every second, they log a line for every second but the first. */
  lemma ReadOneFirst(s0: seq<Payload>, s1: seq<Payload>, base: int, ids: seq<u32>)
    requires Skewed(s0, s1, base, 1, ids) && s0 != []
    ensures Schedule(Repeated(ONE_FIRST, |s0|))
    ensures |Rounds(AllReads(Repeated(ONE_FIRST, |s0|), s0, s1), ids).log| == |s0| - 1
  {
    OneFirstByHand(0);
    OneFirstByHand(1);
    RepeatedIsSchedule(ONE_FIRST, |s0|);
    ListenerFollows(Repeated(ONE_FIRST, |s0|), s0, s1, base, 1, ids);
    OtherFirstHeals(Repeated(ONE_FIRST, |s0|), 0);
  }

  // ---------------------------------------------------------------------------------------------------
  // Other skews

  /** How far a second is when nothing is ever kept. */
  predicate Plain(s: State, lines: nat, p0: Payload, p1: Payload, had0: bool, had1: bool) {
    if had0 == had1 then HoldsNothing(s) && |s.log| == lines + (if had0 && Secs(p0) == Secs(p1) then 1 else 0)
    else |s.log| == lines && if had0 then HoldsOne(s, 0, p0) else HoldsOne(s, 1, p1)
  }

  lemma PlainRound(s: State, lines: nat, p0: Payload, p1: Payload, rs: seq<Acts>, r: Acts, ids: seq<u32>)
    requires Shape(s) && Accepted(p0, ids) && Accepted(p1, ids)
    requires Secs(p0) - Secs(p1) != 1 && Secs(p0) - Secs(p1) != -1
    requires Heads(rs + [r], 0) <= 1 && Heads(rs + [r], 1) <= 1
    requires Plain(s, lines, p0, p1, Heads(rs, 0) > 0, Heads(rs, 1) > 0)
    ensures Plain(Round(s, ReadsOf(r, p0, p1), ids), lines, p0, p1, Heads(rs + [r], 0) > 0, Heads(rs + [r], 1) > 0)
  {
    assert (rs + [r])[..|rs|] == rs;
    TakeBoth(s, r, p0, p1, ids);
  }

  lemma {:induction false} PlainSecond(before: seq<seq<Read>>, p0: Payload, p1: Payload, rs: seq<Acts>, t: nat,
                                       lines: nat, ids: seq<u32>)
    requires forall i | 0 <= i < |before| :: |before[i]| == 2
    requires |Rounds(before, ids).log| == lines
    requires Accepted(p0, ids) && Accepted(p1, ids) && t <= |rs| && IsSecond(rs)
    requires Secs(p0) - Secs(p1) != 1 && Secs(p0) - Secs(p1) != -1 && HoldsNothing(Rounds(before, ids))
    ensures Plain(Rounds(before + SecondReads(rs[..t], p0, p1), ids), lines, p0, p1,
                  Heads(rs[..t], 0) > 0, Heads(rs[..t], 1) > 0)
  {
    if t == 0 {
      assert before + SecondReads(rs[..0], p0, p1) == before;
    } else {
      PlainSecond(before, p0, p1, rs, t - 1, lines, ids);
      SecondGoesOn(before, rs, t, p0, p1, ids);
      SecondReadsGoOn(rs, t, p0, p1);
      HeadsAtMostOne(rs, t);
      PlainRound(Rounds(before + SecondReads(rs[..t - 1], p0, p1), ids), lines, p0, p1,
                 rs[..t - 1], rs[t - 1], ids);
    }
  }

  /** Without a skew every second is logged, with one of two seconds or more none is, whatever the schedule. */
  lemma {:induction false} OtherSkews(
    seconds: seq<seq<Acts>>, s0: seq<Payload>, s1: seq<Payload>, base: int, skew: int, ids: seq<u32>)
    requires skew != 1 && skew != -1
    requires Skewed(s0, s1, base, skew, ids) && |seconds| <= |s0| && Schedule(seconds)
    ensures var s := Rounds(AllReads(seconds, s0, s1), ids);
            HoldsNothing(s) && |s.log| == if skew == 0 then |seconds| else 0
  {
    if seconds != [] {
      var k := |seconds| - 1;
      assert Accepted(s0[k], ids) && Accepted(s1[k], ids) by {
        SendableIsAccepted(s0[k], ids);
        SendableIsAccepted(s1[k], ids);
      }
      OtherSkews(seconds[..k], s0, s1, base, skew, ids);
      PlainSecond(AllReads(seconds[..k], s0, s1), s0[k], s1[k], seconds[k], |seconds[k]|,
                  if skew == 0 then k else 0, ids);
      assert seconds[k][..|seconds[k]|] == seconds[k];
    }
  }
}
