/**
 Cyclic launch times: the publisher and subscriber threads of `src/opcua-tsn/opcua_custom.c` and the
 launch-time senders of `src/txrx-afpkt.c` and `src/txrx-afxdp.c`. All of them add a cycle time over and over;
 what is proved is that nothing accumulates.
 */
module Schedule {
  import opened Words

  const ONESEC: int := 1_000_000_000

  datatype Instant = Instant(sec: int, nsec: int)

  function Total(t: Instant): int { t.sec * ONESEC + t.nsec }

  predicate Normal(t: Instant) { 0 <= t.nsec < ONESEC }

  /** The only normal instant with a given number of nanoseconds. */
  function InstantOf(ns: int): (t: Instant)
    ensures Normal(t) && Total(t) == ns
  {
    Instant(ns / ONESEC, ns % ONESEC)
  }

  lemma NormalIsUnique(t: Instant)
    requires Normal(t)
    ensures t == InstantOf(Total(t))
  {
    ModUnique(Total(t), ONESEC, t.sec, t.nsec);
  }

  /** `struct timespec`. */
  class Timespec {
    var sec: int
    var nsec: int

    constructor (sec: int, nsec: int)
      ensures this.sec == sec && this.nsec == nsec
    {
      this.sec, this.nsec := sec, nsec;
    }

    function Value(): Instant
      reads this
    {
      Instant(sec, nsec)
    }

    /** `normalize`: moves whole seconds out of the nanoseconds, in either direction. */
    method Normalize()
      modifies this
      ensures Value() == InstantOf(old(Total(Value())))
    {
      while nsec > ONESEC - 1
        invariant Total(Value()) == old(Total(Value()))
        invariant nsec < 0 ==> nsec == old(nsec)
        decreases nsec
      {
        sec := sec + 1;
        nsec := nsec - ONESEC;
      }
      while nsec < 0
        invariant Total(Value()) == old(Total(Value())) && nsec < ONESEC
        decreases -nsec
      {
        sec := sec - 1;
        nsec := nsec + ONESEC;
      }
      NormalIsUnique(Value());
    }
  }

  /** Seconds rounded up to a multiple of ten. */
  function Round10(sec: nat): nat { (sec + 9) / 10 * 10 }

  function PubBase(startSec: nat, delaySec: nat, publishOffset: nat): nat {
    (Round10(startSec) + delaySec) * ONESEC + publishOffset
  }

  function SubBase(startSec: nat, offset: nat): nat { (Round10(startSec) + 3) * ONESEC + offset }

  /** What one turn of the publisher loop does. */
  datatype Turn = Turn(wake: Instant, launch: u64, called: bool)

  function TurnOf(base: nat, early: nat, cycle: nat, k: nat, gate: bool): Turn {
    Turn(InstantOf(ToU64(base + k * cycle - early)), ToU64(base + k * cycle), gate)
  }

  function Blanks(gates: seq<bool>): nat {
    if gates == [] then 0 else Blanks(gates[..|gates| - 1]) + (if gates[|gates| - 1] then 0 else 1)
  }

  /** Sums, differences and products taken modulo 2^64 at every step are the true result modulo 2^64. */
  lemma U64Sum(a: int, b: int)
    ensures ToU64(ToU64(a) + b) == ToU64(a + b)
  {
    ModShift(ToU64(a) + b, W64, a / W64);
  }

  lemma U64Difference(a: int, b: int)
    ensures ToU64(ToU64(a) - b) == ToU64(a - b)
  {
    ModShift(ToU64(a) - b, W64, a / W64);
  }

  lemma U64Product(a: int, b: int)
    ensures ToU64(ToU64(a) * b) == ToU64(a * b)
  {
    var q := a / W64;
    assert a * b == (W64 * q + ToU64(a)) * b == W64 * (q * b) + ToU64(a) * b;
    ModShift(ToU64(a) * b, W64, q * b);
  }

  /** One addition of the cycle, and the early offset taken off, in wrapped arithmetic. */
  lemma OneCycle(base: int, cycle: int, k: nat, early: int)
    ensures ToU64(ToU64(base + k * cycle) + cycle) == ToU64(base + (k + 1) * cycle)
    ensures ToU64(ToU64(base + k * cycle) - early) == ToU64(base + k * cycle - early)
  {
    assert base + k * cycle + cycle == base + (k + 1) * cycle;
    U64Sum(base + k * cycle, cycle);
    U64Difference(base + k * cycle, early);
  }

  /** The publisher's first launch time, one wrapped operation after the other. */
  lemma PubStart(startSec: nat, delaySec: nat, publishOffset: nat)
    ensures ToU64(ToU64(ToU64(ToU64(Round10(startSec)) + delaySec) * ONESEC) + publishOffset)
            == ToU64(PubBase(startSec, delaySec, publishOffset))
  {
    U64Sum(Round10(startSec), delaySec);
    U64Product(Round10(startSec) + delaySec, ONESEC);
    U64Sum((Round10(startSec) + delaySec) * ONESEC, publishOffset);
  }

  /**
   `pub_thread`, for as many turns as the running flag allows; `gates[k]` is the round-trip gate on turn `k`.
   Blank turns keep the schedule: wake and launch times depend on the turn number alone.
   */
  method PubThread(startSec: nat, delaySec: nat, publishOffset: nat, early: nat, cycle: nat, gates: seq<bool>)
    returns (turns: seq<Turn>, blanks: nat)
    ensures |turns| == |gates| && blanks == Blanks(gates)
    ensures forall k | 0 <= k < |gates| ::
              turns[k] == TurnOf(PubBase(startSec, delaySec, publishOffset), early, cycle, k, gates[k])
  {
    ghost var base := PubBase(startSec, delaySec, publishOffset);
    PubStart(startSec, delaySec, publishOffset);
    var tx: u64 := ToU64((startSec + 9) / 10 * 10);
    tx := ToU64(tx + delaySec);
    tx := ToU64(tx * ONESEC);
    tx := ToU64(tx + publishOffset);
    turns, blanks := [], 0;
    var k := 0;
    assert gates[..0] == [];
    while k < |gates|
      invariant 0 <= k <= |gates| && |turns| == k
      invariant tx == ToU64(base + k * cycle) && blanks == Blanks(gates[..k])
      invariant forall i | 0 <= i < k :: turns[i] == TurnOf(base, early, cycle, i, gates[i])
    {
      OneCycle(base, cycle, k, early);
      var due := ToU64(tx - early);
      var turn := Turn(Instant(due / ONESEC, due % ONESEC), tx, gates[k]);
      assert turn == TurnOf(base, early, cycle, k, gates[k]);
      turns := turns + [turn];
      if !gates[k] {
        blanks := blanks + 1;
      }
      assert gates[..k + 1][..k] == gates[..k];
      tx := ToU64(tx + cycle);
      k := k + 1;
    }
    assert gates[..|gates|] == gates;
  }

  /** `sub_thread` for `count` turns. */
  method SubThread(startSec: nat, startNsec: nat, offset: nat, cycle: nat, count: nat) returns (wakes: seq<Instant>)
    ensures |wakes| == count
    ensures forall j | 0 <= j < count :: wakes[j] == InstantOf(SubBase(startSec, offset) + j * cycle)
  {
    var next := new Timespec(startSec, startNsec);
    next.sec := (next.sec + 9) / 10 * 10;
    next.sec := next.sec + 3;
    next.nsec := offset;
    next.Normalize();
    wakes := [];
    var j := 0;
    while j < count
      invariant 0 <= j <= count && |wakes| == j && fresh(next)
      invariant next.Value() == InstantOf(SubBase(startSec, offset) + j * cycle)
      invariant forall i | 0 <= i < j :: wakes[i] == InstantOf(SubBase(startSec, offset) + i * cycle)
    {
      wakes := wakes + [next.Value()];
      assert SubBase(startSec, offset) + j * cycle + cycle == SubBase(startSec, offset) + (j + 1) * cycle;
      next.nsec := next.nsec + cycle;
      next.Normalize();
      j := j + 1;
    }
  }

  /** One packet of a launch-time sender: its number, when the thread wakes for it, and the launch time asked for. */
  datatype Launch = Launch(number: nat, wake: Instant, launch: u64)

  function ToolBase(startSec: nat, offset: nat): nat { (startSec + 2) * ONESEC + offset }

  /** Packet `k` of a schedule: launched on it, woken for `early` before that. */
  function LaunchOf(base: nat, early: nat, interval: nat, k: nat, number: nat): Launch {
    Launch(number, InstantOf(ToU64(base + k * interval - early)), ToU64(base + k * interval))
  }

  /** `afxdp_send_thread`: numbers from 0, launch time first, waking `early` before it; `stop` turns until halted. */
  method AfxdpSendThread(startSec: nat, offset: nat, early: nat, interval: nat, frames: nat, flush: nat, stop: nat)
    returns (sent: seq<Launch>)
    ensures |sent| == (if stop < frames + flush then stop else frames + flush)
    ensures forall k | 0 <= k < |sent| ::
              sent[k] == LaunchOf(ToolBase(startSec, offset), early, interval, k, k)
  {
    ghost var base := ToolBase(startSec, offset);
    U64Sum(startSec * ONESEC, offset);
    U64Sum(startSec * ONESEC + offset, 2 * ONESEC);
    var tx: u64 := ToU64(startSec * ONESEC);
    tx := ToU64(tx + offset);
    tx := ToU64(tx + 2 * ONESEC);
    sent := [];
    var i := 0;
    while i < stop && i < frames + flush
      invariant 0 <= i <= frames + flush && i <= stop && |sent| == i && tx == ToU64(base + i * interval)
      invariant forall k | 0 <= k < i :: sent[k] == LaunchOf(base, early, interval, k, k)
    {
      OneCycle(base, interval, i, early);
      var sleep := ToU64(tx - early);
      var next := Launch(i, Instant(sleep / ONESEC, sleep % ONESEC), tx);
      assert next == LaunchOf(base, early, interval, i, i);
      sent := sent + [next];
      tx := ToU64(tx + interval);
      i := i + 1;
    }
  }

  /** Adding the early offset back undoes having taken it off before any number of cycles. */
  lemma EarlyCancels(base: int, early: int, interval: int, k: nat)
    ensures ToU64(ToU64(base + k * interval - early) + early) == ToU64(base + k * interval)
    ensures ToU64(ToU64(base + k * interval - early) + interval) == ToU64(base + (k + 1) * interval - early)
  {
    U64Sum(base + k * interval - early, early);
    assert base + k * interval - early + interval == base + (k + 1) * interval - early;
    U64Sum(base + k * interval - early, interval);
  }

  lemma EtfStart(startSec: nat, offset: nat, early: nat)
    ensures ToU64(ToU64(ToU64(startSec * ONESEC + 2 * ONESEC) + offset) - early)
            == ToU64(ToolBase(startSec, offset) - early)
  {
    U64Sum(startSec * ONESEC + 2 * ONESEC, offset);
    U64Difference(ToolBase(startSec, offset), early);
  }

  /**
   `afpkt_send_thread_etf`: numbers from 1, wake time first, launching `early` after it. The early offset taken
   off at the start and added back at each launch cancels, whatever wraps on the way.
   */
  method AfpktSendThreadEtf(startSec: nat, offset: nat, early: nat, interval: nat, frames: nat, stop: nat)
    returns (sent: seq<Launch>)
    ensures |sent| == (if stop < frames then stop else frames)
    ensures forall k | 0 <= k < |sent| ::
              sent[k] == LaunchOf(ToolBase(startSec, offset), early, interval, k, k + 1)
  {
    ghost var base := ToolBase(startSec, offset);
    EtfStart(startSec, offset, early);
    var looping: u64 := ToU64(startSec * ONESEC + 2 * ONESEC);
    looping := ToU64(looping + offset);
    looping := ToU64(looping - early);
    var ts := Instant(looping / ONESEC, looping % ONESEC);
    var count, number := frames, 1;
    sent := [];
    ghost var k := 0;
    while count > 0 && |sent| < stop
      invariant 0 <= count <= frames && |sent| == k == frames - count <= stop && number == k + 1
      invariant looping == ToU64(base + k * interval - early)
      invariant ts == Instant(looping / ONESEC, looping % ONESEC)
      invariant forall j | 0 <= j < k :: sent[j] == LaunchOf(base, early, interval, j, j + 1)
    {
      EarlyCancels(base, early, interval, k);
      var next := Launch(number, ts, ToU64(looping + early));
      assert next == LaunchOf(base, early, interval, k, k + 1);
      sent := sent + [next];
      looping := ToU64(looping + interval);
      ts := Instant(looping / ONESEC, looping % ONESEC);
      count, number, k := count - 1, number + 1, k + 1;
    }
  }

  // ---------------------------------------------------------------------------------------------------
  // What these times are

  /** The next multiple of ten. */
  lemma NextTen(sec: nat)
    ensures Round10(sec) % 10 == 0 && sec <= Round10(sec) < sec + 10
  {
  }

  /** Terms of a schedule that stays below 2^64. */
  lemma TermsGrow(base: nat, step: nat, k: nat)
    ensures base + 0 * step == base && base <= base + k * step <= base + (k + 1) * step
    ensures base + (k + 1) * step == base + k * step + step
  {
  }

  lemma NoWrap(x: nat)
    requires x < W64
    ensures ToU64(x) == x
  {
  }

  /**
   The publisher's turns, while they stay below 2^64 ns: `t` is the start rounded up to a multiple of ten, the first
   launch is the delay and the offset after that and not before the start, each launch is a cycle after the one
   before, and the thread wakes the early offset ahead of it.
   */
  lemma TurnMeans(startSec: nat, delaySec: nat, publishOffset: nat, early: nat, cycle: nat, k: nat, gate: bool)
    requires early <= PubBase(startSec, delaySec, publishOffset)
    requires PubBase(startSec, delaySec, publishOffset) + (k + 1) * cycle < W64
    ensures exists t: nat ::
              && t % 10 == 0 && startSec <= t < startSec + 10
              && TurnOf(PubBase(startSec, delaySec, publishOffset), early, cycle, 0, gate).launch
                 == (t + delaySec) * 1_000_000_000 + publishOffset
    ensures var base := PubBase(startSec, delaySec, publishOffset);
            var turn, next := TurnOf(base, early, cycle, k, gate), TurnOf(base, early, cycle, k + 1, gate);
            && next.launch == turn.launch + cycle
            && Normal(turn.wake) && Total(turn.wake) + early == turn.launch
            && turn.called == gate && turn.launch >= startSec * 1_000_000_000
  {
    NextTen(startSec);
    var base := PubBase(startSec, delaySec, publishOffset);
    TermsGrow(base, cycle, k);
    NoWrap(base);
    NoWrap(base + k * cycle);
    NoWrap(base + (k + 1) * cycle);
    NoWrap(base + k * cycle - early);
    var t := Round10(startSec);
    assert TurnOf(base, early, cycle, 0, gate).launch == (t + delaySec) * 1_000_000_000 + publishOffset;
  }

  /** The subscriber first wakes three seconds and the offset after a multiple of ten. */
  lemma FirstWakeMeans(startSec: nat, offset: nat)
    ensures exists t: nat ::
              && t % 10 == 0 && startSec <= t < startSec + 10
              && SubBase(startSec, offset) == (t + 3) * 1_000_000_000 + offset
  {
    NextTen(startSec);
    assert SubBase(startSec, offset) == (Round10(startSec) + 3) * 1_000_000_000 + offset;
  }

  /** The tools' packets: the first is due two seconds and the offset after the start, each an interval later. */
  lemma LaunchMeans(startSec: nat, offset: nat, early: nat, interval: nat, k: nat, number: nat)
    requires early <= ToolBase(startSec, offset) && ToolBase(startSec, offset) + (k + 1) * interval < W64
    ensures LaunchOf(ToolBase(startSec, offset), early, interval, 0, number).launch
            == startSec * 1_000_000_000 + 2_000_000_000 + offset
    ensures var base := ToolBase(startSec, offset);
            var l := LaunchOf(base, early, interval, k, number);
            var next := LaunchOf(base, early, interval, k + 1, number + 1);
            && next.launch == l.launch + interval && next.number == l.number + 1
            && Normal(l.wake) && Total(l.wake) + early == l.launch
  {
    var base := ToolBase(startSec, offset);
    TermsGrow(base, interval, k);
    NoWrap(base);
    NoWrap(base + k * interval);
    NoWrap(base + (k + 1) * interval);
    NoWrap(base + k * interval - early);
  }

  /** The blank turns are those with the gate closed. */
  lemma {:induction false} BlanksAreClosed(gates: seq<bool>)
    ensures Blanks(gates) == multiset(gates)[false]
  {
    if gates != [] {
      BlanksAreClosed(gates[..|gates| - 1]);
      assert gates == gates[..|gates| - 1] + [gates[|gates| - 1]];
    }
  }

  // ---------------------------------------------------------------------------------------------------
  // Phase between boards

  /** The `k`-th launch after the `j`-th wake, and the offset the configuration asks for, agree modulo the cycle. */
  predicate InPhase(
    pubStart: nat, delaySec: nat, publishOffset: nat, subStart: nat, offset: nat, cycle: nat, k: nat, j: nat)
    requires cycle > 0
  {
    ((PubBase(pubStart, delaySec, publishOffset) + k * cycle) - (SubBase(subStart, offset) + j * cycle)
     - (publishOffset - offset)) % cycle == 0
  }

  /** Whole seconds between the two boards' first turns. */
  function SecondsApart(pubStart: nat, delaySec: nat, subStart: nat): int {
    Round10(pubStart) + delaySec - Round10(subStart) - 3
  }

  /** Two threads, whenever each was started, are in phase exactly when the cycle divides the time between them. */
  lemma PhaseIff(
    pubStart: nat, delaySec: nat, publishOffset: nat, subStart: nat, offset: nat, cycle: nat, k: nat, j: nat)
    requires cycle > 0
    ensures InPhase(pubStart, delaySec, publishOffset, subStart, offset, cycle, k, j)
            <==> (SecondsApart(pubStart, delaySec, subStart) * ONESEC) % cycle == 0
  {
    var apart := SecondsApart(pubStart, delaySec, subStart) * ONESEC;
    var lag := (PubBase(pubStart, delaySec, publishOffset) + k * cycle) - (SubBase(subStart, offset) + j * cycle)
               - (publishOffset - offset);
    assert k * cycle - j * cycle == cycle * (k - j);
    assert lag == cycle * (k - j) + apart;
    ModShift(apart, cycle, k - j);
  }

  /** A configuration keeps its phase whenever the two threads are started, on every turn. */
  ghost predicate AlwaysInPhase(delaySec: nat, cycle: nat)
    requires cycle > 0
  {
    forall pubStart: nat, publishOffset: nat, subStart: nat, offset: nat, k: nat, j: nat ::
      InPhase(pubStart, delaySec, publishOffset, subStart, offset, cycle, k, j)
  }

  /** The cycle divides ten seconds, the grain of the starts, and the difference of the two start delays. */
  predicate PhaseFits(delaySec: nat, cycle: nat)
    requires cycle > 0
  {
    (10 * ONESEC) % cycle == 0 && ((delaySec - 3) * ONESEC) % cycle == 0
  }

  lemma Multiples(a: int, b: int, cycle: nat)
    requires cycle > 0 && a % cycle == 0
    ensures (a + b) % cycle == b % cycle
  {
    assert a + b == cycle * (a / cycle) + b;
    ModShift(b, cycle, a / cycle);
  }

  lemma TimesMultiple(a: int, m: int, cycle: nat)
    requires cycle > 0 && a % cycle == 0
    ensures (m * a) % cycle == 0
  {
    var q := a / cycle;
    assert m * a == m * (cycle * q) == cycle * (m * q) + 0;
    ModUnique(m * a, cycle, m * q, 0);
  }

  /** For each publish delay, exactly the cycle times that keep the phase for all start instants. */
  lemma PhaseAtDelayIff(delaySec: nat, cycle: nat)
    requires cycle > 0
    ensures AlwaysInPhase(delaySec, cycle) <==> PhaseFits(delaySec, cycle)
  {
    if PhaseFits(delaySec, cycle) {
      forall pubStart: nat, publishOffset: nat, subStart: nat, offset: nat, k: nat, j: nat
        ensures InPhase(pubStart, delaySec, publishOffset, subStart, offset, cycle, k, j)
      {
        var tens := (pubStart + 9) / 10 - (subStart + 9) / 10;
        PhaseIff(pubStart, delaySec, publishOffset, subStart, offset, cycle, k, j);
        TimesMultiple(10 * ONESEC, tens, cycle);
        Multiples(tens * (10 * ONESEC), (delaySec - 3) * ONESEC, cycle);
        assert SecondsApart(pubStart, delaySec, subStart) * ONESEC
            == tens * (10 * ONESEC) + (delaySec - 3) * ONESEC;
      }
    } else if AlwaysInPhase(delaySec, cycle) {
      assert InPhase(0, delaySec, 0, 0, 0, cycle, 0, 0) && InPhase(10, delaySec, 0, 0, 0, cycle, 0, 0);
      PhaseIff(0, delaySec, 0, 0, 0, cycle, 0, 0);
      PhaseIff(10, delaySec, 0, 0, 0, cycle, 0, 0);
      assert SecondsApart(0, delaySec, 0) == delaySec - 3 && SecondsApart(10, delaySec, 0) == 10 + delaySec - 3;
      Multiples((delaySec - 3) * ONESEC, 10 * ONESEC, cycle);
    }
  }

  /** Only a cycle time that divides one second keeps the phase at every publish delay too. */
  lemma PhaseAtAllDelaysIff(cycle: nat)
    requires cycle > 0
    ensures (forall delaySec: nat :: AlwaysInPhase(delaySec, cycle)) <==> ONESEC % cycle == 0
  {
    PhaseAtDelayIff(4, cycle);
    if ONESEC % cycle == 0 {
      forall delaySec: nat
        ensures AlwaysInPhase(delaySec, cycle)
      {
        PhaseAtDelayIff(delaySec, cycle);
        TimesMultiple(ONESEC, 10, cycle);
        TimesMultiple(ONESEC, delaySec - 3, cycle);
      }
    }
  }

  /** At the delay of three seconds a cycle of 3.2 ms keeps the phase although it does not divide a second. */
  lemma DelayThree()
    ensures AlwaysInPhase(3, 3_200_000) && ONESEC % 3_200_000 != 0
  {
    PhaseAtDelayIff(3, 3_200_000);
  }
}
