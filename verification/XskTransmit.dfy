/**
 AF_XDP transmission as a transition system. The program writes the frame numbered `curTx`, posts a
 descriptor for it and moves `curTx` on round the frames; it never asks which frames are still in flight.
 The kernel takes descriptors, transmits them and reports them complete, each in order.
 */
module XskTransmit {
  import opened Words

  datatype TxDesc = TxDesc(addr: nat, len: nat, txtime: nat)

  /** A descriptor and the bytes its frame held when it was posted. */
  datatype Posted = Posted(desc: TxDesc, bytes: seq<byte>)

  datatype Tx = Tx(
    n: nat, frameSize: nat, wrap: nat,
    frames: map<nat, seq<byte>>, ring: seq<TxDesc>, comp: seq<nat>,
    posted: seq<Posted>, taken: seq<TxDesc>, wire: seq<seq<byte>>, completed: nat, reaped: nat,
    curTx: nat, outstanding: nat, npkts: nat)

  datatype Event =
    | Write(offset: nat, data: seq<byte>)
    | Post(len: nat, txtime: nat)
    | Reap
    | TakeDesc
    | Transmit
    | Complete

  predicate Shaped(s: Tx) { s.n > 0 && s.wrap > 0 && |s.ring| == s.n && |s.comp| == s.n }

  function Splice(frame: seq<byte>, offset: nat, data: seq<byte>): (r: seq<byte>)
    requires offset + |data| <= |frame|
    ensures |r| == |frame|
  {
    frame[..offset] + data + frame[offset + |data|..]
  }

  /** `cur_tx << FRAME_SHIFT`. */
  function CurAddr(s: Tx): nat { s.curTx * s.frameSize }

  predicate CanWrite(s: Tx, offset: nat, data: seq<byte>) {
    CurAddr(s) in s.frames && offset + |data| <= |s.frames[CurAddr(s)]|
  }

  predicate CanPost(s: Tx, len: nat) {
    CurAddr(s) in s.frames && len <= |s.frames[CurAddr(s)]| && |s.posted| < |s.taken| + s.n
  }

  function Step(s: Tx, e: Event): Tx
    requires Shaped(s)
  {
    match e
    case Write(offset, data) =>
      if CanWrite(s, offset, data)
      then s.(frames := s.frames[CurAddr(s) := Splice(s.frames[CurAddr(s)], offset, data)])
      else s
    case Post(len, txtime) =>
      if CanPost(s, len)
      then
        var d := TxDesc(CurAddr(s), len, txtime);
        s.(ring := s.ring[|s.posted| % s.n := d],
           posted := s.posted + [Posted(d, s.frames[CurAddr(s)][..len])],
           outstanding := s.outstanding + 1,
           curTx := (s.curTx + 1) % s.wrap)
      else s
    case Reap =>
      if s.outstanding > 0 && s.reaped < s.completed
      then s.(reaped := s.reaped + 1, outstanding := s.outstanding - 1, npkts := s.npkts + 1)
      else s
    case TakeDesc =>
      // A descriptor is only taken when its completion is sure to find room.
      if |s.taken| < |s.posted| && |s.taken| < s.reaped + s.n
      then s.(taken := s.taken + [s.ring[|s.taken| % s.n]])
      else s
    case Transmit =>
      if |s.wire| < |s.taken| && CanSend(s, s.taken[|s.wire|])
      then s.(wire := s.wire + [s.frames[s.taken[|s.wire|].addr][..s.taken[|s.wire|].len]])
      else s
    case Complete =>
      if s.completed < |s.wire| && s.completed < |s.taken|
      then s.(comp := s.comp[s.completed % s.n := s.taken[s.completed].addr], completed := s.completed + 1)
      else s
  }

  predicate CanSend(s: Tx, d: TxDesc) { d.addr in s.frames && d.len <= |s.frames[d.addr]| }

  function Run(s: Tx, es: seq<Event>): (r: Tx)
    requires Shaped(s)
    ensures Shaped(r) && r.n == s.n && r.frameSize == s.frameSize && r.wrap == s.wrap
  {
    if es == [] then s else Step(Run(s, es[..|es| - 1]), es[|es| - 1])
  }

  function Addr(s: Tx, j: nat): nat
    requires s.n > 0
  {
    (j % s.n) * s.frameSize
  }

  ghost predicate Counts(s: Tx) {
    && Shaped(s) && s.frameSize > 0 && s.wrap == s.n
    && s.reaped <= s.completed <= |s.wire| <= |s.taken| <= |s.posted| <= |s.taken| + s.n
    && |s.taken| <= s.reaped + s.n
    && s.outstanding == |s.posted| - s.reaped
    && s.npkts == s.reaped
    && s.curTx == |s.posted| % s.n
  }

  /** The invariant of every interleaving, whatever the program writes. */
  ghost predicate Inv(s: Tx) {
    && Counts(s)
    && (forall f | 0 <= f < s.n :: f * s.frameSize in s.frames && |s.frames[f * s.frameSize]| == s.frameSize)
    && (forall j | 0 <= j < |s.posted| :: s.posted[j].desc.addr == Addr(s, j) && s.posted[j].desc.len <= s.frameSize)
    && (forall j | |s.taken| <= j < |s.posted| :: s.ring[j % s.n] == s.posted[j].desc)
    && (forall j | 0 <= j < |s.taken| :: s.taken[j] == s.posted[j].desc)
    && (forall j | s.reaped <= j < s.completed :: s.comp[j % s.n] == Addr(s, j))
  }

  /** No frame in flight was written since it was posted, and the wire carried what was posted. */
  ghost predicate Intact(s: Tx)
    requires Inv(s)
  {
    && (forall j | s.completed <= j < |s.posted| :: FrameOf(s, j)[..s.posted[j].desc.len] == s.posted[j].bytes)
    && (forall k | 0 <= k < |s.wire| :: s.wire[k] == s.posted[k].bytes)
  }

  function FrameOf(s: Tx, j: nat): (f: seq<byte>)
    requires Inv(s)
    ensures |f| == s.frameSize
  {
    assert (j % s.n) * s.frameSize in s.frames;
    s.frames[Addr(s, j)]
  }

  function Start(n: nat, frameSize: nat, frames: map<nat, seq<byte>>): Tx
    requires n > 0
  {
    Tx(n, frameSize, n, frames, seq(n, _ => TxDesc(0, 0, 0)), seq(n, _ => 0), [], [], [], 0, 0, 0, 0, 0)
  }

  lemma AddrsDiffer(s: Tx, i: nat, j: nat)
    requires s.n > 0 && s.frameSize > 0 && i < j < i + s.n
    ensures Addr(s, i) != Addr(s, j)
  {
    SlotsDiffer(i, j, s.n);
    MultipleIsFar(s.frameSize, i % s.n - j % s.n);
    assert Addr(s, i) - Addr(s, j) == s.frameSize * (i % s.n - j % s.n);
  }

  lemma NextSlot(count: nat, n: nat)
    requires n > 0
    ensures (count % n + 1) % n == (count + 1) % n
  {
    ModShift(count % n + 1, n, count / n);
  }

  lemma StepKeepsInv(s: Tx, e: Event)
    requires Inv(s)
    ensures Inv(Step(s, e))
  {
    var t := Step(s, e);
    if t != s {
      match e
      case Post(len, txtime) =>
        PostKeepsInv(s, len, txtime);
      case Complete =>
        CompleteKeepsInv(s);
      case _ =>
    }
  }

  lemma PostKeepsInv(s: Tx, len: nat, txtime: nat)
    requires Inv(s) && CanPost(s, len)
    ensures Inv(Step(s, Post(len, txtime)))
  {
    var t := Step(s, Post(len, txtime));
    NextSlot(|s.posted|, s.n);
    assert t.posted[|s.posted|].desc.addr == Addr(s, |s.posted|);
    assert s.curTx * s.frameSize in s.frames;
    forall j | |t.taken| <= j < |t.posted|
      ensures t.ring[j % t.n] == t.posted[j].desc
    {
      if j < |s.posted| {
        SlotsDiffer(j, |s.posted|, s.n);
      }
    }
  }

  lemma CompleteKeepsInv(s: Tx)
    requires Inv(s) && s.completed < |s.wire|
    ensures Inv(Step(s, Complete))
  {
    var t := Step(s, Complete);
    forall j | t.reaped <= j < t.completed
      ensures t.comp[j % t.n] == Addr(t, j)
    {
      if j < s.completed {
        SlotsDiffer(j, s.completed, s.n);
      }
    }
  }

  lemma StepOnlyAdds(s: Tx, e: Event)
    requires Shaped(s)
    ensures s.posted <= Step(s, e).posted && s.taken <= Step(s, e).taken && s.wire <= Step(s, e).wire
  {
  }

  /** Every run keeps the invariant, and nothing posted, taken or sent is ever taken back. */
  lemma {:induction false} RunKeepsInv(s: Tx, es: seq<Event>)
    requires Inv(s)
    ensures Inv(Run(s, es))
    ensures s.posted <= Run(s, es).posted && s.taken <= Run(s, es).taken && s.wire <= Run(s, es).wire
  {
    if es != [] {
      var before := Run(s, es[..|es| - 1]);
      RunKeepsInv(s, es[..|es| - 1]);
      StepKeepsInv(before, es[|es| - 1]);
      StepOnlyAdds(before, es[|es| - 1]);
    }
  }

  lemma StartHolds(n: nat, frameSize: nat, frames: map<nat, seq<byte>>)
    requires n > 0 && frameSize > 0
    requires forall f | 0 <= f < n :: f * frameSize in frames && |frames[f * frameSize]| == frameSize
    ensures Inv(Start(n, frameSize, frames)) && Intact(Start(n, frameSize, frames))
  {
  }

  // ---------------------------------------------------------------------------------------------------
  // Accounting

  /** Over any run, refusals and all: nothing posted is forgotten, and `curTx` counts posts round the frames. */
  lemma PostsAreConserved(n: nat, frameSize: nat, frames: map<nat, seq<byte>>, es: seq<Event>)
    requires n > 0 && frameSize > 0
    requires forall f | 0 <= f < n :: f * frameSize in frames && |frames[f * frameSize]| == frameSize
    ensures var s := Run(Start(n, frameSize, frames), es);
            && s.npkts + s.outstanding == |s.posted|
            && s.curTx == |s.posted| % n
            && s.outstanding <= 2 * n
  {
    StartHolds(n, frameSize, frames);
    RunKeepsInv(Start(n, frameSize, frames), es);
  }

  // ---------------------------------------------------------------------------------------------------
  // The window of frames in flight

  function InFlight(s: Tx): int { |s.posted| - s.completed }

  /** The `d`-th most recent descriptor uses the frame `d` places before `curTx`, cyclically. */
  lemma WindowEndsAtCurTx(s: Tx, d: nat)
    requires Inv(s) && 0 < d <= InFlight(s)
    ensures s.posted[|s.posted| - d].desc.addr == (s.curTx - d) % s.n * s.frameSize
    ensures 0 <= (s.curTx - d) % s.n * s.frameSize
    ensures (s.curTx - d) % s.n * s.frameSize + s.frameSize <= s.n * s.frameSize
  {
    var j := |s.posted| - d;
    var q := |s.posted| / s.n;
    assert j == s.n * q + (s.curTx - d);
    ModShift(s.curTx - d, s.n, q);
    FrameInside((s.curTx - d) % s.n, s.n, s.frameSize);
  }

  lemma FrameInside(f: int, n: int, frameSize: int)
    requires 0 <= f < n && frameSize > 0
    ensures 0 <= f * frameSize && f * frameSize + frameSize <= n * frameSize
  {
    assert (n - f - 1) * frameSize >= 0;
    assert (n - f - 1) * frameSize == n * frameSize - f * frameSize - frameSize;
  }

  /**
   A write that changes its frame leaves every frame in flight alone if and only if fewer than `n` are in
   flight. Nothing in the program tests this.
   */
  lemma WriteIsSafeIff(s: Tx, offset: nat, data: seq<byte>)
    requires Inv(s) && CanWrite(s, offset, data)
    requires Step(s, Write(offset, data)) != s
    ensures Inv(Step(s, Write(offset, data)))
    ensures (forall j | s.completed <= j < |s.posted| :: FrameOf(Step(s, Write(offset, data)), j) == FrameOf(s, j))
            <==> InFlight(s) < s.n
  {
    var t := Step(s, Write(offset, data));
    StepKeepsInv(s, Write(offset, data));
    assert CurAddr(s) == Addr(s, |s.posted|);
    if InFlight(s) < s.n {
      forall j | s.completed <= j < |s.posted|
        ensures FrameOf(t, j) == FrameOf(s, j)
      {
        AddrsDiffer(s, j, |s.posted|);
      }
    } else {
      var j := |s.posted| - s.n;
      ModShift(j, s.n, 1);
      assert FrameOf(t, j) != FrameOf(s, j) by {
        assert t.frames[CurAddr(s)] != s.frames[CurAddr(s)];
      }
    }
  }

  /** What the program can see of `InFlight`: its own count, less the completions waiting to be reaped. */
  lemma InFlightIsObservable(s: Tx)
    requires Inv(s)
    ensures InFlight(s) == s.outstanding - (s.completed - s.reaped)
  {
  }

  /** A full tx ring is found out too late: whenever a post is refused, the frame was still in flight. */
  lemma RefusalFollowsOverwrite(s: Tx, len: nat)
    requires Inv(s) && len <= s.frameSize && !CanPost(s, len)
    ensures InFlight(s) >= s.n
  {
    assert s.curTx * s.frameSize in s.frames;
  }

  /** Every write of the run happens with fewer than `n` descriptors outstanding. */
  predicate Careful(s: Tx, es: seq<Event>)
    requires Shaped(s)
  {
    es != [] ==>
      && Careful(s, es[..|es| - 1])
      && (es[|es| - 1].Write? ==> Run(s, es[..|es| - 1]).outstanding < s.n)
  }

  lemma WriteKeepsIntact(s: Tx, offset: nat, data: seq<byte>)
    requires Inv(s) && Intact(s) && s.outstanding < s.n
    ensures Inv(Step(s, Write(offset, data))) && Intact(Step(s, Write(offset, data)))
  {
    var t := Step(s, Write(offset, data));
    StepKeepsInv(s, Write(offset, data));
    assert CurAddr(s) == Addr(s, |s.posted|);
    forall j | t.completed <= j < |t.posted|
      ensures FrameOf(t, j)[..t.posted[j].desc.len] == t.posted[j].bytes
    {
      assert FrameOf(s, j)[..s.posted[j].desc.len] == s.posted[j].bytes;
      AddrsDiffer(s, j, |s.posted|);
    }
  }

  lemma TransmitKeepsIntact(s: Tx)
    requires Inv(s) && Intact(s)
    ensures Inv(Step(s, Transmit)) && Intact(Step(s, Transmit))
  {
    var k, t := |s.wire|, Step(s, Transmit);
    StepKeepsInv(s, Transmit);
    if t != s {
      assert s.taken[k] == s.posted[k].desc;
      assert FrameOf(s, k)[..s.posted[k].desc.len] == s.posted[k].bytes;
    }
    forall j | t.completed <= j < |t.posted|
      ensures FrameOf(t, j)[..t.posted[j].desc.len] == t.posted[j].bytes
    {
      assert FrameOf(s, j)[..s.posted[j].desc.len] == s.posted[j].bytes;
    }
  }

  lemma StepKeepsIntact(s: Tx, e: Event)
    requires Inv(s) && Intact(s) && (e.Write? ==> s.outstanding < s.n)
    ensures Inv(Step(s, e)) && Intact(Step(s, e))
  {
    if e.Write? {
      WriteKeepsIntact(s, e.offset, e.data);
    } else if e.Transmit? {
      TransmitKeepsIntact(s);
    } else {
      StepKeepsInv(s, e);
      var t := Step(s, e);
      assert CurAddr(s) == Addr(s, |s.posted|);
      forall j | t.completed <= j < |t.posted|
        ensures FrameOf(t, j)[..t.posted[j].desc.len] == t.posted[j].bytes
      {
        if j < |s.posted| {
          assert FrameOf(s, j)[..s.posted[j].desc.len] == s.posted[j].bytes;
        }
      }
    }
  }

  /**
   In every interleaving whose writes find fewer than `n` descriptors outstanding, the wire carries exactly
   the frames as they were posted, in order.
   */
  lemma {:induction false} WireCarriesPosts(s: Tx, es: seq<Event>)
    requires Inv(s) && Intact(s) && Careful(s, es)
    ensures Inv(Run(s, es)) && Intact(Run(s, es))
  {
    if es != [] {
      WireCarriesPosts(s, es[..|es| - 1]);
      StepKeepsIntact(Run(s, es[..|es| - 1]), es[|es| - 1]);
    }
  }
}
