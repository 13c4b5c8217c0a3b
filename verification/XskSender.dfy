/** An AF_XDP socket's transmit half over real memory: the umem is one byte array, and a frame a slice of it. */
module XskSender {
  import opened Words
  import opened Rings
  import opened XskTransmit

  ghost predicate FramesMatch(frames: map<nat, seq<byte>>, bytes: seq<byte>, n: nat, frameSize: nat)
    requires |bytes| == n * frameSize && frameSize > 0
  {
    forall f | 0 <= f < n :: f * frameSize in frames && frames[f * frameSize] == FrameBytes(bytes, n, frameSize, f)
  }

  function FrameBytes(bytes: seq<byte>, n: nat, frameSize: nat, f: nat): (frame: seq<byte>)
    requires |bytes| == n * frameSize && frameSize > 0 && f < n
    ensures |frame| == frameSize
  {
    FrameInside(f, n, frameSize);
    bytes[f * frameSize..f * frameSize + frameSize]
  }

  /** `memcpy` of `data` to position `at`. */
  ghost predicate Copied(before: seq<byte>, after: seq<byte>, at: nat, data: seq<byte>) {
    && |before| == |after| && at + |data| <= |before|
    && after[..at] == before[..at]
    && after[at..at + |data|] == data
    && after[at + |data|..] == before[at + |data|..]
  }

  /** Copying inside one slice splices that slice and leaves a disjoint one alone. */
  lemma CopyInSlice(before: seq<byte>, after: seq<byte>, base: nat, size: nat, offset: nat, data: seq<byte>)
    requires Copied(before, after, base + offset, data) && offset + |data| <= size && base + size <= |before|
    ensures after[base..base + size] == Splice(before[base..base + size], offset, data)
  {
    var s, t := Splice(before[base..base + size], offset, data), after[base..base + size];
    var at := base + offset;
    forall i | 0 <= i < size
      ensures t[i] == s[i]
    {
      if i < offset {
        assert after[..at][base + i] == before[..at][base + i];
      } else if i < offset + |data| {
        assert after[at..at + |data|][i - offset] == data[i - offset];
      } else {
        var k := base + i - (at + |data|);
        assert after[at + |data|..][k] == before[at + |data|..][k];
      }
    }
  }

  lemma CopyOutsideSlice(before: seq<byte>, after: seq<byte>, at: nat, data: seq<byte>, base: nat, size: nat)
    requires Copied(before, after, at, data) && base + size <= |before|
    requires base + size <= at || at + |data| <= base
    ensures after[base..base + size] == before[base..base + size]
  {
    if base + size <= at {
      assert after[base..base + size] == after[..at][base..base + size];
      assert before[base..base + size] == before[..at][base..base + size];
    } else {
      var k := base - (at + |data|);
      assert after[base..base + size] == after[at + |data|..][k..k + size];
      assert before[base..base + size] == before[at + |data|..][k..k + size];
    }
  }

  /** Copying inside frame `cur` splices that frame and no other. */
  lemma CopyStaysInFrame(
    before: seq<byte>, after: seq<byte>, n: nat, frameSize: nat, cur: nat, base: nat, offset: nat, data: seq<byte>)
    requires |before| == n * frameSize && frameSize > 0 && cur < n && base == cur * frameSize
    requires offset + |data| <= frameSize && Copied(before, after, base + offset, data)
    ensures FrameBytes(after, n, frameSize, cur) == Splice(FrameBytes(before, n, frameSize, cur), offset, data)
    ensures forall f | 0 <= f < n && f != cur ::
              FrameBytes(after, n, frameSize, f) == FrameBytes(before, n, frameSize, f)
  {
    FrameInside(cur, n, frameSize);
    CopyInSlice(before, after, base, frameSize, offset, data);
    forall f | 0 <= f < n && f != cur
      ensures FrameBytes(after, n, frameSize, f) == FrameBytes(before, n, frameSize, f)
    {
      CopyMissesFrame(before, after, n, frameSize, cur, base, offset, data, f);
    }
  }

  lemma CopyMissesFrame(
    before: seq<byte>, after: seq<byte>, n: nat, frameSize: nat, cur: nat, base: nat, offset: nat, data: seq<byte>,
    f: nat)
    requires |before| == n * frameSize && frameSize > 0 && cur < n && base == cur * frameSize
    requires offset + |data| <= frameSize && Copied(before, after, base + offset, data) && f < n && f != cur
    ensures FrameBytes(after, n, frameSize, f) == FrameBytes(before, n, frameSize, f)
  {
    FrameInside(f, n, frameSize);
    FramesApart(f, cur, frameSize);
    CopyOutsideSlice(before, after, base + offset, data, f * frameSize, frameSize);
  }

  lemma FramesApart(f: int, g: int, frameSize: int)
    requires frameSize > 0 && f != g
    ensures f * frameSize + frameSize <= g * frameSize || g * frameSize + frameSize <= f * frameSize
  {
    MultipleIsFar(frameSize, f - g);
    assert f * frameSize - g * frameSize == frameSize * (f - g);
  }

  /** The first `k` frames by address. */
  ghost function FrameMap(bytes: seq<byte>, n: nat, frameSize: nat, k: nat): (frames: map<nat, seq<byte>>)
    requires |bytes| == n * frameSize && frameSize > 0 && k <= n
    ensures forall f | 0 <= f < k ::
              f * frameSize in frames && frames[f * frameSize] == FrameBytes(bytes, n, frameSize, f)
  {
    if k == 0 then map[]
    else
      assert forall f | 0 <= f < k - 1 :: f * frameSize != (k - 1) * frameSize by {
        forall f | 0 <= f < k - 1
          ensures f * frameSize != (k - 1) * frameSize
        {
          FramesApart(f, k - 1, frameSize);
        }
      }
      FrameMap(bytes, n, frameSize, k - 1)[(k - 1) * frameSize := FrameBytes(bytes, n, frameSize, k - 1)]
  }

  predicate KernelOnly(es: seq<Event>) {
    forall i | 0 <= i < |es| :: es[i].TakeDesc? || es[i].Transmit? || es[i].Complete?
  }

  lemma RunThen(s: Tx, es: seq<Event>, e: Event)
    requires Shaped(s)
    ensures Run(s, es + [e]) == Step(Run(s, es), e)
  {
    assert (es + [e])[..|es|] == es;
  }

  /** The kernel posts nothing and writes nothing; it can only finish what was posted. */
  lemma {:induction false} KernelRunsAside(s: Tx, es: seq<Event>)
    requires Inv(s) && KernelOnly(es)
    ensures var t := Run(s, es);
            && Inv(t) && t.posted == s.posted && t.frames == s.frames && t.curTx == s.curTx
            && t.outstanding == s.outstanding && |t.taken| >= |s.taken| && t.completed >= s.completed
            && t.npkts == s.npkts
            && (Intact(s) ==> Intact(t))
  {
    if es != [] {
      KernelRunsAside(s, es[..|es| - 1]);
      var t := Run(s, es[..|es| - 1]);
      StepKeepsInv(t, es[|es| - 1]);
      if Intact(s) {
        StepKeepsIntact(t, es[|es| - 1]);
      }
    }
  }

  lemma SmallCounts(x: u32)
    requires x < 0x4_0000
    ensures Add32(x, 1) == x + 1
    ensures x > 0 ==> Sub32(x, 1) == x - 1
  {
  }

  lemma ReapCounts(s: Tx)
    requires Inv(s)
    ensures var t, one := Step(s, Event.Reap), if s.completed > s.reaped then 1 else 0;
            Inv(t) && t.outstanding == s.outstanding - one && t.npkts == s.npkts + one
  {
    StepKeepsInv(s, Event.Reap);
  }

  lemma CountUp(c: nat, one: nat)
    ensures ToU64(c + one) == ToU64(ToU64(c) + one)
  {
    ModShift(ToU64(c) + one, W64, c / W64);
  }

  predicate SmallCounters(s: Tx) { s.outstanding <= 2 * s.n < 0x2_0000 && s.curTx < s.n }

  /** The ring after descriptor `d` was written at ring index `idx` and submitted. */
  function WithDesc(r: Ring<TxDesc>, idx: u32, d: TxDesc): Ring<TxDesc>
    requires |r.slots| > 0
  {
    Submit(r.(slots := r.slots[Mask(idx, |r.slots|) := d]), 1)
  }

  /** Reserving, writing and submitting one descriptor adds it to the ring, if there was room. */
  lemma RingPost(r: Ring<TxDesc>, posted: nat, taken: nat, d: TxDesc)
    requires Fills(r, posted, posted, taken)
    ensures Reserve(r, 1).1.slots == r.slots
    ensures Reserve(r, 1).0.Granted? <==> posted < taken + |r.slots|
    ensures Reserve(r, 1).0.Refused? ==> Fills(Reserve(r, 1).1, posted, posted, taken)
    ensures Reserve(r, 1).0.Granted? ==>
              var t := WithDesc(Reserve(r, 1).1, Reserve(r, 1).0.idx, d);
              t.slots == r.slots[posted % |r.slots| := d] && Fills(t, posted + 1, posted + 1, taken)
  {
    ReserveIsExact(r, posted, posted, taken, 1);
    var got, r1 := Reserve(r, 1).0, Reserve(r, 1).1;
    if got.Granted? {
      SubmitFills(r1.(slots := r1.slots[Mask(got.idx, |r.slots|) := d]), posted + 1, posted, taken, 1);
    }
  }

  class TxSocket {
    const n: u32
    const frameSize: nat
    const umem: array<byte>

    var tx: Ring<TxDesc>
    var comp: Ring<nat>
    var inKernel: seq<TxDesc>  // taken and not yet reported complete
    var sent: nat              // how many of those are already on the wire
    var curTx: u32
    var outstandingTx: u32
    var txNpkts: u64

    ghost var m: Tx  // the same socket with counters that never wrap

    ghost predicate Valid()
      reads this, umem
    {
      && Inv(m) && m.n == n < 0x1_0000 && m.frameSize == frameSize
      && umem.Length == n * frameSize && FramesMatch(m.frames, umem[..], n, frameSize)
      && tx.slots == m.ring && comp.slots == m.comp && inKernel == m.taken[m.completed..]
      && sent == |m.wire| - m.completed
      && Fills(tx, |m.posted|, |m.posted|, |m.taken|)
      && Drains(comp, m.completed, m.reaped, m.reaped)
      && curTx == m.curTx && outstandingTx == m.outstanding && txNpkts == ToU64(m.npkts)
    }

    constructor (frames: u32, frameSize: nat, umem: array<byte>)
      requires RingSize(frames) && frames < 0x1_0000 && frameSize > 0 && umem.Length == frames * frameSize
      ensures Valid() && Intact(m) && m.posted == [] && this.umem == umem
      ensures n == frames && this.frameSize == frameSize
    {
      n, this.frameSize, this.umem := frames, frameSize, umem;
      tx := Ring(seq(frames, _ => TxDesc(0, 0, 0)), 0, 0, 0, frames);
      comp := Ring(seq(frames, _ => 0), 0, 0, 0, 0);
      inKernel, sent, curTx, outstandingTx, txNpkts := [], 0, 0, 0, 0;
      ghost var bytes := umem[..];
      ghost var mem := FrameMap(bytes, frames, frameSize, frames);
      m := Start(frames, frameSize, mem);
      StartHolds(frames, frameSize, mem);
    }

    /** Any number of kernel steps between two accesses of the program. */
    method Kernel(es: seq<Event>)
      requires Valid() && KernelOnly(es)
      modifies this`tx, this`comp, this`inKernel, this`sent, this`m
      ensures Valid() && m == Run(old(m), es)
    {
      var i := 0;
      assert es[..0] == [];
      while i < |es|
        invariant 0 <= i <= |es|
        invariant Valid() && m == Run(old(m), es[..i])
      {
        assert es[..i + 1] == es[..i] + [es[i]];
        RunThen(old(m), es[..i], es[i]);
        KernelStep(es[i]);
        i := i + 1;
      }
      assert es[..|es|] == es;
    }

    method KernelStep(e: Event)
      requires Valid() && (e.TakeDesc? || e.Transmit? || e.Complete?)
      modifies this`tx, this`comp, this`inKernel, this`sent, this`m
      ensures Valid() && m == Step(old(m), e)
    {
      StepKeepsInv(m, e);
      match e
      case TakeDesc =>
        TakeStep();
      case Transmit =>
        TransmitStep();
      case Complete =>
        CompleteStep();
    }

    /** Takes a descriptor if one is posted and its completion will find room. */
    method TakeStep()
      requires Valid()
      modifies this`tx, this`inKernel, this`m
      ensures Valid() && m == Step(old(m), TakeDesc)
    {
      StepKeepsInv(m, TakeDesc);
      DifferenceSurvivesWrap(|m.posted|, |m.taken|);
      DifferenceSurvivesWrap(m.completed, m.reaped);
      MaskIgnoresWrap(|m.taken|, n);
      var reserved := |inKernel| + Sub32(comp.producer, comp.consumer);
      assert reserved == |m.taken| - m.reaped;
      if Sub32(tx.producer, tx.consumer) > 0 && reserved < n {
        inKernel := inKernel + [tx.slots[Mask(tx.consumer, n)]];
        ConsumeFills(tx, |m.posted|, |m.posted|, |m.taken|);
        tx := Consume(tx);
      }
      m := Step(m, TakeDesc);
    }

    method TransmitStep()
      requires Valid()
      modifies this`sent, this`m
      ensures Valid() && m == Step(old(m), Transmit)
    {
      StepKeepsInv(m, Transmit);
      if sent < |inKernel| {
        assert CanSend(m, m.taken[|m.wire|]) by {
          var j := |m.wire|;
          assert m.taken[j] == m.posted[j].desc;
          assert (j % m.n) * m.frameSize in m.frames;
        }
        sent := sent + 1;
      }
      m := Step(m, Transmit);
    }

    /** Reports the oldest transmitted descriptor complete. */
    method CompleteStep()
      requires Valid()
      modifies this`comp, this`inKernel, this`sent, this`m
      ensures Valid() && m == Step(old(m), Complete)
    {
      StepKeepsInv(m, Complete);
      if sent > 0 {
        ProduceDrains(comp, m.completed, m.reaped, m.reaped, inKernel[0].addr);
        comp := Produce(comp, inKernel[0].addr);
        inKernel, sent := inKernel[1..], sent - 1;
      }
      m := Step(m, Complete);
    }

    /** Copies `data` into the current frame, `offset` bytes in. */
    method Memcpy(offset: nat, data: seq<byte>)
      requires Valid() && offset + |data| <= frameSize
      modifies umem, this`m
      ensures Valid() && m == Step(old(m), Write(offset, data)) && CanWrite(old(m), offset, data)
    {
      ghost var before := umem[..];
      assert m.curTx * m.frameSize in m.frames;
      FrameInside(curTx, n, frameSize);
      var at := curTx * frameSize + offset;
      forall i | 0 <= i < |data| {
        umem[at + i] := data[i];
      }
      assert Copied(before, umem[..], at, data);
      CopyStaysInFrame(before, umem[..], n, frameSize, curTx, curTx * frameSize, offset, data);
      StepKeepsInv(m, Write(offset, data));
      m := Step(m, Write(offset, data));
      forall f | 0 <= f < n
        ensures f * frameSize in m.frames && m.frames[f * frameSize] == FrameBytes(umem[..], n, frameSize, f)
      {
        if f != curTx {
          FramesApart(f, curTx, frameSize);
        }
      }
    }

    /** `prefill_tx_umem_rings`: every frame begins with `example`. Nothing has been posted yet. */
    method Prefill(example: seq<byte>)
      requires Valid() && m.posted == [] && |example| <= frameSize
      modifies umem, this`m
      ensures Valid() && Intact(m) && m == old(m).(frames := m.frames)
      ensures forall f | 0 <= f < n :: f * frameSize in m.frames && example <= m.frames[f * frameSize]
    {
      FillFrames(example);
      ghost var bytes := umem[..];
      m := m.(frames := FrameMap(bytes, n, frameSize, n));
      forall f | 0 <= f < n
        ensures example <= m.frames[f * frameSize]
      {
        assert m.frames[f * frameSize] == FrameBytes(bytes, n, frameSize, f);
      }
    }

    /** The loop over the frames. */
    method FillFrames(example: seq<byte>)
      requires umem.Length == n * frameSize && frameSize > 0 && |example| <= frameSize
      modifies umem
      ensures forall f | 0 <= f < n :: example <= FrameBytes(umem[..], n, frameSize, f)
    {
      var i := 0;
      while i < n
        invariant 0 <= i <= n
        invariant forall f | 0 <= f < i :: example <= FrameBytes(umem[..], n, frameSize, f)
      {
        ghost var before := umem[..];
        FrameInside(i, n, frameSize);
        var at := i * frameSize;
        forall k | 0 <= k < |example| {
          umem[at + k] := example[k];
        }
        assert Copied(before, umem[..], at + 0, example);
        CopyStaysInFrame(before, umem[..], n, frameSize, i, at, 0, example);
        i := i + 1;
      }
    }

    /** Reserves a tx slot; if granted, fills in the descriptor, submits it and moves on. */
    method PostRaw(len: nat, txtime: nat, wrap: u32, ghost posted: nat, ghost taken: nat) returns (granted: bool)
      requires Fills(tx, posted, posted, taken) && |tx.slots| == n && wrap > 0
      requires outstandingTx < 0x4_0000 && curTx < 0x4_0000
      modifies this`tx, this`outstandingTx, this`curTx
      ensures granted <==> posted < taken + n
      ensures !granted ==>
                tx.slots == old(tx.slots) && Fills(tx, posted, posted, taken)
                && outstandingTx == old(outstandingTx) && curTx == old(curTx)
      ensures granted ==>
                && tx.slots == old(tx.slots)[posted % n := TxDesc(old(curTx) * frameSize, len, txtime)]
                && Fills(tx, posted + 1, posted + 1, taken)
                && outstandingTx == old(outstandingTx) + 1 && curTx == (old(curTx) + 1) % wrap
    {
      var desc := TxDesc(curTx * frameSize, len, txtime);
      RingPost(tx, posted, taken, desc);
      var got := Reserve(tx, 1).0;
      tx, granted := Reserve(tx, 1).1, got.Granted?;
      if granted {
        SmallCounts(outstandingTx);
        SmallCounts(curTx);
        ghost var reserved := tx;
        tx := tx.(slots := tx.slots[Mask(got.idx, n) := desc]);
        tx := Submit(tx, 1);
        assert tx == WithDesc(reserved, got.idx, desc);
        outstandingTx := Add32(outstandingTx, 1);
        curTx := Add32(curTx, 1);
        curTx := curTx % wrap;
      }
    }

    method PostOne(len: nat, txtime: nat, wrap: u32) returns (granted: bool)
      requires Valid() && len <= frameSize && wrap == n
      modifies this`tx, this`outstandingTx, this`curTx, this`m
      ensures Valid() && m == Step(old(m), Post(len, txtime)) && granted == CanPost(old(m), len)
    {
      assert m.curTx * m.frameSize in m.frames;
      assert SmallCounters(m);
      StepKeepsInv(m, Post(len, txtime));
      granted := PostRaw(len, txtime, wrap, |m.posted|, |m.taken|);
      m := Step(m, Post(len, txtime));
    }

    /** `update_txstats`: at most one completion is accounted for. */
    method Reap()
      requires Valid()
      modifies this`comp, this`outstandingTx, this`txNpkts, this`m
      ensures Valid() && m == Step(old(m), Event.Reap)
      ensures var one := if old(m).completed > old(m).reaped then 1 else 0;
              outstandingTx == old(outstandingTx) - one && txNpkts == ToU64(old(txNpkts) + one)
    {
      ReapCounts(m);
      CountUp(m.npkts, if m.completed > m.reaped then 1 else 0);
      ReapOne();
    }

    method ReapOne()
      requires Valid()
      modifies this`comp, this`outstandingTx, this`txNpkts, this`m
      ensures Valid() && m == Step(old(m), Event.Reap)
    {
      StepKeepsInv(m, Event.Reap);
      assert m.outstanding <= 2 * m.n;
      SmallCounts(outstandingTx);
      if outstandingTx == 0 {
        return;
      }
      PeekIsExact(comp, m.completed, m.reaped, m.reaped);
      var (rcvd, comp') := Peek(comp);
      comp := comp';
      if rcvd.Granted? {
        ReleaseDrains(comp, m.completed, m.reaped + 1, m.reaped, 1);
        comp := Release(comp, 1);
        outstandingTx := Sub32(outstandingTx, 1);
        ModShift(ToU64(m.npkts) + 1, W64, m.npkts / W64);
        txNpkts := ToU64(txNpkts + 1);
      }
      m := Step(m, Event.Reap);
    }
  }
}
