/** An AF_XDP socket with its receive rings and frames, as user programs hold it: wrapped 32-bit words and all. */
module XskSocket {
  import opened Words
  import opened Rings
  import opened XskReceive

  /** Writes the address of every frame into the reserved slots, starting at ring index `start`. */
  method WriteAddrs(slots: seq<nat>, start: u32, stride: nat) returns (filled: seq<nat>)
    requires RingSize(|slots|) && start == 0
    ensures |filled| == |slots| && forall k | 0 <= k < |slots| :: filled[k] == k * stride
  {
    filled := slots;
    var idx, i := start, 0;
    while i < |slots|
      invariant 0 <= i <= |slots| == |filled| && idx == i
      invariant forall k | 0 <= k < i :: filled[k] == k * stride
    {
      ModUnique(i, |slots|, 0, i);
      filled := filled[Mask(idx, |slots|) := i * stride];
      ModUnique(i + 1, W32, 0, i + 1);
      idx := Add32(idx, 1);
      i := i + 1;
    }
  }

  /** Reserves the whole fill ring, writes the address of every frame into it and submits it. */
  method PopulateFill(frames: u32, stride: nat) returns (ok: bool, fill: Ring<nat>)
    requires RingSize(frames)
    ensures ok && Fills(fill, frames, frames, 0)
    ensures |fill.slots| == frames && forall k | 0 <= k < frames :: fill.slots[k] == k * stride
  {
    var empty := Ring(seq<nat>(frames, _ => 0), 0, 0, 0, frames);
    ReserveIsExact(empty, 0, 0, 0, frames);
    var (grant, reserved) := Reserve(empty, frames);
    ok := grant.Granted?;
    var filled := WriteAddrs(reserved.slots, if ok then grant.idx else 0, stride);
    fill := reserved.(slots := filled);
    SubmitFills(fill, frames, 0, 0, frames);
    fill := Submit(fill, frames);
  }

  lemma CountWraps(c: nat)
    ensures ToU64(ToU64(c) + 1) == ToU64(c + 1)
  {
    ModShift(ToU64(c) + 1, W64, c / W64);
  }

  class RxSocket<P> {
    const n: u32
    const frameSize: nat

    var fill: Ring<nat>
    var rx: Ring<Desc>
    var umem: map<nat, P>
    var held: seq<nat>  // frames inside the kernel
    var rxNpkts: u64

    ghost var m: Rx<P>  // the same socket with counters that never wrap

    ghost predicate Valid()
      reads this
    {
      && Inv(m) && m.n == n && m.frameSize == frameSize
      && fill.slots == m.fill && rx.slots == m.rx && umem == m.umem && held == m.held
      && Fills(fill, n + m.reserved, n + m.submitted, m.taken)
      && Drains(rx, |m.delivered|, m.peeked, m.released)
      && rxNpkts == ToU64(m.released)
    }

    constructor (frames: u32, frameSize: nat, umem: map<nat, P>)
      requires RingSize(frames) && frameSize > 0
      ensures Valid() && n == frames && this.frameSize == frameSize
      ensures m == Start(frames, frameSize, umem, seq(frames, _ => Desc(0, 0)))
    {
      var ok, filled := PopulateFill(frames, frameSize);
      n, this.frameSize := frames, frameSize;
      fill := filled;
      rx := Ring(seq(frames, _ => Desc(0, 0)), 0, 0, 0, 0);
      this.umem, held, rxNpkts := umem, [], 0;
      m := Start(frames, frameSize, umem, seq(frames, _ => Desc(0, 0)));
      StartHolds(frames, frameSize, umem, seq<Desc>(frames, _ => Desc(0, 0)));
    }

    /** Any number of kernel steps, taken while the program is between two accesses. */
    method Kernel(es: seq<Event<P>>)
      requires Valid() && KernelOnly(es)
      modifies this`fill, this`rx, this`umem, this`held, this`m
      ensures Valid() && m == Run(old(m), es) && SameProgram(old(m), m)
    {
      var i := 0;
      assert es[..0] == [];
      while i < |es|
        invariant 0 <= i <= |es|
        invariant Valid() && m == Run(old(m), es[..i])
      {
        assert es[..i + 1] == es[..i] + [es[i]];
        RunThen(old(m), es[..i], es[i]);
        StepKeepsInv(m, es[i]);
        KernelStep(es[i]);
        i := i + 1;
      }
      assert es[..|es|] == es;
      KernelRunsAside(old(m), es);
    }

    method KernelStep(e: Event<P>)
      requires Valid() && (e.TakeFill? || e.Deliver?)
      modifies this`fill, this`rx, this`umem, this`held, this`m
      ensures Valid() && m == Step(old(m), e)
    {
      match e
      case TakeFill =>
        TakeStep();
      case Deliver(p) =>
        DeliverStep(p);
    }

    /** The kernel takes the oldest fill entry, if any; the two shared words differ by the number waiting. */
    method TakeStep()
      requires Valid()
      modifies this`fill, this`held, this`m
      ensures Valid() && m == Step(old(m), TakeFill)
    {
      StepKeepsInv(m, TakeFill);
      DifferenceSurvivesWrap(n + m.submitted, m.taken);
      if Sub32(fill.producer, fill.consumer) > 0 {
        MaskIgnoresWrap(m.taken, n);
        held := held + [fill.slots[Mask(fill.consumer, n)]];
        ConsumeFills(fill, n + m.reserved, n + m.submitted, m.taken);
        fill := Consume(fill);
      }
      m := Step(m, TakeFill);
    }

    /** The kernel stores a packet in the frame held longest and adds a descriptor, if there is room. */
    method DeliverStep(p: Arrival<P>)
      requires Valid()
      modifies this`rx, this`umem, this`held, this`m
      ensures Valid() && m == Step(old(m), Deliver(p))
    {
      StepKeepsInv(m, Deliver(p));
      DifferenceSurvivesWrap(|m.delivered|, m.released);
      if held != [] && Sub32(rx.producer, rx.consumer) < n {
        umem := umem[held[0] := p.frame];
        ProduceDrains(rx, |m.delivered|, m.peeked, m.released, Desc(held[0], p.len));
        rx := Produce(rx, Desc(held[0], p.len));
        held := held[1..];
        assert m.held[..0] + m.held[1..] == m.held[1..];
      }
      m := Step(m, Deliver(p));
    }

    /** `xsk_ring_cons__peek` for one descriptor: granted exactly when a packet is waiting. */
    method PeekOne() returns (got: Grant)
      requires Valid() && m.reserved == m.peeked
      modifies this`rx, this`m
      ensures Valid() && m == Step(old(m), PeekRx)
      ensures got.Granted? <==> old(Unread(m)) > 0
      ensures got.Granted? ==> m.peeked == old(m.peeked) + 1 && Mask(got.idx, n) == old(m.peeked) % n
    {
      PeekIsExact(rx, |m.delivered|, m.peeked, m.released);
      got, rx := Peek(rx).0, Peek(rx).1;
      StepKeepsInv(m, PeekRx);
      m := Step(m, PeekRx);
    }

    /** `xsk_ring_prod__reserve` for one fill slot: after a successful peek it is always granted. */
    method ReserveOne() returns (got: Grant)
      requires Valid() && m.reserved + 1 == m.peeked
      modifies this`fill, this`m
      ensures Valid() && m == Step(old(m), ReserveFill) && m.reserved == old(m.reserved) + 1
      ensures got.Granted?
    {
      PeekImpliesRoom(m);
      StepKeepsInv(m, ReserveFill);
      ReserveIsExact(fill, n + m.reserved, n + m.submitted, m.taken, 1);
      got, fill := Reserve(fill, 1).0, Reserve(fill, 1).1;
      m := Step(m, ReserveFill);
    }

    /** Loads the descriptor the last peek returned, and the frame it names. */
    method ReadOne(idx: u32) returns (a: Arrival<P>)
      requires Valid() && |m.read| < m.reserved && Mask(idx, n) == |m.read| % n
      modifies this`m
      ensures Valid() && m == Step(old(m), ReadFrame)
      ensures a == m.delivered[|old(m.read)|] && m.read == old(m.read) + [a]
    {
      var d := rx.slots[Mask(idx, n)];
      assert d == m.rx[|m.read| % m.n] == Desc(Addr(m, |m.read|), m.delivered[|m.read|].len);
      a := Arrival(umem[d.addr], d.len);
      StepKeepsInv(m, ReadFrame);
      m := Step(m, ReadFrame);
    }

    /** `xsk_ring_prod__submit` for one fill slot. */
    method SubmitOne()
      requires Valid() && m.submitted < |m.read|
      modifies this`fill, this`m
      ensures Valid() && m == Step(old(m), SubmitFill) && m.submitted == old(m.submitted) + 1
    {
      SubmitFills(fill, n + m.reserved, n + m.submitted, m.taken, 1);
      fill := Submit(fill, 1);
      StepKeepsInv(m, SubmitFill);
      m := Step(m, SubmitFill);
    }

    /** `xsk_ring_cons__release` for one descriptor, and the packet count. */
    method ReleaseOne()
      requires Valid() && m.released < m.submitted
      modifies this`rx, this`rxNpkts, this`m
      ensures Valid() && m == Step(old(m), ReleaseRx) && m.released == old(m.released) + 1
    {
      ReleaseDrains(rx, |m.delivered|, m.peeked, m.released, 1);
      rx := Release(rx, 1);
      CountWraps(m.released);
      rxNpkts := ToU64(rxNpkts + 1);
      StepKeepsInv(m, ReleaseRx);
      m := Step(m, ReleaseRx);
    }
  }
}
