/** `src/txrx-afxdp.c`, receiving side: receiving one packet at a time. */
module AfxdpReceive {
  import opened Words
  import opened Rings
  import opened XskReceive
  import opened XskSocket

  /**
   What `afxdp_recv_pkt` looks at in a frame, in host byte order: header words as loaded from the packed
   struct, the payload fields, and the eight bytes in front of the packet.
   */
  datatype TsnFrame = TsnFrame(
    vlanHdr: nat, vlanPrio: byte, ethHdr: nat,
    txQueue: u32, seq_: u32, txTimestampA: u64, hwTimestamp: u64)

  datatype Row = Row(latency: u64, seq_: u32, txQueue: u32, txTimestampA: u64, hwTimestamp: u64, rxTimestampD: u64)

  const MAX_SEQ := 50 * 1000 * 1000

  /** `htons(0xb62c)` on a little-endian host. */
  const UADP_ETHERTYPE := 0x2cb6

  predicate Counted(f: TsnFrame) {
    && (f.vlanHdr == 0x81 || f.vlanHdr == 0x08)
    && f.ethHdr == UADP_ETHERTYPE
    && 0 < f.seq_ < MAX_SEQ
    && f.vlanPrio / 32 < 8
  }

  /** The lines printed for one descriptor: a zero-length packet is only warned about. */
  function Report(a: Arrival<TsnFrame>, now: u64): seq<Row> {
    if a.len == 0 || !Counted(a.frame) then []
    else [Row(ToU64(now - a.frame.txTimestampA), a.frame.seq_, a.frame.txQueue,
              a.frame.txTimestampA, a.frame.hwTimestamp, now)]
  }

  /** The packets that get a line, by the header words, the length and the number they carry. */
  predicate GetsLine(a: Arrival<TsnFrame>) {
    && a.len > 0 && a.frame.vlanHdr in {0x81, 0x08} && a.frame.ethHdr == 0x2cb6
    && 1 <= a.frame.seq_ <= 49_999_999
  }

  /**
   A line about a packet: the send time plus the latency is the time of reading, and the rest is what the packet
   and the device said.
   */
  predicate Measures(r: Row, f: TsnFrame, now: u64) {
    && ToU64(r.txTimestampA + r.latency) == r.rxTimestampD == now
    && r.seq_ == f.seq_ && r.txQueue == f.txQueue && r.txTimestampA == f.txTimestampA
    && r.hwTimestamp == f.hwTimestamp
  }

  lemma ReportMeasures(a: Arrival<TsnFrame>, now: u64)
    ensures if GetsLine(a) then |Report(a, now)| == 1 && Measures(Report(a, now)[0], a.frame, now)
            else Report(a, now) == []
  {
    var d := now - a.frame.txTimestampA;
    assert a.frame.txTimestampA + ToU64(d) == W64 * -(d / W64) + now;
    ModUnique(a.frame.txTimestampA + ToU64(d), W64, -(d / W64), now);
  }

  /** What reading a packet adds to the output and to the last number seen. */
  ghost predicate Printed(before: seq<Row>, after: seq<Row>, seqBefore: u32, seqAfter: u32,
                          a: Arrival<TsnFrame>, now: u64) {
    if GetsLine(a) then
      && |after| == |before| + 1 && after[..|before|] == before && Measures(after[|before|], a.frame, now)
      && seqAfter == a.frame.seq_
    else after == before && seqAfter == seqBefore
  }

  /** Everything returned: nothing peeked, reserved or read is still pending. */
  ghost predicate Idle<P>(s: Rx<P>) {
    s.released == s.submitted == |s.read| == s.reserved == s.peeked
  }

  /** The five shared-memory accesses of one receive, with kernel activity between any two of them. */
  function ReceiveSteps<P>(k: seq<seq<Event<P>>>): seq<Event<P>>
    requires |k| == 4
  {
    [PeekRx] + k[0] + [ReserveFill] + k[1] + [ReadFrame] + k[2] + [SubmitFill] + k[3] + [ReleaseRx]
  }

  function Claimed<P>(s: Rx<P>, k0: seq<Event<P>>, k1: seq<Event<P>>): Rx<P>
    requires Shaped(s)
  {
    Run(Step(Run(s, k0), ReserveFill), k1)
  }

  function GivenBack<P>(s: Rx<P>, k2: seq<Event<P>>, k3: seq<Event<P>>): Rx<P>
    requires Shaped(s)
  {
    Step(Run(Step(Run(s, k2), SubmitFill), k3), ReleaseRx)
  }

  function Processed<P>(s: Rx<P>, k: seq<seq<Event<P>>>): Rx<P>
    requires Shaped(s) && |k| == 4
  {
    GivenBack(Step(Claimed(s, k[0], k[1]), ReadFrame), k[2], k[3])
  }

  function Received<P>(s: Rx<P>, k: seq<seq<Event<P>>>): Rx<P>
    requires Shaped(s) && |k| == 4
  {
    Processed(Step(s, PeekRx), k)
  }

  lemma ReceiveUnrolls<P>(s: Rx<P>, k: seq<seq<Event<P>>>)
    requires Shaped(s) && |k| == 4
    ensures Run(s, ReceiveSteps(k)) == Received(s, k)
  {
    var e1 := [PeekRx] + k[0];
    var e2 := e1 + [ReserveFill] + k[1];
    var e3 := e2 + [ReadFrame] + k[2];
    var e4 := e3 + [SubmitFill] + k[3];
    RunThen(s, [], PeekRx);
    assert [] + [PeekRx] == [Event<P>.PeekRx];
    RunConcat(s, [PeekRx], k[0]);
    RunThen(s, e1, ReserveFill);
    RunConcat(s, e1 + [ReserveFill], k[1]);
    RunThen(s, e2, ReadFrame);
    RunConcat(s, e2 + [ReadFrame], k[2]);
    RunThen(s, e3, SubmitFill);
    RunConcat(s, e3 + [SubmitFill], k[3]);
    RunThen(s, e4, ReleaseRx);
  }

  class Receiver {
    const xsk: RxSocket<TsnFrame>
    var globRxSeq: u32
    var printed: seq<Row>

    constructor (xsk: RxSocket<TsnFrame>)
      ensures this.xsk == xsk && printed == [] && globRxSeq == 0
    {
      this.xsk, printed, globRxSeq := xsk, [], 0;
    }

    /**
     `afxdp_recv_pkt`, with kernel activity `k` between its accesses to shared memory. With nothing waiting
     it changes nothing. Otherwise it reports the oldest packet not read yet exactly as the kernel stored
     it, and gives the frame back.
     */
    method RecvPkt(k: seq<seq<Event<TsnFrame>>>, now: u64)
      requires xsk.Valid() && Idle(xsk.m)
      requires |k| == 4 && forall i | 0 <= i < 4 :: KernelOnly(k[i])
      modifies this, xsk
      ensures xsk.Valid() && Idle(xsk.m)
      ensures old(Unread(xsk.m)) == 0 ==>
                xsk.m == old(xsk.m) && printed == old(printed) && globRxSeq == old(globRxSeq)
      ensures old(Unread(xsk.m)) > 0 ==>
                && xsk.m == Run(old(xsk.m), ReceiveSteps(k))
                && Reported(old(xsk.m), old(printed), old(globRxSeq), now)
                && Printed(old(printed), printed, old(globRxSeq), globRxSeq,
                           old(xsk.m).delivered[|old(xsk.m).read|], now)
    {
      if Unread(xsk.m) > 0 {
        ReportMeasures(xsk.m.delivered[|xsk.m.read|], now);
      }
      ReceiveUnrolls(xsk.m, k);
      var rcvd := xsk.PeekOne();
      if rcvd.Granted? {
        Process(rcvd.idx, k, now);
      }
    }

    /** The part of `afxdp_recv_pkt` after a successful peek. */
    method Process(idx: u32, k: seq<seq<Event<TsnFrame>>>, now: u64)
      requires xsk.Valid() && xsk.m.released == xsk.m.submitted == |xsk.m.read| == xsk.m.reserved
      requires xsk.m.reserved + 1 == xsk.m.peeked && Mask(idx, xsk.n) == |xsk.m.read| % xsk.n
      requires |k| == 4 && forall i | 0 <= i < 4 :: KernelOnly(k[i])
      modifies this, xsk
      ensures xsk.Valid() && Idle(xsk.m) && xsk.m == Processed(old(xsk.m), k)
      ensures Reported(old(xsk.m), old(printed), old(globRxSeq), now)
    {
      Claim(k[0], k[1]);
      Print(idx, now);
      SubmitAfter(k[2]);
      ReleaseAfter(k[3]);
    }

    method Print(idx: u32, now: u64)
      requires xsk.Valid() && |xsk.m.read| < xsk.m.reserved && Mask(idx, xsk.n) == |xsk.m.read| % xsk.n
      modifies this, xsk`m
      ensures xsk.Valid() && xsk.m == Step(old(xsk.m), ReadFrame)
      ensures Reported(old(xsk.m), old(printed), old(globRxSeq), now)
      ensures Printed(old(printed), printed, old(globRxSeq), globRxSeq,
                      old(xsk.m).delivered[|old(xsk.m).read|], now)
    {
      var a := xsk.ReadOne(idx);
      ReportMeasures(a, now);
      if a.len != 0 && Counted(a.frame) {
        printed := printed + Report(a, now);
        globRxSeq := a.frame.seq_;
      }
    }

    /** The packet at the head of the rx ring was read once and printed. */
    ghost predicate Reported(was: Rx<TsnFrame>, printedBefore: seq<Row>, seqBefore: u32, now: u64)
      requires |was.read| < |was.delivered|
      reads this, xsk
    {
      var a := was.delivered[|was.read|];
      && xsk.m.read == was.read + [a]
      && printed == printedBefore + Report(a, now)
      && globRxSeq == (if Report(a, now) == [] then seqBefore else a.frame.seq_)
    }

    /** Reserves the replacing fill slot, retrying until it is granted. */
    method Claim(k0: seq<Event<TsnFrame>>, k1: seq<Event<TsnFrame>>)
      requires xsk.Valid() && xsk.m.reserved + 1 == xsk.m.peeked && KernelOnly(k0) && KernelOnly(k1)
      modifies xsk
      ensures xsk.Valid() && xsk.m == Claimed(old(xsk.m), k0, k1)
      ensures SameProgram(old(xsk.m).(reserved := old(xsk.m.peeked)), xsk.m)
    {
      xsk.Kernel(k0);
      Retry();
      xsk.Kernel(k1);
    }

    /** The retry loop. */
    method Retry()
      requires xsk.Valid() && xsk.m.reserved + 1 == xsk.m.peeked
      modifies xsk
      ensures xsk.Valid() && xsk.m == Step(old(xsk.m), ReserveFill) && xsk.m.reserved == old(xsk.m.reserved) + 1
    {
      var ret := Refused;
      while ret.Refused?
        invariant xsk.Valid() && xsk.m.reserved == old(xsk.m.reserved) + (if ret.Refused? then 0 else 1)
        invariant xsk.m == if ret.Refused? then old(xsk.m) else Step(old(xsk.m), ReserveFill)
        decreases if ret.Refused? then 1 else 0
      {
        ret := xsk.ReserveOne();
      }
    }

    /** Submits the fill slot. */
    method SubmitAfter(k2: seq<Event<TsnFrame>>)
      requires xsk.Valid() && xsk.m.submitted + 1 == |xsk.m.read| && KernelOnly(k2)
      modifies xsk
      ensures xsk.Valid() && xsk.m == Step(Run(old(xsk.m), k2), SubmitFill)
      ensures SameProgram(old(xsk.m).(submitted := |old(xsk.m).read|), xsk.m)
    {
      xsk.Kernel(k2);
      xsk.SubmitOne();
    }

    /** Releases the descriptor. */
    method ReleaseAfter(k3: seq<Event<TsnFrame>>)
      requires xsk.Valid() && xsk.m.released + 1 == xsk.m.submitted && KernelOnly(k3)
      modifies xsk
      ensures xsk.Valid() && xsk.m == Step(Run(old(xsk.m), k3), ReleaseRx)
      ensures SameProgram(old(xsk.m).(released := old(xsk.m.submitted)), xsk.m)
    {
      xsk.Kernel(k3);
      xsk.ReleaseOne();
    }
  }
}
