/** `src/txrx-afxdp.c`, sending side: the thread that prefills the frames and sends numbered packets on a schedule. */
module AfxdpSend {
  import opened Words
  import opened LittleEndian
  import opened XskTransmit
  import opened XskSender
  import opened XskSend
  import Schedule
  import opened XskOverrun
  import RxExit

  /** `struct custom_payload` up to the sender's time, in front of whatever else the buffer holds. */
  function Buffer(queue: u32, number: nat, now: u64, rest: seq<byte>): (b: seq<byte>)
    ensures |b| == 16 + |rest|
  {
    Bytes4(queue) + Bytes4(ToU32(number)) + Bytes8(now) + rest
  }

  /** What one turn meets: the clock, `poll`, the kernel before and after the submission, and `sendto`. */
  datatype Turn = Turn(now: u64, ready: bool, k0: seq<Event>, k1: seq<Event>, kicked: bool)

  predicate AllKernel(turns: seq<Turn>) {
    forall i | 0 <= i < |turns| :: KernelOnly(turns[i].k0) && KernelOnly(turns[i].k1)
  }

  /** The packet sent on turn `i`: the template header, then as much of the buffer as the packet size leaves. */
  function Packet(header: seq<byte>, queue: u32, i: nat, now: u64, rest: seq<byte>): (p: seq<byte>)
    requires |header| == VLAN_HEADER && |rest| >= 2
    ensures |p| == 16 + |rest|
  {
    header + Buffer(queue, i, now, rest)[..|rest| - 2]
  }

  /** The receiver finds the number in the packet, at the place of `seq`. */
  lemma NumberOfPacket(header: seq<byte>, queue: u32, i: nat, now: u64, rest: seq<byte>)
    requires |header| == VLAN_HEADER && |rest| >= 18
    ensures Value4(Packet(header, queue, i, now, rest)[22..26]) == ToU32(i)
    ensures Value8(Packet(header, queue, i, now, rest)[26..34]) == now
  {
    var p := Packet(header, queue, i, now, rest);
    assert p[22..26] == Bytes4(ToU32(i)) && p[26..34] == Bytes8(now);
    Value4OfBytes(ToU32(i));
    Value8OfBytes(now);
  }

  /** What the thread was started with; `first` is the launch time of turn 0. */
  datatype Config = Config(
    header: seq<byte>, queue: u32, rest: seq<byte>, first: nat, interval: nat, enableTxtime: bool)

  predicate Fits(c: Config, frameSize: nat) {
    |c.header| == VLAN_HEADER && |c.rest| >= 18 && 16 + |c.rest| <= frameSize
  }

  function LaunchOf(c: Config, i: nat): u64 {
    if c.enableTxtime then ToU64(c.first + i * c.interval) else 0
  }

  /** With launch times asked for, the first packet goes at `first` and each an interval after the one before. */
  lemma LaunchMeans(c: Config, i: nat)
    ensures !c.enableTxtime ==> LaunchOf(c, i) == 0
    ensures c.enableTxtime ==> LaunchOf(c, 0) == ToU64(c.first)
    ensures c.enableTxtime ==> LaunchOf(c, i + 1) == ToU64(LaunchOf(c, i) + c.interval)
  {
    assert 0 * c.interval == 0;
    Schedule.OneCycle(c.first, c.interval, i, 0);
  }

  /** As much of the buffer as the packet size leaves behind the header. */
  function Data(c: Config, t: Turn, i: nat): (d: seq<byte>)
    requires |c.rest| >= 2
    ensures |d| == |c.rest| - 2
  {
    Buffer(c.queue, i, t.now, c.rest)[..|c.rest| - 2]
  }

  /** What turn `i` sends. */
  function SendOf(c: Config, t: Turn, i: nat): Send
    requires |c.rest| >= 2
  {
    Send([], [], VLAN_HEADER, Data(c, t, i), LaunchOf(c, i), t.k0, t.k1, t.kicked)
  }

  /** The turns before `k` on which polling reports room. */
  function ReadyTurns(turns: seq<Turn>, k: nat): (s: seq<nat>)
    requires k <= |turns|
    ensures forall j | 0 <= j < |s| :: s[j] < k
  {
    if k == 0 then []
    else ReadyTurns(turns, k - 1) + (if turns[k - 1].ready then [k - 1] else [])
  }

  function SendsOf(c: Config, turns: seq<Turn>, k: nat): (xs: seq<Send>)
    requires |c.rest| >= 2 && k <= |turns|
  {
    if k == 0 then []
    else SendsOf(c, turns, k - 1) + (if turns[k - 1].ready then [SendOf(c, turns[k - 1], k - 1)] else [])
  }

  lemma {:induction false} SendsOfAt(c: Config, turns: seq<Turn>, k: nat)
    requires |c.rest| >= 2 && k <= |turns|
    ensures |SendsOf(c, turns, k)| == |ReadyTurns(turns, k)|
    ensures forall j | 0 <= j < |SendsOf(c, turns, k)| ::
              var i := ReadyTurns(turns, k)[j]; SendsOf(c, turns, k)[j] == SendOf(c, turns[i], i)
  {
    if k > 0 {
      SendsOfAt(c, turns, k - 1);
    }
  }

  lemma SendsAreProper(c: Config, turns: seq<Turn>, k: nat, frameSize: nat)
    requires k <= |turns| && AllKernel(turns) && Fits(c, frameSize)
    ensures AllProper(SendsOf(c, turns, k), frameSize) && Behind(SendsOf(c, turns, k), c.header)
  {
    SendsOfAt(c, turns, k);
  }

  /** The posts are the packets of the turns `sent`, in order. */
  ghost predicate Carries(posted: seq<Posted>, sent: seq<nat>, c: Config, turns: seq<Turn>)
    requires |c.header| == VLAN_HEADER && |c.rest| >= 2
  {
    && |posted| == |sent|
    && (forall j | 0 <= j < |sent| ::
          && sent[j] < |turns|
          && posted[j].bytes == Packet(c.header, c.queue, sent[j], turns[sent[j]].now, c.rest)
          && posted[j].desc.txtime == LaunchOf(c, sent[j]))
  }

  lemma PostsAreCarried(posted: seq<Posted>, c: Config, turns: seq<Turn>, k: nat)
    requires |c.header| == VLAN_HEADER && |c.rest| >= 2 && k <= |turns|
    requires Posts(posted, SendsOf(c, turns, k), c.header)
    ensures Carries(posted, ReadyTurns(turns, k), c, turns)
  {
    SendsOfAt(c, turns, k);
  }

  /** What any number of turns post, from a prefilled socket. */
  lemma TurnsCarry(s: Tx, c: Config, turns: seq<Turn>, k: nat, r: Tx)
    requires k <= |turns| && AllKernel(turns)
    requires Inv(s) && Intact(s) && s.posted == [] && Fits(c, s.frameSize) && Templated(s, c.header)
    requires Sent(s, SendsOf(c, turns, k), r) && RoomForAll(s, SendsOf(c, turns, k))
    ensures Inv(r) && Intact(r) && Carries(r.posted, ReadyTurns(turns, k), c, turns)
  {
    var xs := SendsOf(c, turns, k);
    assert Inv(r) && Intact(r) && Posts(r.posted, xs, c.header) by {
      SentIsSends(s, xs, r);
      SendsAreProper(c, turns, k, s.frameSize);
      CarefulSendsPost(s, xs, c.header);
    }
    PostsAreCarried(r.posted, c, turns, k);
  }

  lemma FewAtTheEnd(s: Tx, c: Config, turns: seq<Turn>, k: nat, r: Tx)
    requires k <= |turns| && AllKernel(turns) && Inv(s) && Fits(c, s.frameSize)
    requires Sent(s, SendsOf(c, turns, k), r) && r.outstanding < s.n
    ensures RoomForAll(s, SendsOf(c, turns, k))
  {
    SentIsSends(s, SendsOf(c, turns, k), r);
    SendsAreProper(c, turns, k, s.frameSize);
    LastTellsAll(s, SendsOf(c, turns, k));
  }

  /** The last look for a completion. */
  lemma ReapAtTheEnd(r: Tx)
    requires Inv(r)
    ensures var u := Step(r, Event.Reap);
            && Inv(u) && u.posted == r.posted && r.outstanding <= u.outstanding + 1 && (Intact(r) ==> Intact(u))
  {
    StepKeepsInv(r, Event.Reap);
    if Intact(r) {
      StepKeepsIntact(r, Event.Reap);
    }
  }

  /** One turn of the thread. */
  method SendTurn(xsk: TxSocket, c: Config, t: Turn, i: nat, tx: u64) returns (exits: bool)
    requires xsk.Valid() && Fits(c, xsk.frameSize) && KernelOnly(t.k0) && KernelOnly(t.k1)
    requires tx == ToU64(c.first + i * c.interval)
    modifies xsk, xsk.umem
    ensures xsk.Valid() && (exits ==> t.ready && !t.kicked)
    ensures xsk.m == if t.ready then OneSend(old(xsk.m), SendOf(c, t, i)) else old(xsk.m)
  {
    var buff := Buffer(c.queue, i, t.now, c.rest);
    assert buff[..|buff| - VLAN_HEADER] == Data(c, t, i);
    assert LaunchOf(c, i) == if c.enableTxtime then tx else 0;
    ToolSend(xsk.m, SendOf(c, t, i));
    exits := SendPkt(xsk, t.ready, c.enableTxtime, |buff|, buff, tx, t.k0, t.k1, t.kicked);
  }

  /** Turn `i` of the loop, from the socket the turns before left. */
  method NextTurn(xsk: TxSocket, c: Config, turns: seq<Turn>, i: nat, tx: u64, ghost s: Tx)
    returns (exits: bool, next: u64)
    requires xsk.Valid() && Fits(c, xsk.frameSize) && AllKernel(turns) && i < |turns|
    requires tx == ToU64(c.first + i * c.interval) && Sent(s, SendsOf(c, turns, i), xsk.m)
    modifies xsk, xsk.umem
    ensures xsk.Valid() && Sent(s, SendsOf(c, turns, i + 1), xsk.m)
    ensures exits ==> turns[i].ready && !turns[i].kicked
    ensures next == ToU64(c.first + (i + 1) * c.interval)
  {
    ghost var r, xs := xsk.m, SendsOf(c, turns, i);
    exits := SendTurn(xsk, c, turns[i], i, tx);
    if turns[i].ready {
      SentMore(s, xs, r, SendOf(c, turns[i], i), xsk.m);
    }
    Schedule.OneCycle(c.first, c.interval, i, 0);
    next := ToU64(tx + c.interval);
  }

  /** The loop of the thread; a kick that fails ends it. */
  method SendLoop(xsk: TxSocket, c: Config, turns: seq<Turn>) returns (done: nat, exits: bool)
    requires xsk.Valid() && Fits(c, xsk.frameSize) && AllKernel(turns)
    modifies xsk, xsk.umem
    ensures xsk.Valid() && done <= |turns| && Sent(old(xsk.m), SendsOf(c, turns, done), xsk.m)
    ensures if exits then done > 0 && turns[done - 1].ready && !turns[done - 1].kicked else done == |turns|
  {
    var tx: u64 := ToU64(c.first);
    done, exits := 0, false;
    SentNothing(xsk.m);
    while done < |turns| && !exits
      invariant xsk.Valid() && 0 <= done <= |turns| && tx == ToU64(c.first + done * c.interval)
      invariant Sent(old(xsk.m), SendsOf(c, turns, done), xsk.m)
      invariant exits ==> done > 0 && turns[done - 1].ready && !turns[done - 1].kicked
      decreases |turns| - done
    {
      exits, tx := NextTurn(xsk, c, turns, done, tx, old(xsk.m));
      done := done + 1;
    }
  }

  /**
   `afxdp_send_thread` on a fresh socket: the frames are prefilled from the example packet, then `frames` and ten
   more turns follow unless a kick fails, and one more completion is looked at. If every send finds fewer than `n`
   descriptors outstanding, as it does if at the end fewer than `n - 1` are, what is posted, and so what goes out,
   is the packets of the turns on which polling reported room.
   */
  method SendThread(xsk: TxSocket, example: seq<byte>, c: Config, frames: nat, turns: seq<Turn>)
    returns (done: nat, ghost filled: Tx, ghost last: Tx)
    requires xsk.Valid() && xsk.m.posted == []
    requires Fits(c, xsk.frameSize) && c.header <= example && |example| <= xsk.frameSize
    requires |turns| == frames + RxExit.FLUSH_PACKETS && AllKernel(turns)
    modifies xsk, xsk.umem
    ensures xsk.Valid() && done <= |turns|
    ensures done < |turns| ==> done > 0 && turns[done - 1].ready && !turns[done - 1].kicked
    ensures Inv(filled) && filled == old(xsk.m).(frames := filled.frames) && Templated(filled, c.header)
    ensures Sent(filled, SendsOf(c, turns, done), last)
    ensures Shaped(last) && (xsk.m == last || xsk.m == Step(last, Event.Reap))
    ensures RoomForAll(filled, SendsOf(c, turns, done)) ==>
              Intact(xsk.m) && Carries(xsk.m.posted, ReadyTurns(turns, done), c, turns)
    ensures xsk.outstandingTx + 1 < xsk.n ==> RoomForAll(filled, SendsOf(c, turns, done))
  {
    xsk.Prefill(example);
    filled := xsk.m;
    PrefillMakesTemplate(filled, example, c.header);
    var exits;
    done, exits := SendLoop(xsk, c, turns);
    last := xsk.m;
    if !exits {
      xsk.Reap();
    }
    ReapAtTheEnd(last);
    if RoomForAll(filled, SendsOf(c, turns, done)) {
      TurnsCarry(filled, c, turns, done, last);
    }
    if last.outstanding < last.n {
      FewAtTheEnd(filled, c, turns, done, last);
    }
  }

  /** If polling always reports room, the numbers sent are the ones the receiver's exit is about. */
  lemma {:induction false} AllTurnsReady(turns: seq<Turn>, k: nat)
    requires k <= |turns| && forall i | 0 <= i < |turns| :: turns[i].ready
    ensures ReadyTurns(turns, k) == RxExit.Numbers(0, k)
    ensures k >= RxExit.FLUSH_PACKETS ==>
              ReadyTurns(turns, k) == RxExit.AfxdpNumbers(k - RxExit.FLUSH_PACKETS)
  {
    if k > 0 {
      AllTurnsReady(turns, k - 1);
      assert RxExit.Numbers(0, k) == RxExit.Numbers(0, k - 1) + [k - 1];
    }
  }
}
