/** The two senders over an AF_XDP socket: `afxdp_send_pkt` of the measuring tool and the plugin's `send`. */
module XskSend {
  import opened Words
  import opened XskTransmit
  import opened XskSender
  import opened UadpFrame

  /** Ethernet header and VLAN tag in front of the payload. */
  const VLAN_HEADER: nat := 18

  /** Copy, try to post, and if that worked and the kick succeeded, reap; the kernel runs at `k0` and `k1`. */
  function AfterSend(
    s: Tx, offset: nat, data: seq<byte>, txtime: nat, k0: seq<Event>, k1: seq<Event>, kicked: bool): Tx
    requires Shaped(s)
  {
    var t := Run(Step(s, Write(offset, data)), k0);
    if !CanPost(t, offset + |data|) then t
    else
      var u := Run(Step(t, Post(offset + |data|, txtime)), k1);
      if kicked then Step(u, Event.Reap) else u
  }

  /** A send that finds fewer than `n` descriptors outstanding posts exactly its own bytes and harms no other frame. */
  lemma SendIsSafe(
    s: Tx, offset: nat, data: seq<byte>, txtime: nat, k0: seq<Event>, k1: seq<Event>, kicked: bool)
    requires Inv(s) && Intact(s) && s.outstanding < s.n
    requires offset + |data| <= s.frameSize && KernelOnly(k0) && KernelOnly(k1)
    ensures CanPost(Run(Step(s, Write(offset, data)), k0), offset + |data|)
    ensures var t := AfterSend(s, offset, data, txtime, k0, k1, kicked);
            && Inv(t) && Intact(t)
            && |t.posted| == |s.posted| + 1 && t.posted[..|s.posted|] == s.posted
            && t.posted[|s.posted|] ==
               Posted(TxDesc(CurAddr(s), offset + |data|, txtime), FrameOf(s, |s.posted|)[..offset] + data)
  {
    assert CurAddr(s) == Addr(s, |s.posted|);
    var frame := FrameOf(s, |s.posted|);
    var a := Step(s, Write(offset, data));
    StepKeepsIntact(s, Write(offset, data));
    var b := Run(a, k0);
    KernelRunsAside(a, k0);
    assert CanPost(b, offset + |data|);
    var c := Step(b, Post(offset + |data|, txtime));
    StepKeepsIntact(b, Post(offset + |data|, txtime));
    assert Splice(frame, offset, data)[..offset + |data|] == frame[..offset] + data;
    var d := Run(c, k1);
    KernelRunsAside(c, k1);
    StepKeepsIntact(d, Event.Reap);
  }

  /** A send that was granted and kicked accounts for one completion if one was reported. */
  lemma SendReaps(s: Tx, offset: nat, data: seq<byte>, txtime: nat, k0: seq<Event>, k1: seq<Event>)
    requires Inv(s) && offset + |data| <= s.frameSize && KernelOnly(k0) && KernelOnly(k1)
    requires CanPost(Run(Step(s, Write(offset, data)), k0), offset + |data|)
    ensures var t := Run(Step(Run(Step(s, Write(offset, data)), k0), Post(offset + |data|, txtime)), k1);
            var u := AfterSend(s, offset, data, txtime, k0, k1, true);
            && Inv(t)
            && u.npkts == t.npkts + (if t.completed > t.reaped then 1 else 0)
            && u.outstanding == t.outstanding - (if t.completed > t.reaped then 1 else 0)
  {
    var a := Step(s, Write(offset, data));
    StepKeepsInv(s, Write(offset, data));
    RunKeepsInv(a, k0);
    var b := Run(a, k0);
    StepKeepsInv(b, Post(offset + |data|, txtime));
    RunKeepsInv(Step(b, Post(offset + |data|, txtime)), k1);
  }

  /** Every frame starts with the header the prefill put there. */
  ghost predicate Templated(s: Tx, header: seq<byte>)
    requires Inv(s) && |header| <= s.frameSize
  {
    forall j: nat | 0 <= j < s.n :: FrameOf(s, j)[..|header|] == header
  }

  /** Prefilled frames are templated with every beginning of the example packet. */
  lemma PrefillMakesTemplate(s: Tx, example: seq<byte>, header: seq<byte>)
    requires Inv(s) && header <= example && |example| <= s.frameSize
    requires forall f | 0 <= f < s.n :: f * s.frameSize in s.frames && example <= s.frames[f * s.frameSize]
    ensures Templated(s, header)
  {
    forall j: nat | 0 <= j < s.n
      ensures FrameOf(s, j)[..|header|] == header
    {
      ModUnique(j, s.n, 0, j);
      assert FrameOf(s, j) == s.frames[j * s.frameSize];
    }
  }

  lemma TemplateCoversAll(s: Tx, header: seq<byte>, j: nat)
    requires Inv(s) && |header| <= s.frameSize && Templated(s, header)
    ensures FrameOf(s, j)[..|header|] == header
  {
    ModUnique(j % s.n, s.n, 0, j % s.n);
    assert FrameOf(s, j % s.n) == FrameOf(s, j);
  }

  lemma SendKeepsTemplate(
    s: Tx, header: seq<byte>, data: seq<byte>, txtime: nat, k0: seq<Event>, k1: seq<Event>, kicked: bool)
    requires Inv(s) && |header| + |data| <= s.frameSize && Templated(s, header) && KernelOnly(k0) && KernelOnly(k1)
    ensures var t := AfterSend(s, |header|, data, txtime, k0, k1, kicked); Inv(t) && Templated(t, header)
  {
    var a := Step(s, Write(|header|, data));
    StepKeepsInv(s, Write(|header|, data));
    forall j: nat | 0 <= j < s.n
      ensures FrameOf(a, j)[..|header|] == header
    {
      assert FrameOf(s, j)[..|header|] == header;
      if Addr(s, j) == CurAddr(s) {
        assert Splice(FrameOf(s, j), |header|, data)[..|header|] == FrameOf(s, j)[..|header|];
      }
    }
    var b := Run(a, k0);
    KernelRunsAside(a, k0);
    SameFramesSameTemplate(a, b, header);
    if CanPost(b, |header| + |data|) {
      var c := Step(b, Post(|header| + |data|, txtime));
      StepKeepsInv(b, Post(|header| + |data|, txtime));
      var d := Run(c, k1);
      KernelRunsAside(c, k1);
      StepKeepsInv(d, Event.Reap);
      SameFramesSameTemplate(b, d, header);
      SameFramesSameTemplate(b, Step(d, Event.Reap), header);
    }
  }

  lemma SameFramesSameTemplate(s: Tx, t: Tx, header: seq<byte>)
    requires Inv(s) && Inv(t) && t.frames == s.frames && t.n == s.n && t.frameSize == s.frameSize
    requires |header| <= s.frameSize && Templated(s, header)
    ensures Templated(t, header)
  {
    forall j: nat | 0 <= j < t.n
      ensures FrameOf(t, j)[..|header|] == header
    {
      assert FrameOf(s, j)[..|header|] == header;
    }
  }

  /** `memcpy`, `reserve`, `submit`, `sendto`, completion: the sequence both senders share. */
  method CopyAndPost(xsk: TxSocket, offset: nat, data: seq<byte>, txtime: nat, wrap: u32,
                     k0: seq<Event>, k1: seq<Event>, kicked: bool)
    returns (granted: bool)
    requires xsk.Valid() && offset + |data| <= xsk.frameSize && wrap == xsk.n && KernelOnly(k0) && KernelOnly(k1)
    modifies xsk, xsk.umem
    ensures xsk.Valid() && xsk.m == AfterSend(old(xsk.m), offset, data, txtime, k0, k1, kicked)
    ensures granted <==> CanPost(Run(Step(old(xsk.m), Write(offset, data)), k0), offset + |data|)
  {
    xsk.Memcpy(offset, data);
    xsk.Kernel(k0);
    granted := xsk.PostOne(offset + |data|, txtime, wrap);
    if granted {
      Finish(xsk, k1, kicked);
    }
  }

  method Finish(xsk: TxSocket, k1: seq<Event>, kicked: bool)
    requires xsk.Valid() && KernelOnly(k1)
    modifies xsk
    ensures xsk.Valid()
    ensures xsk.m == if kicked then Step(Run(old(xsk.m), k1), Event.Reap) else Run(old(xsk.m), k1)
  {
    xsk.Kernel(k1);
    if kicked {
      xsk.Reap();
    }
  }

  /**
   `afxdp_send_pkt`: `ready` is false when polling was asked for and did not report room; `kicked` is false
   when the final `sendto` failed for good, which ends the program. The header in front of the payload is
   whatever the prefill left in the frame.
   */
  method AfxdpSendPkt(xsk: TxSocket, ready: bool, enableTxtime: bool,
                      packetSize: nat, buff: seq<byte>, txTimestamp: u64,
                      k0: seq<Event>, k1: seq<Event>, kicked: bool, ghost header: seq<byte>)
    returns (exits: bool)
    requires xsk.Valid() && VLAN_HEADER <= packetSize <= xsk.frameSize && |buff| == packetSize
    requires |header| == VLAN_HEADER && KernelOnly(k0) && KernelOnly(k1)
    modifies xsk, xsk.umem
    ensures xsk.Valid()
    ensures !ready ==> xsk.m == old(xsk.m) && !exits
    ensures var data, time := buff[..packetSize - VLAN_HEADER], if enableTxtime then txTimestamp else 0;
            ready ==> xsk.m == AfterSend(old(xsk.m), VLAN_HEADER, data, time, k0, k1, kicked)
    ensures old(Templated(xsk.m, header)) ==> Templated(xsk.m, header)
    ensures ready && old(Templated(xsk.m, header)) && old(Intact(xsk.m)) && old(OutstandingOf(xsk)) < xsk.n ==>
              && Intact(xsk.m)
              && |xsk.m.posted| == |old(xsk.m).posted| + 1
              && xsk.m.posted[..|old(xsk.m).posted|] == old(xsk.m).posted
              && xsk.m.posted[|old(xsk.m).posted|].bytes == header + buff[..packetSize - VLAN_HEADER]
              && xsk.m.posted[|old(xsk.m).posted|].desc.txtime == (if enableTxtime then txTimestamp else 0)
    ensures exits ==> ready && !kicked
  {
    ghost var data, time := buff[..packetSize - VLAN_HEADER], if enableTxtime then txTimestamp else 0;
    if ready && Templated(xsk.m, header) {
      SendKeepsTemplate(xsk.m, header, data, time, k0, k1, kicked);
      if Intact(xsk.m) && xsk.outstandingTx < xsk.n {
        SendIsSafe(xsk.m, VLAN_HEADER, data, time, k0, k1, kicked);
        TemplateCoversAll(xsk.m, header, |xsk.m.posted|);
      }
    }
    exits := SendPkt(xsk, ready, enableTxtime, packetSize, buff, txTimestamp, k0, k1, kicked);
  }

  /** The steps of `afxdp_send_pkt`. */
  method SendPkt(xsk: TxSocket, ready: bool, enableTxtime: bool, packetSize: nat, buff: seq<byte>, txTimestamp: u64,
                 k0: seq<Event>, k1: seq<Event>, kicked: bool)
    returns (exits: bool)
    requires xsk.Valid() && VLAN_HEADER <= packetSize <= xsk.frameSize && |buff| == packetSize
    requires KernelOnly(k0) && KernelOnly(k1)
    modifies xsk, xsk.umem
    ensures xsk.Valid() && (exits ==> ready && !kicked)
    ensures !ready ==> xsk.m == old(xsk.m)
    ensures var data, time := buff[..packetSize - VLAN_HEADER], if enableTxtime then txTimestamp else 0;
            ready ==> xsk.m == AfterSend(old(xsk.m), VLAN_HEADER, data, time, k0, k1, kicked)
  {
    if !ready {
      return false;
    }
    var data := buff[..packetSize - VLAN_HEADER];
    var time := if enableTxtime then txTimestamp else 0;
    var granted := CopyAndPost(xsk, VLAN_HEADER, data, time, xsk.n, k0, k1, kicked);
    exits := granted && !kicked;
  }

  function OutstandingOf(xsk: TxSocket): u32
    reads xsk
  {
    xsk.outstandingTx
  }

  datatype SendStatus = Good | BadInternalError

  /**
   The plugin's `send`: header, then the length check, then the payload. `cur_tx` wraps at the frame size,
   which is also the number of frames.
   */
  method PluginSend(xsk: TxSocket, self: Endpoint, payload: seq<byte>, k0: seq<Event>, k1: seq<Event>, kicked: bool)
    returns (status: SendStatus)
    requires xsk.Valid() && xsk.n == xsk.frameSize == FRAME_SIZE && KernelOnly(k0) && KernelOnly(k1)
    modifies xsk, xsk.umem
    ensures xsk.Valid()
    ensures |Built(self, payload)| > FRAME_SIZE ==>
              status == BadInternalError && xsk.m == Step(old(xsk.m), Write(0, HeaderBytes(self)))
    ensures |Built(self, payload)| <= FRAME_SIZE ==>
              var s := Step(old(xsk.m), Write(0, HeaderBytes(self)));
              var offset := |HeaderBytes(self)|;
              && xsk.m == AfterSend(s, offset, payload, 0, k0, k1, kicked)
              && (status == Good <==> kicked && CanPost(Run(Step(s, Write(offset, payload)), k0), offset + |payload|))
    ensures |Built(self, payload)| <= FRAME_SIZE && old(Intact(xsk.m)) && old(OutstandingOf(xsk)) < xsk.n ==>
              && status == (if kicked then Good else BadInternalError)
              && Intact(xsk.m)
              && |xsk.m.posted| == |old(xsk.m).posted| + 1
              && xsk.m.posted[|old(xsk.m).posted|].bytes == Built(self, payload)
              && LaidOut(xsk.m.posted[|old(xsk.m).posted|].bytes, self, payload)
  {
    BuiltIsLaidOut(self, payload);
    var header := HeaderBytes(self);
    ghost var safe := Intact(xsk.m) && xsk.outstandingTx < xsk.n;
    ghost var s0 := xsk.m;
    if safe {
      StepKeepsIntact(s0, Write(0, header));
    }
    xsk.Memcpy(0, header);
    if |header| + |payload| > FRAME_SIZE {
      return BadInternalError;
    }
    ghost var s1 := xsk.m;
    if safe {
      SendIsSafe(s1, |header|, payload, 0, k0, k1, kicked);
      assert CurAddr(s0) == Addr(s0, |s0.posted|) == Addr(s1, |s1.posted|);
      assert FrameOf(s1, |s1.posted|)[..|header|] == header;
    }
    var granted := CopyAndPost(xsk, |header|, payload, 0, FRAME_SIZE, k0, k1, kicked);
    status := if granted && kicked then Good else BadInternalError;
  }
}
