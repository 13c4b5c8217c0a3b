/**
 What whole sequences of sends do when nothing watches the window. A send of either sender is a header (none for
 the measuring tool, whose frames are prefilled), a copy behind it, and an attempt to post.
 */
module XskOverrun {
  import opened Words
  import opened XskTransmit
  import opened XskSender
  import opened XskSend

  /** The kernel runs `before` the send, at `k0`, before the reservation, and at `k1`, after the submission. */
  datatype Send = Send(
    before: seq<Event>, header: seq<byte>, offset: nat, data: seq<byte>, txtime: nat,
    k0: seq<Event>, k1: seq<Event>, kicked: bool)

  predicate Proper(x: Send, frameSize: nat) {
    && x.offset + |x.data| <= frameSize && (x.header == [] || |x.header| == x.offset)
    && KernelOnly(x.before) && KernelOnly(x.k0) && KernelOnly(x.k1)
  }

  function WithHeader(s: Tx, x: Send): (t: Tx)
    requires Shaped(s)
    ensures Shaped(t) && t.n == s.n && t.frameSize == s.frameSize
  {
    if x.header == [] then s else Step(s, Write(0, x.header))
  }

  function SendNow(s: Tx, x: Send): (t: Tx)
    requires Shaped(s)
    ensures Shaped(t) && t.n == s.n && t.frameSize == s.frameSize
  {
    AfterSend(WithHeader(s, x), x.offset, x.data, x.txtime, x.k0, x.k1, x.kicked)
  }

  function OneSend(s: Tx, x: Send): (t: Tx)
    requires Shaped(s)
    ensures Shaped(t) && t.n == s.n && t.frameSize == s.frameSize
  {
    SendNow(Run(s, x.before), x)
  }

  function Sends(s: Tx, xs: seq<Send>): (t: Tx)
    requires Shaped(s)
    ensures Shaped(t) && t.n == s.n && t.frameSize == s.frameSize
  {
    if xs == [] then s else OneSend(Sends(s, xs[..|xs| - 1]), xs[|xs| - 1])
  }

  predicate AllProper(xs: seq<Send>, frameSize: nat) { forall i | 0 <= i < |xs| :: Proper(xs[i], frameSize) }

  /** The state in which the reservation is attempted. */
  function Attempt(s: Tx, x: Send): (t: Tx)
    requires Shaped(s)
    ensures Shaped(t)
  {
    Run(Step(WithHeader(s, x), Write(x.offset, x.data)), x.k0)
  }

  lemma HeaderKeepsInv(s: Tx, x: Send)
    requires Inv(s)
    ensures var t := WithHeader(s, x);
            && Inv(t) && t == s.(frames := t.frames)
            && (Intact(s) && s.outstanding < s.n ==> Intact(t))
  {
    if x.header != [] {
      StepKeepsInv(s, Write(0, x.header));
      if Intact(s) && s.outstanding < s.n {
        StepKeepsIntact(s, Write(0, x.header));
      }
    }
  }

  lemma AttemptKeepsInv(s: Tx, x: Send)
    requires Inv(s) && Proper(x, s.frameSize)
    ensures var t := Attempt(s, x);
            && Inv(t) && t.posted == s.posted && t.outstanding == s.outstanding && t.reaped == s.reaped
            && |t.taken| >= |s.taken| && t.n == s.n
  {
    HeaderKeepsInv(s, x);
    var a := WithHeader(s, x);
    StepKeepsInv(a, Write(x.offset, x.data));
    KernelRunsAside(Step(a, Write(x.offset, x.data)), x.k0);
  }

  /** What follows a granted reservation, before completions are looked at. */
  function Submitted(t: Tx, x: Send): (u: Tx)
    requires Shaped(t)
    ensures Shaped(u)
  {
    Run(WithPost(t, x), x.k1)
  }

  function WithPost(t: Tx, x: Send): (u: Tx)
    requires Shaped(t)
    ensures Shaped(u)
  {
    Step(t, Post(x.offset + |x.data|, x.txtime))
  }

  function Kicked(u: Tx, kicked: bool): Tx
    requires Shaped(u)
  {
    if kicked then Step(u, Event.Reap) else u
  }

  function Granted(t: Tx, x: Send): Tx
    requires Shaped(t)
  {
    Kicked(Submitted(t, x), x.kicked)
  }

  lemma SendSplits(s: Tx, x: Send)
    requires Shaped(s)
    ensures SendNow(s, x) ==
            if CanPost(Attempt(s, x), x.offset + |x.data|) then Granted(Attempt(s, x), x) else Attempt(s, x)
  {
  }

  lemma SubmittedKeepsInv(t: Tx, x: Send)
    requires Inv(t)
    ensures Inv(Submitted(t, x))
  {
    WithPostKeepsInv(t, x);
    RunKeepsInv(WithPost(t, x), x.k1);
  }

  lemma WithPostKeepsInv(t: Tx, x: Send)
    requires Inv(t)
    ensures Inv(WithPost(t, x))
  {
    StepKeepsInv(t, Post(x.offset + |x.data|, x.txtime));
  }

  lemma KickedKeepsInv(u: Tx, kicked: bool)
    requires Inv(u)
    ensures Inv(Kicked(u, kicked))
  {
    StepKeepsInv(u, Event.Reap);
  }

  lemma GrantedKeepsInv(t: Tx, x: Send)
    requires Inv(t)
    ensures Inv(Granted(t, x))
  {
    SubmittedKeepsInv(t, x);
    KickedKeepsInv(Submitted(t, x), x.kicked);
  }

  lemma {:induction false} KernelKeepsCounts(s: Tx, es: seq<Event>)
    requires Shaped(s) && KernelOnly(es)
    ensures Run(s, es).outstanding == s.outstanding && Run(s, es).posted == s.posted
  {
    if es != [] {
      KernelKeepsCounts(s, es[..|es| - 1]);
    }
  }

  lemma GrantedGrows(t: Tx, x: Send)
    requires Shaped(t) && CanPost(t, x.offset + |x.data|) && KernelOnly(x.k1)
    ensures var v := Granted(t, x); v.outstanding >= t.outstanding && t.posted <= v.posted
  {
    KernelKeepsCounts(Step(t, Post(x.offset + |x.data|, x.txtime)), x.k1);
  }

  /** A refused send neither kicks nor reaps, a granted one reaps at most one: the count outstanding never falls. */
  lemma SendNowNeverFalls(s: Tx, x: Send)
    requires Inv(s) && Proper(x, s.frameSize)
    ensures var t := SendNow(s, x);
            && Inv(t) && t.outstanding >= s.outstanding && s.posted <= t.posted
  {
    var t := Attempt(s, x);
    assert Inv(t) && t.posted == s.posted && t.outstanding == s.outstanding by {
      AttemptKeepsInv(s, x);
    }
    SendSplits(s, x);
    if CanPost(t, x.offset + |x.data|) {
      GrantedKeepsInv(t, x);
      GrantedGrows(t, x);
    }
  }

  /** Whatever the kernel does before, during and after a send. */
  lemma OutstandingNeverFalls(s: Tx, x: Send)
    requires Inv(s) && Proper(x, s.frameSize)
    ensures var t := OneSend(s, x); Inv(t) && t.outstanding >= s.outstanding && s.posted <= t.posted
  {
    KernelRunsAside(s, x.before);
    SendNowNeverFalls(Run(s, x.before), x);
  }

  lemma {:induction false} SendsKeepInv(s: Tx, xs: seq<Send>)
    requires Inv(s) && AllProper(xs, s.frameSize)
    ensures Inv(Sends(s, xs)) && Sends(s, xs).outstanding >= s.outstanding && s.posted <= Sends(s, xs).posted
  {
    if xs != [] {
      SendsKeepInv(s, xs[..|xs| - 1]);
      OutstandingNeverFalls(Sends(s, xs[..|xs| - 1]), xs[|xs| - 1]);
    }
  }

  // ---------------------------------------------------------------------------------------------------
  // Both rings full

  /** With both rings full the kernel cannot take another descriptor. */
  lemma {:induction false} KernelStuck(s: Tx, es: seq<Event>)
    requires Inv(s) && KernelOnly(es) && s.outstanding == 2 * s.n
    ensures Inv(Run(s, es)) && Run(s, es).taken == s.taken
  {
    KernelRunsAside(s, es);
    if es != [] {
      KernelStuck(s, es[..|es| - 1]);
      KernelRunsAside(s, es[..|es| - 1]);
    }
  }

  lemma StuckNow(s: Tx, x: Send)
    requires Inv(s) && Proper(x, s.frameSize) && s.outstanding == 2 * s.n
    ensures var t := SendNow(s, x);
            Inv(t) && t.posted == s.posted && t.taken == s.taken && t.outstanding == s.outstanding
  {
    HeaderKeepsInv(s, x);
    var a := Step(WithHeader(s, x), Write(x.offset, x.data));
    StepKeepsInv(WithHeader(s, x), Write(x.offset, x.data));
    KernelStuck(a, x.k0);
    AttemptKeepsInv(s, x);
  }

  /** Then no send posts anything, whatever the kernel does before, meanwhile or afterwards. */
  lemma StuckSend(s: Tx, x: Send)
    requires Inv(s) && Proper(x, s.frameSize) && s.outstanding == 2 * s.n
    ensures var t := OneSend(s, x);
            Inv(t) && t.posted == s.posted && t.taken == s.taken && t.outstanding == s.outstanding
  {
    KernelRunsAside(s, x.before);
    KernelStuck(s, x.before);
    StuckNow(Run(s, x.before), x);
  }

  /** Nor ever after. */
  lemma {:induction false} StuckForever(s: Tx, xs: seq<Send>)
    requires Inv(s) && AllProper(xs, s.frameSize) && s.outstanding == 2 * s.n
    ensures var t := Sends(s, xs); Inv(t) && t.posted == s.posted && t.taken == s.taken && t.outstanding == 2 * t.n
  {
    if xs != [] {
      StuckForever(s, xs[..|xs| - 1]);
      StuckSend(Sends(s, xs[..|xs| - 1]), xs[|xs| - 1]);
    }
  }

  /** Until then a send can post, if need be after the kernel takes one descriptor. */
  lemma SendsUntilStuck(s: Tx, offset: nat, data: seq<byte>)
    requires Inv(s) && offset + |data| <= s.frameSize
    ensures var a, len := Step(s, Write(offset, data)), offset + |data|;
            CanPost(a, len) || CanPost(Run(a, [TakeDesc]), len) <==> s.outstanding < 2 * s.n
  {
    var a := Step(s, Write(offset, data));
    StepKeepsInv(s, Write(offset, data));
    assert [TakeDesc][..0] == [] && Run(a, [TakeDesc]) == Step(a, TakeDesc);
    StepKeepsInv(a, TakeDesc);
    assert a.curTx * a.frameSize in a.frames && Step(a, TakeDesc).frames == a.frames;
  }

  // ---------------------------------------------------------------------------------------------------
  // How that comes about

  /** The kernel takes no part in a send. */
  predicate Idle(x: Send) { x.before == [] && x.k0 == [] && x.k1 == [] }

  predicate KernelIdle(xs: seq<Send>) { forall i | 0 <= i < |xs| :: Idle(xs[i]) }

  /** Nothing is waiting to be reaped, and `k` more descriptors fit. */
  ghost predicate Room(s: Tx, k: nat) { Inv(s) && s.completed == s.reaped && |s.posted| + k <= |s.taken| + s.n }

  lemma IdleSend(s: Tx, x: Send)
    requires Room(s, 1) && Proper(x, s.frameSize) && Idle(x)
    ensures var t := OneSend(s, x);
            && Inv(t) && |t.posted| == |s.posted| + 1 && s.posted <= t.posted
            && t.taken == s.taken && t.completed == t.reaped == s.reaped && t.wire == s.wire
  {
    HeaderKeepsInv(s, x);
    var a := WithHeader(s, x);
    StepKeepsInv(a, Write(x.offset, x.data));
    var b := Step(a, Write(x.offset, x.data));
    assert b.curTx * b.frameSize in b.frames;
    StepKeepsInv(b, Post(x.offset + |x.data|, x.txtime));
  }

  lemma {:induction false} IdleSends(s: Tx, xs: seq<Send>)
    requires Room(s, |xs|) && AllProper(xs, s.frameSize) && KernelIdle(xs)
    ensures var t := Sends(s, xs);
            && Inv(t) && |t.posted| == |s.posted| + |xs| && s.posted <= t.posted
            && t.taken == s.taken && t.completed == t.reaped == s.reaped && t.wire == s.wire
  {
    if xs != [] {
      IdleSends(s, xs[..|xs| - 1]);
      IdleSend(Sends(s, xs[..|xs| - 1]), xs[|xs| - 1]);
    }
  }

  function Takes(k: nat): (es: seq<Event>)
    ensures |es| == k && forall i | 0 <= i < k :: es[i] == TakeDesc
  {
    seq(k, _ => TakeDesc)
  }

  lemma KernelTakesOne(t: Tx)
    requires Inv(t) && |t.taken| < |t.posted| && |t.taken| < t.reaped + t.n
    ensures var u := Step(t, TakeDesc); Inv(u) && |u.taken| == |t.taken| + 1 && u == t.(taken := u.taken)
  {
    StepKeepsInv(t, TakeDesc);
  }

  lemma {:induction false} KernelTakes(s: Tx, k: nat)
    requires Inv(s) && |s.taken| + k <= |s.posted| && |s.taken| + k <= s.reaped + s.n
    ensures var t := Run(s, Takes(k));
            && Inv(t) && |t.taken| == |s.taken| + k && t == s.(taken := t.taken)
  {
    if k > 0 {
      KernelTakes(s, k - 1);
      assert Takes(k)[..k - 1] == Takes(k - 1);
      KernelTakesOne(Run(s, Takes(k - 1)));
    }
  }

  /**
   `n` sends, `n` descriptors taken by the kernel, `n` more sends: from a fresh socket, for every ring size and
   whatever is sent, both rings are then full for good.
   */
  lemma StuckIsReachable(s: Tx, first: seq<Send>, second: seq<Send>)
    requires Inv(s) && s.posted == [] && |first| == |second| == s.n
    requires AllProper(first, s.frameSize) && AllProper(second, s.frameSize)
    requires KernelIdle(first) && KernelIdle(second)
    ensures var t := Sends(Run(Sends(s, first), Takes(s.n)), second);
            Inv(t) && t.outstanding == 2 * t.n && |t.posted| == 2 * s.n
  {
    var t := Sends(s, first);
    assert Inv(t) && |t.posted| == s.n && t.taken == [] && t.completed == t.reaped by {
      IdleSends(s, first);
    }
    var u := Run(t, Takes(s.n));
    assert Room(u, s.n) && u.reaped == t.reaped && u.posted == t.posted && u.n == s.n by {
      KernelTakes(t, s.n);
    }
    IdleSends(u, second);
  }

  // ---------------------------------------------------------------------------------------------------
  // What one send too many does

  /** Sends into an empty window post their own bytes and stay intact. */
  lemma IntactSend(s: Tx, x: Send)
    requires Inv(s) && Intact(s) && s.outstanding < s.n && Proper(x, s.frameSize) && x.before == []
    ensures var t := OneSend(s, x);
            && Inv(t) && Intact(t) && |t.posted| == |s.posted| + 1 && s.posted <= t.posted
            && t.posted[|s.posted|].desc.len == x.offset + |x.data|
            && |t.posted[|s.posted|].bytes| == x.offset + |x.data|
            && t.posted[|s.posted|].bytes[x.offset..] == x.data
  {
    HeaderKeepsInv(s, x);
    SendIsSafe(WithHeader(s, x), x.offset, x.data, x.txtime, x.k0, x.k1, x.kicked);
  }

  lemma {:induction false} IntactSends(s: Tx, xs: seq<Send>)
    requires Room(s, |xs|) && Intact(s) && s.posted == [] && AllProper(xs, s.frameSize) && KernelIdle(xs)
    ensures var t := Sends(s, xs);
            && Inv(t) && Intact(t) && |t.posted| == |xs| && t.taken == [] && t.wire == []
            && (xs != [] ==>
                  && t.posted[0].desc.len == |t.posted[0].bytes| == xs[0].offset + |xs[0].data|
                  && t.posted[0].bytes[xs[0].offset..] == xs[0].data)
  {
    IdleSends(s, xs);
    if xs != [] {
      var ys := xs[..|xs| - 1];
      IdleSends(s, ys);
      IntactSends(s, ys);
      IntactSend(Sends(s, ys), xs[|xs| - 1]);
    }
  }

  /** A send into a full window is refused, but its bytes go out under the oldest descriptor. */
  lemma OverwrittenGoesOut(s: Tx, x: Send)
    requires Inv(s) && |s.posted| == s.n && s.taken == [] && Proper(x, s.frameSize) && x.before == x.k0 == []
    requires x.offset + |x.data| == s.posted[0].desc.len
    ensures var u := OneSend(s, x);
            && u.posted == s.posted
            && var t := Step(Step(u, TakeDesc), Transmit);
               && Inv(t) && t.posted == s.posted
               && |t.wire| == 1 && |t.wire[0]| == x.offset + |x.data| && t.wire[0][x.offset..] == x.data
  {
    HeaderKeepsInv(s, x);
    var a := WithHeader(s, x);
    var u := Step(a, Write(x.offset, x.data));
    StepKeepsInv(a, Write(x.offset, x.data));
    StepKeepsInv(u, TakeDesc);
    StepKeepsInv(Step(u, TakeDesc), Transmit);
    ModUnique(s.n, s.n, 1, 0);
    ModUnique(0, s.n, 0, 0);
    assert CurAddr(a) == 0 == Addr(s, 0) && 0 in a.frames by { assert 0 * s.frameSize in a.frames; }
    assert u.ring[0 % s.n] == s.posted[0].desc;
    assert u.frames[0][..x.offset + |x.data|][x.offset..] == x.data;
  }

  /**
   For every ring size: `n` sends before the kernel runs and one more of the same length with another payload,
   which is refused, and the first frame on the wire is not the one posted.
   */
  lemma OverrunCorrupts(s: Tx, xs: seq<Send>, x: Send)
    requires Inv(s) && Intact(s) && s.posted == []
    requires |xs| == s.n && AllProper(xs, s.frameSize) && KernelIdle(xs)
    requires Proper(x, s.frameSize) && x.before == x.k0 == []
    requires x.offset == xs[0].offset && |x.data| == |xs[0].data| && x.data != xs[0].data
    ensures var u := Sends(s, xs + [x]);
            && u.posted == Sends(s, xs).posted && |u.posted| == s.n
            && var t := Step(Step(u, TakeDesc), Transmit);
               && Inv(t) && |t.wire| == 1 && t.posted == u.posted && t.wire[0] != t.posted[0].bytes
  {
    IntactSends(s, xs);
    var t := Sends(s, xs);
    assert (xs + [x])[..|xs|] == xs;
    OverwrittenGoesOut(t, x);
  }

  // ---------------------------------------------------------------------------------------------------
  // Sends that all find room in the window

  /** Every one of these sends finds fewer than `n` descriptors outstanding. */
  predicate RoomForAll(s: Tx, xs: seq<Send>)
    requires Shaped(s)
  {
    xs != [] ==> RoomForAll(s, xs[..|xs| - 1]) && Sends(s, xs[..|xs| - 1]).outstanding < s.n
  }

  lemma SendsGoOn(s: Tx, xs: seq<Send>, x: Send)
    requires Shaped(s)
    ensures Sends(s, xs + [x]) == OneSend(Sends(s, xs), x)
  {
    assert (xs + [x])[..|xs|] == xs;
  }

  /** The states between the sends. */
  ghost predicate Chain(states: seq<Tx>, xs: seq<Send>) {
    && |states| == |xs| + 1
    && (forall i | 0 <= i < |xs| :: Shaped(states[i]) && states[i + 1] == OneSend(states[i], xs[i]))
  }

  /** The sends lead from `s` to `r`. */
  ghost predicate Sent(s: Tx, xs: seq<Send>, r: Tx) {
    Shaped(s) && exists states :: Chain(states, xs) && states[0] == s && states[|xs|] == r
  }

  lemma SentNothing(s: Tx)
    requires Shaped(s)
    ensures Sent(s, [], s)
  {
    assert Chain([s], []);
  }

  lemma SentMore(s: Tx, xs: seq<Send>, r: Tx, x: Send, u: Tx)
    requires Sent(s, xs, r) && Shaped(r) && u == OneSend(r, x)
    ensures Sent(s, xs + [x], u)
  {
    var states :| Chain(states, xs) && states[0] == s && states[|xs|] == r;
    var more := states + [u];
    forall i | 0 <= i < |xs| + 1
      ensures Shaped(more[i]) && more[i + 1] == OneSend(more[i], (xs + [x])[i])
    {
      if i < |xs| {
        assert states[i + 1] == OneSend(states[i], xs[i]);
      }
    }
    assert Chain(more, xs + [x]);
  }

  lemma {:induction false} ChainIsSends(states: seq<Tx>, xs: seq<Send>, k: nat)
    requires Chain(states, xs) && Shaped(states[0]) && k <= |xs|
    ensures states[k] == Sends(states[0], xs[..k])
  {
    if k > 0 {
      ChainIsSends(states, xs, k - 1);
      assert xs[..k] == xs[..k - 1] + [xs[k - 1]];
      assert states[k - 1 + 1] == OneSend(states[k - 1], xs[k - 1]);
      SendsGoOn(states[0], xs[..k - 1], xs[k - 1]);
    }
  }

  lemma SentIsSends(s: Tx, xs: seq<Send>, r: Tx)
    requires Sent(s, xs, r)
    ensures r == Sends(s, xs)
  {
    var states :| Chain(states, xs) && states[0] == s && states[|xs|] == r;
    ChainIsSends(states, xs, |xs|);
    assert xs[..|xs|] == xs;
  }

  /** The count outstanding only grows, so its last value tells that every send had room in the window. */
  lemma {:induction false} LastTellsAll(s: Tx, xs: seq<Send>)
    requires Inv(s) && AllProper(xs, s.frameSize) && Sends(s, xs).outstanding < s.n
    ensures RoomForAll(s, xs)
  {
    if xs != [] {
      var ys := xs[..|xs| - 1];
      assert Sends(s, ys).outstanding < s.n by {
        SendsKeepInv(s, ys);
        OutstandingNeverFalls(Sends(s, ys), xs[|xs| - 1]);
      }
      LastTellsAll(s, ys);
    }
  }

  /** Sends of the measuring tool: behind the template, straight after one another. */
  predicate Behind(xs: seq<Send>, template: seq<byte>) {
    forall j | 0 <= j < |xs| :: xs[j].before == [] && xs[j].header == [] && xs[j].offset == |template|
  }

  lemma ToolSend(s: Tx, x: Send)
    requires Shaped(s) && x.before == [] && x.header == []
    ensures OneSend(s, x) == AfterSend(s, x.offset, x.data, x.txtime, x.k0, x.k1, x.kicked)
  {
  }

  lemma {:induction false} SendsKeepTemplate(s: Tx, xs: seq<Send>, template: seq<byte>)
    requires Inv(s) && AllProper(xs, s.frameSize) && Behind(xs, template)
    requires |template| <= s.frameSize && Templated(s, template)
    ensures Inv(Sends(s, xs)) && Templated(Sends(s, xs), template)
  {
    if xs != [] {
      var x := xs[|xs| - 1];
      var r := Sends(s, xs[..|xs| - 1]);
      SendsKeepTemplate(s, xs[..|xs| - 1], template);
      ToolSend(r, x);
      SendKeepsTemplate(r, template, x.data, x.txtime, x.k0, x.k1, x.kicked);
    }
  }

  /** Each of these sends posted the template, its data and its launch time. */
  ghost predicate Posts(posted: seq<Posted>, xs: seq<Send>, template: seq<byte>) {
    && |posted| == |xs|
    && (forall j | 0 <= j < |xs| ::
          posted[j].bytes == template + xs[j].data && posted[j].desc.txtime == xs[j].txtime)
  }

  lemma ToolSendPosts(s: Tx, x: Send, template: seq<byte>)
    requires Inv(s) && Intact(s) && s.outstanding < s.n && Proper(x, s.frameSize)
    requires x.before == [] && x.header == [] && x.offset == |template|
    requires |template| <= s.frameSize && Templated(s, template)
    ensures var r := OneSend(s, x);
            && Inv(r) && Intact(r) && |r.posted| == |s.posted| + 1 && r.posted[..|s.posted|] == s.posted
            && r.posted[|s.posted|].bytes == template + x.data && r.posted[|s.posted|].desc.txtime == x.txtime
  {
    ToolSend(s, x);
    SendIsSafe(s, x.offset, x.data, x.txtime, x.k0, x.k1, x.kicked);
    TemplateCoversAll(s, template, |s.posted|);
  }

  /** From prefilled frames, careful sends post exactly their packets, in order, and nothing on the wire differs. */
  lemma {:induction false} CarefulSendsPost(s: Tx, xs: seq<Send>, template: seq<byte>)
    requires Inv(s) && Intact(s) && s.posted == [] && AllProper(xs, s.frameSize) && Behind(xs, template)
    requires |template| <= s.frameSize && Templated(s, template) && RoomForAll(s, xs)
    ensures var r := Sends(s, xs); Inv(r) && Intact(r) && Posts(r.posted, xs, template)
  {
    if xs != [] {
      var ys, x := xs[..|xs| - 1], xs[|xs| - 1];
      CarefulSendsPost(s, ys, template);
      SendsKeepTemplate(s, ys, template);
      assert xs == ys + [x];
      SendsGoOn(s, ys, x);
      PostOneMore(Sends(s, ys), x, ys, template);
    }
  }

  lemma PostOneMore(r: Tx, x: Send, ys: seq<Send>, template: seq<byte>)
    requires Inv(r) && Intact(r) && r.outstanding < r.n && Proper(x, r.frameSize) && Posts(r.posted, ys, template)
    requires x.before == [] && x.header == [] && x.offset == |template|
    requires |template| <= r.frameSize && Templated(r, template)
    ensures var u := OneSend(r, x); Inv(u) && Intact(u) && Posts(u.posted, ys + [x], template)
  {
    ToolSendPosts(r, x, template);
    PostsMore(r.posted, OneSend(r, x).posted, ys, x, template);
  }

  lemma PostsMore(posted: seq<Posted>, more: seq<Posted>, xs: seq<Send>, x: Send, template: seq<byte>)
    requires Posts(posted, xs, template) && |more| == |posted| + 1 && more[..|posted|] == posted
    requires more[|posted|].bytes == template + x.data && more[|posted|].desc.txtime == x.txtime
    ensures Posts(more, xs + [x], template)
  {
    forall j | 0 <= j < |xs|
      ensures more[j] == posted[j]
    {
      assert more[..|posted|][j] == posted[j];
    }
  }
}
