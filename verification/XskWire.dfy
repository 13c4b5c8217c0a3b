/** Exactly which runs of an AF_XDP sender put the posted bytes on the wire. */
module XskWire {
  import opened Words
  import opened XskTransmit
  import XskSender

  /** The frame of a descriptor that is not on the wire yet still holds what was posted. */
  ghost predicate Holds(s: Tx, j: nat)
    requires Inv(s) && j < |s.posted|
  {
    FrameOf(s, j)[..s.posted[j].desc.len] == s.posted[j].bytes
  }

  /** What is on the wire is what was posted, and what will be is still there. */
  ghost predicate Sound(s: Tx)
    requires Inv(s)
  {
    && (forall k | 0 <= k < |s.wire| :: s.wire[k] == s.posted[k].bytes)
    && (forall j | |s.wire| <= j < |s.posted| :: Holds(s, j))
  }

  /** A write that takes posted bytes from a descriptor not yet on the wire. */
  ghost predicate Harmful(s: Tx, e: Event)
    requires Inv(s)
  {
    && e.Write? && Inv(Step(s, e))
    && exists j | |s.wire| <= j < |s.posted| :: Addr(s, j) == CurAddr(s) && !Holds(Step(s, e), j)
  }

  /** It finds at least `n` descriptors posted and not on the wire; a frame on the wire may be reused. */
  lemma HarmNeedsFullWindow(s: Tx, e: Event)
    requires Inv(s) && Harmful(s, e)
    ensures |s.posted| - |s.wire| >= s.n && s.outstanding >= s.n
  {
    var j :| |s.wire| <= j < |s.posted| && Addr(s, j) == CurAddr(s) && !Holds(Step(s, e), j);
    assert CurAddr(s) == Addr(s, |s.posted|);
    if |s.posted| < j + s.n {
      AddrsDiffer(s, j, |s.posted|);
    }
  }

  lemma WriteSoundIff(s: Tx, e: Event)
    requires Inv(s) && Sound(s) && e.Write?
    ensures Inv(Step(s, e)) && (Sound(Step(s, e)) <==> !Harmful(s, e))
  {
    StepKeepsInv(s, e);
    var t := Step(s, e);
    forall j | |s.wire| <= j < |s.posted| && Addr(s, j) != CurAddr(s)
      ensures Holds(t, j)
    {
      assert Holds(s, j) && FrameOf(t, j) == FrameOf(s, j);
    }
  }

  lemma TransmitKeepsSound(s: Tx)
    requires Inv(s) && Sound(s)
    ensures Inv(Step(s, Transmit)) && Sound(Step(s, Transmit))
  {
    var k, t := |s.wire|, Step(s, Transmit);
    StepKeepsInv(s, Transmit);
    if t != s {
      assert s.taken[k] == s.posted[k].desc && Holds(s, k);
    }
    forall j | |t.wire| <= j < |t.posted|
      ensures Holds(t, j)
    {
      assert Holds(s, j);
    }
  }

  lemma PostKeepsSound(s: Tx, e: Event)
    requires Inv(s) && Sound(s) && !e.Write? && !e.Transmit?
    ensures Inv(Step(s, e)) && Sound(Step(s, e))
  {
    StepKeepsInv(s, e);
    var t := Step(s, e);
    assert CurAddr(s) == Addr(s, |s.posted|);
    forall j | |t.wire| <= j < |t.posted|
      ensures Holds(t, j)
    {
      if j < |s.posted| {
        assert Holds(s, j);
      }
    }
  }

  lemma StepSoundIff(s: Tx, e: Event)
    requires Inv(s) && Sound(s)
    ensures Inv(Step(s, e)) && (Sound(Step(s, e)) <==> !Harmful(s, e))
  {
    if e.Write? {
      WriteSoundIff(s, e);
    } else if e.Transmit? {
      TransmitKeepsSound(s);
    } else {
      PostKeepsSound(s, e);
    }
  }

  ghost predicate AlwaysSound(s: Tx, es: seq<Event>)
    requires Inv(s)
  {
    && (es != [] ==> AlwaysSound(s, es[..|es| - 1]))
    && Inv(Run(s, es)) && Sound(Run(s, es))
  }

  ghost predicate NoHarm(s: Tx, es: seq<Event>)
    requires Inv(s)
  {
    es != [] ==>
      && NoHarm(s, es[..|es| - 1])
      && Inv(Run(s, es[..|es| - 1])) && !Harmful(Run(s, es[..|es| - 1]), es[|es| - 1])
  }

  /** Over every run: the wire and what is queued for it are right at every point if and only if no write harms. */
  lemma {:induction false} AlwaysSoundIff(s: Tx, es: seq<Event>)
    requires Inv(s) && Sound(s)
    ensures AlwaysSound(s, es) <==> NoHarm(s, es)
  {
    if es != [] {
      var before := Run(s, es[..|es| - 1]);
      AlwaysSoundIff(s, es[..|es| - 1]);
      RunKeepsInv(s, es[..|es| - 1]);
      if AlwaysSound(s, es[..|es| - 1]) {
        StepSoundIff(before, es[|es| - 1]);
      }
    }
  }

  lemma OneMoreSent(s: Tx, j: nat, e: Event)
    requires Inv(s) && j < |s.posted|
    ensures var t := Step(s, e);
            && (|s.wire| > j ==> t.wire[..|s.wire|] == s.wire && |t.wire| >= |s.wire|)
            && (|s.wire| <= j < |t.wire| ==> t.wire[j] == FrameOf(s, j)[..s.posted[j].desc.len])
  {
    if e == Transmit && |s.taken| > j {
      assert s.taken[j] == s.posted[j].desc;
    }
  }

  /** Harm that nothing repairs shows: the kernel sends what the frame holds now. */
  lemma {:induction false} HarmShows(s: Tx, j: nat, es: seq<Event>)
    requires Inv(s) && |s.wire| <= j < |s.posted| && XskSender.KernelOnly(es)
    ensures var t := Run(s, es);
            && Inv(t) && t.frames == s.frames && t.posted == s.posted
            && (|t.wire| > j ==> t.wire[j] == FrameOf(s, j)[..s.posted[j].desc.len])
  {
    XskSender.KernelRunsAside(s, es);
    if es != [] {
      HarmShows(s, j, es[..|es| - 1]);
      XskSender.KernelRunsAside(s, es[..|es| - 1]);
      OneMoreSent(Run(s, es[..|es| - 1]), j, es[|es| - 1]);
    }
  }

  /** A fresh socket is sound, and fewer than `n` outstanding at every write is enough. */
  lemma {:induction false} CarefulIsHarmless(s: Tx, es: seq<Event>)
    requires Inv(s) && Careful(s, es)
    ensures NoHarm(s, es)
  {
    if es != [] {
      var before := Run(s, es[..|es| - 1]);
      CarefulIsHarmless(s, es[..|es| - 1]);
      RunKeepsInv(s, es[..|es| - 1]);
      if Harmful(before, es[|es| - 1]) {
        HarmNeedsFullWindow(before, es[|es| - 1]);
      }
    }
  }
}
