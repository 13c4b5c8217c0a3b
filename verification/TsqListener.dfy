/** The talkers' connections and the listener of `src/tsq.c`, updated in place. */
module TsqListener {
  import opened Words
  import opened LittleEndian
  import opened Subsequences
  import opened TsqFraming
  import opened TsqPairing

  const Digit0: byte := 48
  const NewLine: byte := 10

  /** The greeting: three or four decimal digits and a newline in a zeroed buffer. */
  function Greeting(uid: u32): (b: seq<byte>)
    requires 999 <= uid <= 9999
    ensures IsHello(b)
  {
    var digits: seq<byte> :=
      (if uid < 1000 then [] else [Digit0 + uid / 1000])
      + [Digit0 + uid / 100 % 10, Digit0 + uid / 10 % 10, Digit0 + uid % 10, NewLine];
    digits + Zeros(256 - |digits|)
  }

  predicate IsDigit(b: byte) { 48 <= b < 58 }

  /** `atoi` on unsigned digits, from byte `i` on. */
  function Atoi(s: seq<byte>, i: nat, sum: int): int
    requires i <= |s|
    decreases |s| - i
  {
    if i < |s| && IsDigit(s[i]) then Atoi(s, i + 1, 10 * sum + (s[i] as int - 48)) else sum
  }

  lemma {:induction false} AtoiOfDigits(s: seq<byte>, i: nat, sum: int, k: nat)
    requires i <= k < |s| && !IsDigit(s[k]) && (forall j | i <= j < k :: IsDigit(s[j]))
    ensures i == k ==> Atoi(s, i, sum) == sum
    ensures i < k ==> Atoi(s, i, sum) == Atoi(s, i + 1, 10 * sum + (s[i] as int - 48))
  {
  }

  lemma FourDigits(s: seq<byte>, d: nat, h: nat, t: nat, u: nat)
    requires |s| > 4 && d < 10 && h < 10 && t < 10 && u < 10
    requires s[0] == 48 + d && s[1] == 48 + h && s[2] == 48 + t && s[3] == 48 + u && s[4] == NewLine
    ensures Atoi(s, 0, 0) == 1000 * d + 100 * h + 10 * t + u
  {
    AtoiOfDigits(s, 0, 0, 4);
    AtoiOfDigits(s, 1, d, 4);
    AtoiOfDigits(s, 2, 10 * d + h, 4);
    AtoiOfDigits(s, 3, 100 * d + 10 * h + t, 4);
    AtoiOfDigits(s, 4, 1000 * d + 100 * h + 10 * t + u, 4);
  }

  lemma ThreeDigits(s: seq<byte>, h: nat, t: nat, u: nat)
    requires |s| > 3 && h < 10 && t < 10 && u < 10
    requires s[0] == 48 + h && s[1] == 48 + t && s[2] == 48 + u && s[3] == NewLine
    ensures Atoi(s, 0, 0) == 100 * h + 10 * t + u
  {
    AtoiOfDigits(s, 0, 0, 3);
    AtoiOfDigits(s, 1, h, 3);
    AtoiOfDigits(s, 2, 10 * h + t, 3);
    AtoiOfDigits(s, 3, 100 * h + 10 * t + u, 3);
  }

  lemma DecimalDigits(uid: nat)
    requires uid <= 9999
    ensures uid == 1000 * (uid / 1000) + 100 * (uid / 100 % 10) + 10 * (uid / 10 % 10) + uid % 10
  {
    assert uid / 100 == uid / 10 / 10 && uid / 1000 == uid / 10 / 10 / 10;
  }

  /** The listener learns the uid the talker was started with. */
  lemma GreetingIsUnderstood(uid: u32)
    requires 999 <= uid <= 9999
    ensures Atoi(Greeting(uid)[..255], 0, 0) == uid
  {
    DecimalDigits(uid);
    if uid < 1000 {
      ThreeDigits(Greeting(uid)[..255], uid / 100 % 10, uid / 10 % 10, uid % 10);
    } else {
      FourDigits(Greeting(uid)[..255], uid / 1000, uid / 100 % 10, uid / 10 % 10, uid % 10);
    }
  }

  /** A full read moves on by one byte less than a frame; a short one ends on a frame boundary. */
  lemma ReadKeepsPhase(pos: nat, fullReads: nat, count: nat, n: nat)
    requires (pos + fullReads) % 256 == 0 && 255 * fullReads <= pos && pos + n <= 256 * count
    ensures n == 255 ==> (pos + n + (fullReads + 1)) % 256 == 0 && 255 * (fullReads + 1) <= pos + n
    ensures pos + n == 256 * count ==> (pos + n) % 256 == 0
  {
  }

  predicate OwnUid(written: seq<Payload>, uid: u32) { forall k | 0 <= k < |written| :: written[k].uid == uid }

  /** One TCP connection: what the talker has written and how far the listener has read. */
  class Connection {
    const uid: u32
    var seqNo: u32
    var frames: seq<seq<byte>>
    var written: seq<Payload>
    var pos: nat
    /** Reads of a full buffer since the last one that emptied the socket. */
    var fullReads: nat

    ghost predicate Valid()
      reads this
    {
      && 999 <= uid <= 9999 && Whole(frames) && Stream(frames, written)
      && Numbered(written) && seqNo == ToU32(|written|) && OwnUid(written, uid)
      && 255 <= pos <= 256 * |frames|
      && (pos + fullReads) % 256 == 0 && 255 * fullReads <= pos
    }

    /** The talker connects and greets; the listener's first read takes 255 bytes of that. */
    constructor (id: u32)
      requires 999 <= id <= 9999
      ensures Valid() && uid == id && written == [] && |frames| == 1 && pos == 255 && fullReads == 1
    {
      uid := id;
      seqNo := 0;
      frames := [Greeting(id)];
      written := [];
      pos := 255;
      fullReads := 1;
    }

    /** One pass of the talker's loop: the last of the events read counts, and none means nothing is sent. */
    method Sample(events: seq<(u64, u32)>)
      requires Valid()
      modifies this
      ensures Valid() && pos == old(pos) && fullReads == old(fullReads)
      ensures var sent := events != [] && events[|events| - 1].0 != 0 && events[|events| - 1].1 != 0;
              if sent then
                && written == old(written)
                            + [Payload(uid, old(seqNo), events[|events| - 1].0, events[|events| - 1].1)]
                && |frames| == old(|frames|) + 1
              else written == old(written) && frames == old(frames)
    {
      var sec: u64, nsec: u32 := 0, 0;
      var i := 0;
      while i < |events|
        invariant 0 <= i <= |events|
        invariant i == 0 ==> sec == 0 && nsec == 0
        invariant i > 0 ==> (sec, nsec) == events[i - 1]
      {
        sec, nsec := events[i].0, events[i].1;
        i := i + 1;
      }
      if sec != 0 && nsec != 0 {
        var p := Payload(uid, seqNo, sec, nsec);
        frames := frames + [FrameOf(p)];
        written := written + [p];
        seqNo := Add32(seqNo, 1);
        SumSurvivesWrap(|old(written)|, 1);
        forall f | 0 <= f < |written|
          ensures Sendable(written[f]) && frames[f + 1] == FrameOf(written[f])
        {
          if f < |old(written)| {
            assert old(frames)[f + 1] == FrameOf(old(written)[f]);
          }
        }
      }
    }

    /** The next `read` on this socket. A short one leaves the reader on a frame boundary. */
    method Read() returns (n: nat, buffer: seq<byte>)
      requires Valid()
      modifies this`pos, this`fullReads
      ensures Valid()
      ensures n == ReadCount(frames, old(pos)) && buffer == Window(frames, old(pos)) && pos == old(pos) + n
      ensures fullReads == if n == 255 then old(fullReads) + 1 else 0
      ensures n < 255 ==> pos % 256 == 0 && pos == 256 * |frames|
    {
      n, buffer := ReadCount(frames, pos), Window(frames, pos);
      ReadKeepsPhase(pos, fullReads, |frames|, n);
      pos := pos + n;
      fullReads := if n == 255 then fullReads + 1 else 0;
    }
  }

  method ValidatePayload(p: Payload, ids: seq<u32>) returns (ok: bool)
    ensures ok <==> p.uid > 0 && p.secs > 0 && p.nsecs > 0 && p.uid in ids
    ensures ok <==> Accepted(p, ids)
  {
    SendableIsAccepted(p, ids);
    ok := false;
    if p.uid != 0 && p.secs != 0 && p.nsecs != 0 {
      var i := 0;
      while i < |ids|
        invariant 0 <= i <= |ids| && !ok
        invariant p.uid !in ids[..i]
      {
        if ids[i] == p.uid {
          ok := true;
          break;
        }
        i := i + 1;
      }
    }
  }

  method DataReady(flags: array<bool>) returns (ready: bool)
    ensures ready <==> forall k | 0 <= k < flags.Length :: flags[k]
  {
    var i := 0;
    while i < flags.Length
      invariant 0 <= i <= flags.Length
      invariant forall k | 0 <= k < i :: flags[k]
    {
      if flags[i] == false {
        return false;
      }
      i := i + 1;
    }
    return true;
  }

  method ResetDataReady(flags: array<bool>)
    modifies flags
    ensures forall k | 0 <= k < flags.Length :: !flags[k]
  {
    var i := 0;
    while i < flags.Length
      invariant 0 <= i <= flags.Length
      invariant forall k | 0 <= k < i :: !flags[k]
    {
      flags[i] := false;
      i := i + 1;
    }
  }

  /** What one connection offers in a round. */
  function Offer(readable: bool, frames: seq<seq<byte>>, pos: nat): Read
    requires Whole(frames) && pos <= 256 * |frames|
  {
    if readable then Arrived(ReadCount(frames, pos), Decoded(Window(frames, pos))) else Idle
  }

  /** A whole frame offers its sample first and one zero byte afterwards. */
  lemma FrameIsReadTwice(frames: seq<seq<byte>>, written: seq<Payload>)
    requires Stream(frames, written) && Whole(frames) && written != []
    ensures Offer(true, frames, 256 * |written|) == Arrived(255, written[|written| - 1])
    ensures Offer(true, frames, 256 * |written| + 255) == Arrived(1, Blank)
  {
    var f := |written|;
    AlignedWindow(frames, written, f, Window(frames, 256 * f));
    assert frames[f][255] == 0 by {
      assert frames[f] == FrameOf(written[f - 1]);
      FrameBytes(written[f - 1]);
    }
    var w := Window(frames, 256 * f + 255);
    WindowInFrame(frames, f, 255, w);
    ZerosAreBlank(w);
  }

  lemma ZerosAreBlank(w: seq<byte>)
    requires |w| == 24 && forall i | 0 <= i < 24 :: w[i] == 0
    ensures Decoded(w) == Blank
  {
    assert w[..4] == [0, 0, 0, 0] && w[4..8] == [0, 0, 0, 0];
    Value8IsZero(w[8..16]);
    Value8IsZero(w[16..]);
  }

  /** What is read after a sample was, whatever was written meanwhile, is no sample. */
  lemma SampleIsFollowedByNone(frames: seq<seq<byte>>, written: seq<Payload>, ids: seq<u32>, f: nat)
    requires Stream(frames, written) && Whole(frames) && Ids(ids) && 1 <= f <= |written|
    ensures ReadCount(frames, 256 * f) == 255
    ensures !Accepted(Decoded(Window(frames, 256 * f + 255)), ids)
  {
    var got := Decoded(Window(frames, 256 * f + 255));
    if Accepted(got, ids) {
      AcceptedIsWritten(frames, written, ids, f, 255, got);
    }
  }

  /** The samples accepted from one socket are samples its talker wrote, in order, from frames already read. */
  ghost predicate Traced(got: seq<Payload>, written: seq<Payload>, at: seq<int>, pos: nat) {
    && Picks(got, written, at)
    && (forall k | 0 <= k < |at| :: 256 * (at[k] + 1) < pos)
  }

  lemma TraceGrows(got: seq<Payload>, written: seq<Payload>, at: seq<int>, f: nat, next: nat)
    requires Traced(got, written, at, 256 * (f + 1)) && f < |written| && next > 256 * (f + 1)
    ensures Traced(got + [written[f]], written, at + [f], next)
  {
  }

  /** An accepted payload extends the trace if it was read from the start of a frame. */
  lemma AcceptedExtendsTrace(frames: seq<seq<byte>>, written: seq<Payload>, ids: seq<u32>, f: nat, o: nat,
                             got: seq<Payload>, at: seq<int>, p: Payload)
    requires Stream(frames, written) && Whole(frames) && Ids(ids)
    requires o < 256 && 255 <= 256 * f + o <= 256 * |frames|
    requires Traced(got, written, at, 256 * f + o)
    requires p == Decoded(Window(frames, 256 * f + o)) && Accepted(p, ids)
    ensures 1 <= f <= |written| && (o == 0 || o == 3) && ReadCount(frames, 256 * f + o) > 0
    ensures o == 0 ==> Traced(got + [p], written, at + [f - 1], 256 * f + ReadCount(frames, 256 * f))
    ensures o == 3 ==> Mistakable(written[f - 1], ids)
  {
    AcceptedIsWritten(frames, written, ids, f, o, p);
    if o == 0 {
      TraceGrows(got, written, at, f - 1, 256 * f + ReadCount(frames, 256 * f));
    }
  }

  /** What the next read of a connection does to the trace if its payload is accepted. */
  lemma NextRead(c: Connection, ids: seq<u32>, got: seq<Payload>, at: seq<int>, p: Payload)
    requires c.Valid() && Ids(ids) && Traced(got, c.written, at, c.pos)
    requires p == Decoded(Window(c.frames, c.pos)) && Accepted(p, ids)
    ensures !Misread(c.written, c.pos, ids) ==>
              Traced(got + [p], c.written, at + [c.pos / 256 - 1], c.pos + ReadCount(c.frames, c.pos))
  {
    var f, o := c.pos / 256, c.pos % 256;
    assert c.pos == 256 * f + o;
    AcceptedExtendsTrace(c.frames, c.written, ids, f, o, got, at, p);
  }

  /** The next read begins at the start of a written sample. */
  ghost predicate AtSample(c: Connection)
    reads c
  {
    c.pos % 256 == 0 && 0 < c.pos / 256 <= |c.written|
  }

  /** A read at the start of a written frame brings that sample, and it is accepted. */
  lemma NextSample(c: Connection, ids: seq<u32>, p: Payload)
    requires c.Valid() && c.uid in ids && p == Decoded(Window(c.frames, c.pos))
    requires AtSample(c)
    ensures p == c.written[c.pos / 256 - 1] && Accepted(p, ids) && ReadCount(c.frames, c.pos) == 255
  {
    var f := c.pos / 256;
    assert c.pos == 256 * f;
    AlignedWindow(c.frames, c.written, f, Window(c.frames, c.pos));
    assert c.frames[f] == FrameOf(c.written[f - 1]);
    SendableIsAccepted(c.written[f - 1], ids);
  }

  /** Which reads of a connection are accepted as something its talker did not put there. */
  lemma NextMisread(c: Connection, ids: seq<u32>, p: Payload)
    requires c.Valid() && Ids(ids) && p == Decoded(Window(c.frames, c.pos))
    ensures Accepted(p, ids) && !(c.pos % 256 == 0 && 0 < c.pos / 256 <= |c.written| && p == c.written[c.pos / 256 - 1])
            <==> Misread(c.written, c.pos, ids)
    ensures Misread(c.written, c.pos, ids) ==>
              c.fullReads % 256 == 253 && |c.written| > SAFE_SAMPLES && !NoRoundUid(ids)
  {
    var f, o := c.pos / 256, c.pos % 256;
    assert c.pos == 256 * f + o;
    MisreadIff(c.frames, c.written, ids, f, o, p);
    if Misread(c.written, c.pos, ids) {
      MisreadIsLate(c.written, ids, c.pos, c.fullReads);
    }
  }

  /** Reads and decodes; the trace survives, and grows unless the payload accepted was misread. */
  method ReadPayload(c: Connection, ids: seq<u32>, ghost got: seq<Payload>, ghost at: seq<int>, ghost untraced: bool)
    returns (n: nat, temp: Payload)
    requires c.Valid() && Ids(ids) && (!untraced ==> Traced(got, c.written, at, c.pos))
    modifies c`pos, c`fullReads
    ensures c.Valid() && Arrived(n, temp) == Offer(true, c.frames, old(c.pos))
    ensures Misread(c.written, old(c.pos), ids) ==> n > 0 && Accepted(temp, ids)
    ensures c.uid in ids && old(AtSample(c)) ==>
              n > 0 && Accepted(temp, ids) && temp == c.written[old(c.pos) / 256 - 1]
    ensures !untraced ==> Traced(got, c.written, at, c.pos)
    ensures !untraced && Accepted(temp, ids) && !Misread(c.written, old(c.pos), ids) ==>
              Traced(got + [temp], c.written, at + [old(c.pos) / 256 - 1], c.pos)
  {
    ghost var next := Decoded(Window(c.frames, c.pos));
    NextMisread(c, ids, next);
    if c.uid in ids && AtSample(c) {
      NextSample(c, ids, next);
    }
    if !untraced && Accepted(next, ids) {
      NextRead(c, ids, got, at, next);
    }
    var buffer;
    n, buffer := c.Read();
    temp := Decoded(buffer);
  }

  /** What the two talkers' clocks deliver before a round, and which sockets are then readable. */
  datatype Turn = Turn(first: seq<(u64, u32)>, second: seq<(u64, u32)>, readable: (bool, bool))

  class Listener {
    const conns: seq<Connection>
    const ids: seq<u32>
    const cliData: array<Payload>
    const valid: array<bool>
    var skip: bool
    var keepSlot: nat
    var keep: Payload
    var rounds: nat
    var log: seq<Line>
    // What was accepted, where it came from, and whether anything was accepted that was read from byte 3.
    var dataAt: seq<nat>
    var keepAt: nat
    var got: seq<seq<Payload>>
    ghost var gotAt: seq<seq<int>>
    ghost var mistaken: bool

    function Now(): State
      reads this, cliData, valid
    {
      State(cliData[..], dataAt, valid[..], skip, keepSlot, keep, keepAt, rounds, log, got)
    }

    /** The two sockets, and the listener's own two buffers. */
    ghost predicate Wired()
      reads this, conns
    {
      && |conns| == 2 && conns[0] != conns[1]
      && conns[0].Valid() && conns[1].Valid()
      && ids == [conns[0].uid, conns[1].uid]
      && cliData.Length == valid.Length == 2 && |gotAt| == 2
    }

    ghost predicate Honest(i: nat)
      requires i < |conns| && i < |got| && i < |gotAt|
      reads this, conns[i]
    {
      Traced(got[i], conns[i].written, gotAt[i], conns[i].pos)
    }

    ghost predicate Valid()
      reads this, conns, cliData, valid
    {
      && Wired() && Shape(Now())
      && (!mistaken ==> Honest(0) && Honest(1))
    }

    constructor (a: Connection, b: Connection)
      requires a != b && a.Valid() && b.Valid()
      ensures Valid() && Now() == Start && !mistaken && conns == [a, b]
      ensures fresh(cliData) && fresh(valid)
    {
      conns, ids := [a, b], [a.uid, b.uid];
      cliData := new Payload[2](_ => Blank);
      valid := new bool[2](_ => false);
      skip, keepSlot, keep, keepAt, rounds, log := false, 0, Blank, 0, 0, [];
      dataAt, got, gotAt, mistaken := [0, 0], [[], []], [[], []], false;
    }

    method RestoreKept(i: nat)
      requires Wired() && Shape(Now()) && i < 2
      modifies this`dataAt, cliData, valid
      ensures Now() == Restored(old(Now()), i)
    {
      cliData[i] := keep;
      valid[i] := true;
      dataAt := dataAt[i := keepAt];
    }

    method StoreNew(i: nat, temp: Payload, ghost place: int, ghost late: bool)
      requires Wired() && Shape(Now()) && i < 2
      modifies this`dataAt, this`got, this`gotAt, this`mistaken, cliData, valid
      ensures Now() == Stored(old(Now()), i, temp)
      ensures gotAt == old(gotAt)[i := old(gotAt)[i] + [place]]
      ensures mistaken == (old(mistaken) || late)
    {
      valid[i] := true;
      cliData[i] := temp;
      dataAt := dataAt[i := |got[i]|];
      got := got[i := got[i] + [temp]];
      gotAt := gotAt[i := gotAt[i] + [place]];
      mistaken := mistaken || late;
    }

    /** The `read` of one slot; `place` is the written sample the next acceptance would trace to. */
    method ReadSlot(i: nat, conn: Connection) returns (n: nat, temp: Payload, ghost place: int, ghost late: bool)
      requires Valid() && i < 2 && conn == conns[i]
      modifies conn`pos, conn`fullReads
      ensures Valid()
      ensures Arrived(n, temp) == Offer(true, conn.frames, old(conn.pos))
      ensures late == Misread(conn.written, old(conn.pos), ids) && (late ==> n > 0 && Accepted(temp, ids))
      ensures !mistaken && Accepted(temp, ids) && !late ==>
                Traced(got[i] + [temp], conn.written, gotAt[i] + [place], conn.pos)
      ensures old(AtSample(conn)) ==>
                n > 0 && Accepted(temp, ids) && temp == conn.written[old(conn.pos) / 256 - 1]
    {
      place, late := conn.pos / 256 - 1, Misread(conn.written, conn.pos, ids);
      n, temp := ReadPayload(conn, ids, got[i], gotAt[i], mistaken);
    }

    /** One slot of the listener's loop. */
    method TakeSlot(i: nat, conn: Connection, readable: bool)
      requires Valid() && i < 2 && conn == conns[i]
      modifies this`dataAt, this`got, this`gotAt, this`mistaken, cliData, valid, conn`pos, conn`fullReads
      ensures Valid()
      ensures Now() == Take(old(Now()), i, Offer(readable, conn.frames, old(conn.pos)), ids)
      ensures mistaken <==> old(mistaken) || (readable && !(skip && keepSlot == i)
                                              && Misread(conn.written, old(conn.pos), ids))
      ensures readable && !(skip && keepSlot == i) && old(AtSample(conn)) ==>
                valid[i] && cliData[i] == conn.written[old(conn.pos) / 256 - 1]
    {
      if readable {
        var n, temp;
        ghost var place, late;
        n, temp, place, late := ReadSlot(i, conn);
        if skip && keepSlot == i {
          RestoreKept(i);
        } else if n > 0 {
          var ok := ValidatePayload(temp, ids);
          if ok {
            StoreNew(i, temp, place, late);
          }
        }
      }
    }

    method DecideSlots()
      requires Wired() && Shape(Now())
      modifies this`skip, this`keepSlot, this`keep, this`keepAt, this`rounds, this`log
      ensures Now() == Decided(old(Now()))
    {
      var secs := ToI64(cliData[0].secs) - ToI64(cliData[1].secs);
      var nsecs := cliData[0].nsecs - cliData[1].nsecs;
      match secs {
        case 1 =>
          skip, keepSlot, keep, keepAt := true, 0, cliData[0], dataAt[0];
        case -1 =>
          skip, keepSlot, keep, keepAt := true, 1, cliData[1], dataAt[1];
        case 0 =>
          skip, keep := false, Blank;
          log := log + [Line(rounds, secs, nsecs, dataAt)];
          rounds := rounds + 1;
        case _ =>
          skip, keep := false, Blank;
      }
    }

    /** The comparison at the end of a round. */
    method CompareSlots()
      requires Valid()
      modifies this`skip, this`keepSlot, this`keep, this`keepAt, this`rounds, this`log, cliData, valid
      ensures Valid() && Now() == Compare(old(Now()))
    {
      var ready := DataReady(valid);
      if ready {
        DecideSlots();
        ResetDataReady(valid);
        cliData[0], cliData[1] := Blank, Blank;
      }
    }

    /** One pass of the listener's main loop; which sockets `select` found readable is arbitrary. */
    method ServeRound(a: Connection, b: Connection, readable: seq<bool>)
      requires Valid() && a == conns[0] && b == conns[1] && |readable| == 2
      modifies this`skip, this`keepSlot, this`keep, this`keepAt, this`rounds, this`log
      modifies this`dataAt, this`got, this`gotAt, this`mistaken, cliData, valid
      modifies a`pos, a`fullReads, b`pos, b`fullReads
      ensures Valid()
      ensures Now() == Round(old(Now()), [Offer(readable[0], a.frames, old(a.pos)),
                                          Offer(readable[1], b.frames, old(b.pos))], ids)
      ensures mistaken <==>
                || old(mistaken)
                || (readable[0] && !(old(skip) && old(keepSlot) == 0) && Misread(a.written, old(a.pos), ids))
                || (readable[1] && !(old(skip) && old(keepSlot) == 1) && Misread(b.written, old(b.pos), ids))
      ensures mistaken && !old(mistaken) ==>
                && !NoRoundUid(ids)
                && ((old(a.fullReads) % 256 == 253 && |a.written| > SAFE_SAMPLES)
                    || (old(b.fullReads) % 256 == 253 && |b.written| > SAFE_SAMPLES))
    {
      NextMisread(a, ids, Decoded(Window(a.frames, a.pos)));
      NextMisread(b, ids, Decoded(Window(b.frames, b.pos)));
      TakeSlot(0, a, readable[0]);
      TakeSlot(1, b, readable[1]);
      CompareSlots();
    }

    /** A talker's loop runs once. */
    method LetTalk(i: nat, conn: Connection, events: seq<(u64, u32)>)
      requires Valid() && i < 2 && conn == conns[i]
      modifies conn
      ensures Valid() && old(conn.written) <= conn.written
      ensures conn.pos == old(conn.pos) && conn.fullReads == old(conn.fullReads)
    {
      conn.Sample(events);
    }

    /**
     Any number of rounds, with the talkers running in between. As long as nothing misread was accepted, every
     line of the log compares one written sample of each talker. In each talker's first 2^24 + 4 samples, and
     for ever with uids that are no multiples of 256, nothing ever is.
     */
    method Listen(a: Connection, b: Connection, turns: seq<Turn>)
      requires Valid() && Inv(Now(), ids) && a == conns[0] && b == conns[1]
      modifies this, cliData, valid, a, b
      ensures Valid() && Inv(Now(), ids)
      ensures mistaken && !old(mistaken) ==>
                !NoRoundUid(ids) && (|a.written| > SAFE_SAMPLES || |b.written| > SAFE_SAMPLES)
      ensures !mistaken && StrictlyIncreasing(SecondsOf(a.written)) ==>
                (forall k | 0 <= k < |log| :: ComparesWritten(Now(), k, [a.written, b.written]))
                && (forall j, k | 0 <= j < k < |log| :: LoggedSecond(Now(), j) < LoggedSecond(Now(), k))
    {
      var t := 0;
      while t < |turns|
        invariant 0 <= t <= |turns|
        invariant Valid() && Inv(Now(), ids)
        invariant mistaken && !old(mistaken) ==>
                    !NoRoundUid(ids) && (|a.written| > SAFE_SAMPLES || |b.written| > SAFE_SAMPLES)
      {
        TakeTurn(a, b, turns[t]);
        t := t + 1;
      }
      if !mistaken && StrictlyIncreasing(SecondsOf(a.written)) {
        LogOfWrittenSamples(Now(), ids, [a.written, b.written], gotAt);
      }
    }

    /** Both talkers, then the listener. */
    method TakeTurn(a: Connection, b: Connection, turn: Turn)
      requires Valid() && Inv(Now(), ids) && a == conns[0] && b == conns[1]
      modifies this, cliData, valid, a, b
      ensures Valid() && Inv(Now(), ids)
      ensures old(a.written) <= a.written && old(b.written) <= b.written
      ensures mistaken && !old(mistaken) ==>
                !NoRoundUid(ids) && (|a.written| > SAFE_SAMPLES || |b.written| > SAFE_SAMPLES)
    {
      LetTalk(0, a, turn.first);
      LetTalk(1, b, turn.second);
      ghost var r := [Offer(turn.readable.0, a.frames, a.pos), Offer(turn.readable.1, b.frames, b.pos)];
      RoundKeepsInv(Now(), r, ids);
      ServeRound(a, b, [turn.readable.0, turn.readable.1]);
    }
  }

  // ---------------------------------------------------------------------------------------------------
  // A misreading that does happen

  /** The first `n` samples of a talker started with uid 1024 whose pulses come a little late in each second. */
  function LateSamples(n: nat): (s: seq<Payload>)
    requires n < W32
    ensures |s| == n && forall k | 0 <= k < n :: s[k] == Payload(1024, k, k + 1, 0x100_0001)
  {
    seq(n, k requires 0 <= k < n => Payload(1024, k, k + 1, 0x100_0001))
  }

  /** The talker writes one more such sample. */
  method SampleLate(c: Connection)
    requires c.Valid() && c.uid == 1024 && |c.written| + 1 < W32 && c.written == LateSamples(|c.written|)
    modifies c
    ensures c.Valid() && |c.written| == old(|c.written|) + 1 && c.written == LateSamples(|c.written|)
    ensures c.pos == old(c.pos) && c.fullReads == old(c.fullReads)
  {
    c.Sample([(|c.written| + 1, 0x100_0001)]);
    assert c.written == LateSamples(|c.written|);
  }

  const KEPT_UP: nat := 0xff_ff08

  /** The reader keeps up with the first samples. */
  method KeepUp() returns (c: Connection)
    ensures fresh(c) && c.Valid() && c.uid == 1024
    ensures |c.written| == KEPT_UP && c.written == LateSamples(KEPT_UP)
    ensures c.pos == 256 * (KEPT_UP + 1) && c.fullReads == 0
  {
    c := new Connection(1024);
    var n, buffer := c.Read();
    while |c.written| < KEPT_UP
      invariant c.Valid() && fresh(c) && c.uid == 1024
      invariant |c.written| <= KEPT_UP && c.written == LateSamples(|c.written|)
      invariant c.pos == 256 * (|c.written| + 1) && c.fullReads == 0
      decreases KEPT_UP - |c.written|
    {
      SampleLate(c);
      n, buffer := c.Read();
      n, buffer := c.Read();
    }
  }

  /** Then it falls 254 samples behind, and the 254th read of the backlog accepts a payload nobody wrote. */
  method FallBehind(other: u32) returns (c: Connection, got: Payload)
    requires 999 <= other <= 9999
    ensures c.Valid() && Accepted(got, [c.uid, other]) && got.uid == c.uid && got !in c.written
    ensures StrictlyIncreasing(SecondsOf(c.written))
  {
    c := KeepUp();
    while |c.written| < KEPT_UP + 254
      invariant c.Valid() && fresh(c) && c.uid == 1024
      invariant |c.written| <= KEPT_UP + 254 && c.written == LateSamples(|c.written|)
      invariant c.pos == 256 * (KEPT_UP + 1) && c.fullReads == 0
      decreases KEPT_UP + 254 - |c.written|
    {
      SampleLate(c);
    }
    var n, buffer;
    while c.fullReads < 253
      invariant c.Valid() && fresh(c) && c.uid == 1024
      invariant |c.written| == KEPT_UP + 254 && c.written == LateSamples(|c.written|)
      invariant c.fullReads <= 253 && c.pos == 256 * (KEPT_UP + 1) + 255 * c.fullReads
      decreases 253 - c.fullReads
    {
      n, buffer := c.Read();
    }
    LateSampleIsMisread(c, [1024, other]);
    n, buffer := c.Read();
    got := Decoded(buffer);
  }

  lemma LateSampleIsMisread(c: Connection, ids: seq<u32>)
    requires c.Valid() && Ids(ids) && 1024 in ids && c.pos == 256 * (SAFE_SAMPLES + 1) + 3
    requires |c.written| == KEPT_UP + 254 && c.written == LateSamples(|c.written|)
    ensures var got := Decoded(Window(c.frames, c.pos));
            Accepted(got, ids) && got.uid == 1024 && got !in c.written
    ensures StrictlyIncreasing(SecondsOf(c.written))
  {
    ThreeBytesLate(c.frames, c.written, ids, SAFE_SAMPLES + 1, Window(c.frames, c.pos));
  }
}
