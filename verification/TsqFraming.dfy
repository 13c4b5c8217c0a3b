/**
 The byte stream between a TSQ talker and the listener (`src/tsq.c`). Talkers write 256-byte frames; the
 listener reads at most 255 bytes at a time and looks at the first 24, so while a backlog lasts it drifts one
 byte further into the frames with every read.
 */
module TsqFraming {
  import opened Words
  import opened LittleEndian
  import opened Subsequences

  /** `struct payload` as bit patterns: 32-bit uid and sequence, 64-bit seconds and nanoseconds. */
  datatype Payload = Payload(uid: u32, seq_: u32, secs: u64, nsecs: u64)

  function Zeros(count: nat): (s: seq<byte>)
    ensures |s| == count && forall i | 0 <= i < count :: s[i] == 0
  {
    seq(count, _ => 0)
  }

  function Encoded(p: Payload): (s: seq<byte>)
    ensures |s| == 24
  {
    Bytes4(p.uid) + Bytes4(p.seq_) + Bytes8(p.secs) + Bytes8(p.nsecs)
  }

  /** What `talker` writes for one sample. */
  function FrameOf(p: Payload): (s: seq<byte>)
    ensures |s| == 256
  {
    Encoded(p) + Zeros(232)
  }

  /** `memcpy(&temp_data, recv_buff, sizeof(payload))`. */
  function Decoded(w: seq<byte>): Payload
    requires |w| == 24
  {
    Payload(Value4(w[..4]), Value4(w[4..8]), Value8(w[8..16]), Value8(w[16..]))
  }

  /** Encoding and decoding are inverse. */
  lemma DecodeEncode(p: Payload)
    ensures Decoded(Encoded(p)) == p
  {
    Value4OfBytes(p.uid);
    Value4OfBytes(p.seq_);
    Value8OfBytes(p.secs);
    Value8OfBytes(p.nsecs);
    var w := Encoded(p);
    assert w[..4] == Bytes4(p.uid) && w[4..8] == Bytes4(p.seq_);
    assert w[8..16] == Bytes8(p.secs) && w[16..] == Bytes8(p.nsecs);
  }

  /** Command-line checks bound uids; the PTP event's nanoseconds are 32 bits wide. */
  predicate Sendable(p: Payload) { 999 <= p.uid <= 9999 && p.secs != 0 && 0 < p.nsecs < W32 }

  /** `validate_payload` for the ids the listener collected. */
  predicate Accepted(p: Payload, ids: seq<u32>) { p.uid != 0 && p.secs != 0 && p.nsecs != 0 && p.uid in ids }

  /** Nothing a talker can send is turned away, and nothing without an id, a second or a nanosecond is let in. */
  lemma SendableIsAccepted(p: Payload, ids: seq<u32>)
    ensures Sendable(p) && p.uid in ids ==> Accepted(p, ids)
    ensures Accepted(p, ids) <==> p.uid > 0 && p.secs > 0 && p.nsecs > 0 && p.uid in ids
  {
  }

  predicate Ids(ids: seq<u32>) { forall i | 0 <= i < |ids| :: 999 <= ids[i] <= 9999 }

  // ---------------------------------------------------------------------------------------------------
  // Streams of frames, whatever their bytes mean

  predicate Whole(frames: seq<seq<byte>>) { forall f | 0 <= f < |frames| :: |frames[f]| == 256 }

  function ByteAt(frames: seq<seq<byte>>, q: nat): byte
    requires Whole(frames) && q < 256 * |frames|
  {
    frames[q / 256][q % 256]
  }

  /** How many bytes one read returns. */
  function ReadCount(frames: seq<seq<byte>>, pos: nat): int {
    var left := 256 * |frames| - pos;
    if left < 255 then left else 255
  }

  /** Byte `i` of the zeroed buffer after one read at `pos`. */
  function Buffered(frames: seq<seq<byte>>, pos: nat, i: nat): byte
    requires Whole(frames) && pos <= 256 * |frames|
  {
    if i < ReadCount(frames, pos) then ByteAt(frames, pos + i) else 0
  }

  /** The first bytes of that buffer. */
  function BufferHead(frames: seq<seq<byte>>, pos: nat, count: nat): (w: seq<byte>)
    requires Whole(frames) && pos <= 256 * |frames|
    ensures |w| == count
    ensures forall i {:trigger Buffered(frames, pos, i)} | 0 <= i < count :: w[i] == Buffered(frames, pos, i)
  {
    if count == 0 then []
    else BufferHead(frames, pos, count - 1) + [Buffered(frames, pos, count - 1)]
  }

  /** The payload part of that buffer. */
  function Window(frames: seq<seq<byte>>, pos: nat): (w: seq<byte>)
    requires Whole(frames) && pos <= 256 * |frames|
    ensures |w| == 24
  {
    BufferHead(frames, pos, 24)
  }

  /** The byte at place `at` of the bytes that begin with frame `f`, as far as they were written. */
  function FromFrame(frames: seq<seq<byte>>, f: nat, at: nat): byte
    requires Whole(frames) && f < |frames| && at < 512
  {
    if at < 256 then frames[f][at] else if f + 1 < |frames| then frames[f + 1][at - 256] else 0
  }

  lemma ByteInFrame(frames: seq<seq<byte>>, q: nat, f: nat, at: nat)
    requires Whole(frames) && f < |frames| && at < 256 && q == 256 * f + at
    ensures ByteAt(frames, q) == frames[f][at]
  {
    ModUnique(q, 256, f, at);
  }

  /** Byte `i` of the window lies in this frame or, past its end, in the next one if that was written. */
  lemma WindowByte(frames: seq<seq<byte>>, pos: nat, f: nat, o: nat, i: nat)
    requires Whole(frames) && f < |frames| && o < 256 && i < 24 && pos == 256 * f + o
    ensures Window(frames, pos)[i] == FromFrame(frames, f, o + i)
  {
    assert Window(frames, pos)[i] == Buffered(frames, pos, i);
    if o + i < 256 {
      ByteInFrame(frames, pos + i, f, o + i);
    } else if f + 1 < |frames| {
      ByteInFrame(frames, pos + i, f + 1, o + i - 256);
    }
  }

  /** Only the first five bytes of a frame announcing a uid are ever non-zero: four digits and a newline. */
  predicate IsHello(b: seq<byte>) { |b| == 256 && forall i | 5 <= i < 256 :: b[i] == 0 }

  /** What any frame carrying a sendable payload looks like, byte by byte. */
  predicate LooksSent(b: seq<byte>) {
    && |b| == 256
    && (var b0: int, b1: int := b[0], b[1]; 999 <= b0 + 256 * b1 <= 9999)
    && b[2] == 0 && b[3] == 0
    && (forall i | 20 <= i < 256 :: b[i] == 0)
  }

  predicate WellFormed(frames: seq<seq<byte>>) {
    && frames != [] && IsHello(frames[0])
    && (forall f | 1 <= f < |frames| :: LooksSent(frames[f]))
  }

  /** The window of a read that starts at byte `o` of frame `f`. */
  lemma WindowInFrame(frames: seq<seq<byte>>, f: nat, o: nat, w: seq<byte>)
    requires Whole(frames) && f < |frames| && o < 256 && w == Window(frames, 256 * f + o)
    ensures forall i | 0 <= i < 24 :: w[i] == FromFrame(frames, f, o + i)
  {
    forall i | 0 <= i < 24
      ensures w[i] == FromFrame(frames, f, o + i)
    {
      WindowByte(frames, 256 * f + o, f, o, i);
    }
  }

  /** Read from byte 4 to 232 there are no nanoseconds. */
  lemma NoNanoseconds(frames: seq<seq<byte>>, f: nat, o: nat, w: seq<byte>)
    requires WellFormed(frames) && Whole(frames) && 1 <= f < |frames| && 4 <= o <= 232 && |w| == 24
    requires forall i | 0 <= i < 24 :: w[i] == FromFrame(frames, f, o + i)
    ensures Value8(w[16..]) == 0
  {
    var n := w[16..];
    forall i | 0 <= i < 8
      ensures n[i] == 0
    {
      assert n[i] == w[i + 16] == frames[f][o + i + 16];
    }
    Value8IsZero(n);
  }

  /** Read from any other byte but 0 and 3 the uid is smaller or larger than any talker's. */
  lemma NoSuchUid(frames: seq<seq<byte>>, f: nat, o: nat, w: seq<byte>)
    requires WellFormed(frames) && Whole(frames) && f < |frames| && |w| == 24
    requires o == 255 || (f > 0 && (0 < o < 3 || 232 < o < 256))
    requires forall i | 0 <= i < 24 :: w[i] == FromFrame(frames, f, o + i)
    ensures Value4(w[..4]) < 999 || Value4(w[..4]) > 9999
  {
    var u := w[..4];
    assert u[0] == w[0] && u[1] == w[1] && u[2] == w[2] && u[3] == w[3];
    assert w[0] == FromFrame(frames, f, o + 0) && w[1] == FromFrame(frames, f, o + 1);
    assert w[2] == FromFrame(frames, f, o + 2) && w[3] == FromFrame(frames, f, o + 3);
  }

  // ---------------------------------------------------------------------------------------------------
  // Frames that carry samples

  /** The bytes of a sendable payload's frame, field by field. */
  lemma FrameBytes(p: Payload)
    requires Sendable(p)
    ensures LooksSent(FrameOf(p))
    ensures forall i | 0 <= i < 4 :: FrameOf(p)[i] == Bytes4(p.uid)[i] && FrameOf(p)[i + 4] == Bytes4(p.seq_)[i]
    ensures forall i | 0 <= i < 8 :: FrameOf(p)[i + 8] == Bytes8(p.secs)[i] && FrameOf(p)[i + 16] == Bytes8(p.nsecs)[i]
  {
    var b, e := FrameOf(p), Encoded(p);
    assert forall i | 0 <= i < 24 :: b[i] == e[i];
    assert forall i | 0 <= i < 232 :: b[i + 24] == Zeros(232)[i];
    assert Bytes4(0) == [0, 0, 0, 0];
    forall i | 20 <= i < 256
      ensures b[i] == 0
    {
      if i < 24 {
        assert b[i] == e[i] == Bytes8(p.nsecs)[i - 16] == Bytes4(0)[i - 20];
      } else {
        assert b[i] == Zeros(232)[i - 24];
      }
    }
  }

  /** A talker's whole stream: the greeting, then one frame a sample. */
  predicate Stream(frames: seq<seq<byte>>, written: seq<Payload>) {
    && |frames| == |written| + 1 && IsHello(frames[0])
    && (forall f {:trigger FrameOf(written[f])} | 0 <= f < |written| ::
          Sendable(written[f]) && frames[f + 1] == FrameOf(written[f]))
  }

  lemma StreamIsWellFormed(frames: seq<seq<byte>>, written: seq<Payload>)
    requires Stream(frames, written)
    ensures Whole(frames) && WellFormed(frames)
  {
    forall f | 1 <= f < |frames|
      ensures LooksSent(frames[f])
    {
      assert frames[f] == FrameOf(written[f - 1]);
      FrameBytes(written[f - 1]);
    }
  }

  /** A read that starts on a frame boundary returns that frame's payload. */
  lemma AlignedWindow(frames: seq<seq<byte>>, written: seq<Payload>, f: nat, w: seq<byte>)
    requires Stream(frames, written) && Whole(frames) && 1 <= f <= |written|
    requires w == Window(frames, 256 * f)
    ensures Decoded(w) == written[f - 1]
  {
    var p := written[f - 1];
    assert frames[f] == FrameOf(p);
    forall i | 0 <= i < 24
      ensures w[i] == Encoded(p)[i]
    {
      WindowByte(frames, 256 * f, f, 0, i);
    }
    assert w == Encoded(p);
    DecodeEncode(p);
  }

  /** The payloads of a stream that a read three bytes into them would pass off as valid. */
  predicate Mistakable(p: Payload, ids: seq<u32>) {
    && 256 * (p.seq_ % 0x100_0000) in ids
    && p.nsecs >= 0x100_0000
    && (p.secs >= 0x100_0000 || p.nsecs % 0x100_0000 != 0)
  }

  /**
   What a read three bytes into a frame decodes to. It passes validation exactly for a mistakable payload, and
   what is then accepted is not the payload that was written.
   */
  lemma ThreeBytesLate(
    frames: seq<seq<byte>>, written: seq<Payload>, ids: seq<u32>, f: nat, w: seq<byte>)
    requires Stream(frames, written) && Whole(frames) && 1 <= f <= |written| && Ids(ids)
    requires w == Window(frames, 256 * f + 3)
    ensures var p, q := written[f - 1], Decoded(w);
            && q.uid == 256 * (p.seq_ % 0x100_0000) && q.nsecs == p.nsecs / 0x100_0000
            && (Accepted(q, ids) <==> Mistakable(p, ids))
            && q != p
  {
    var p := written[f - 1];
    assert frames[f] == FrameOf(p);
    forall i | 0 <= i < 24
      ensures w[i] == FrameOf(p)[i + 3]
    {
      WindowByte(frames, 256 * f + 3, f, 3, i);
    }
    ShiftedWord(p, w[..4]);
    ShiftedSeconds(p, w[8..16]);
    ShiftedNanoseconds(p, w[16..]);
  }

  lemma LowThreeBytes(x: u32)
    ensures var b := Bytes4(x);
            var b0: int, b1: int, b2: int := b[0], b[1], b[2];
            && x % 0x100_0000 == b0 + 0x100 * b1 + 0x1_0000 * b2
            && (x % 0x100_0000 == 0 <==> b0 == 0 && b1 == 0 && b2 == 0)
  {
    var b := Bytes4(x);
    var b0: int, b1: int, b2: int := b[0], b[1], b[2];
    var low := b0 + 0x100 * b1 + 0x1_0000 * b2;
    assert x == 0x100_0000 * (x / 256 / 256 / 256) + low;
    ModUnique(x, 0x100_0000, x / 256 / 256 / 256, low);
  }

  lemma ShiftedWord(p: Payload, s: seq<byte>)
    requires Sendable(p) && |s| == 4 && (forall i | 0 <= i < 4 :: s[i] == FrameOf(p)[i + 3])
    ensures Value4(s) == 256 * (p.seq_ % 0x100_0000)
  {
    var q := Bytes4(p.seq_);
    assert s[0] == 0 && s[1] == q[0] && s[2] == q[1] && s[3] == q[2] by {
      FrameBytes(p);
      var b := FrameOf(p);
      assert b[3] == 0 && b[0 + 4] == q[0] && b[1 + 4] == q[1] && b[2 + 4] == q[2];
    }
    LowThreeBytes(p.seq_);
  }

  lemma ShiftedSeconds(p: Payload, s: seq<byte>)
    requires Sendable(p) && |s| == 8 && (forall i | 0 <= i < 8 :: s[i] == FrameOf(p)[i + 11])
    ensures Value8(s) == 0 <==> p.secs < 0x100_0000 && p.nsecs % 0x100_0000 == 0
  {
    var e, n := Bytes8(p.secs), Bytes4(p.nsecs);
    assert s[..5] == e[3..] && s[5] == n[0] && s[6] == n[1] && s[7] == n[2] by {
      SecondsAndNanoseconds(p);
    }
    HighBytesVanish(p.secs, s[..5]);
    LowThreeBytes(p.nsecs);
    Value8IsZero(s);
    assert forall i | 0 <= i < 5 :: s[i] == s[..5][i];
  }

  lemma SecondsAndNanoseconds(p: Payload)
    requires Sendable(p)
    ensures var b, e, n := FrameOf(p), Bytes8(p.secs), Bytes4(p.nsecs);
            && b[11] == e[3] && b[12] == e[4] && b[13] == e[5] && b[14] == e[6] && b[15] == e[7]
            && b[16] == n[0] && b[17] == n[1] && b[18] == n[2]
  {
    FrameBytes(p);
    var b, e, n := FrameOf(p), Bytes8(p.secs), Bytes4(p.nsecs);
    assert Bytes8(p.nsecs)[..4] == n;
    assert b[3 + 8] == e[3] && b[4 + 8] == e[4] && b[5 + 8] == e[5] && b[6 + 8] == e[6] && b[7 + 8] == e[7];
    assert b[0 + 16] == n[0] && b[1 + 16] == n[1] && b[2 + 16] == n[2];
  }

  lemma HighBytesVanish(x: u64, h: seq<byte>)
    requires h == Bytes8(x)[3..]
    ensures (forall i | 0 <= i < 5 :: h[i] == 0) <==> x < 0x100_0000
  {
    var low, high := Bytes4(x % 0x1_0000_0000), Bytes4(x / 0x1_0000_0000);
    assert h == [low[3]] + high;
    Value4IsZero(high);
    Value4OfBytes(x / 0x1_0000_0000);
    assert h[0] == low[3] && h[1] == high[0] && h[2] == high[1] && h[3] == high[2] && h[4] == high[3];
  }

  lemma ShiftedNanoseconds(p: Payload, s: seq<byte>)
    requires Sendable(p) && |s| == 8 && (forall i | 0 <= i < 8 :: s[i] == FrameOf(p)[i + 19])
    ensures Value8(s) == p.nsecs / 0x100_0000
  {
    FrameBytes(p);
  }

  /** With nothing left to read the buffer stays zero. */
  lemma DrainedWindow(frames: seq<seq<byte>>)
    requires Whole(frames)
    ensures Decoded(Window(frames, 256 * |frames|)).uid == 0
  {
    var w := Window(frames, 256 * |frames|);
    forall i | 0 <= i < 24
      ensures w[i] == 0
    {
      assert w[i] == Buffered(frames, 256 * |frames|, i);
    }
    assert w[..4] == [0, 0, 0, 0];
  }

  /** Everything the listener accepts was read from byte 0 or byte 3 of a sample's frame. */
  lemma AcceptedPhases(frames: seq<seq<byte>>, ids: seq<u32>, f: nat, o: nat, got: Payload)
    requires Whole(frames) && WellFormed(frames) && Ids(ids)
    requires o < 256 && 255 <= 256 * f + o <= 256 * |frames|
    requires got == Decoded(Window(frames, 256 * f + o)) && Accepted(got, ids)
    ensures 1 <= f < |frames| && (o == 0 || o == 3)
  {
    if f == |frames| {
      DrainedWindow(frames);
    } else if o != 0 && o != 3 {
      var w := Window(frames, 256 * f + o);
      WindowInFrame(frames, f, o, w);
      assert got.uid in ids;
      if 4 <= o <= 232 {
        NoNanoseconds(frames, f, o, w);
      } else {
        NoSuchUid(frames, f, o, w);
      }
    }
  }

  /**
   What the listener accepts was written as it stands, except that a mistakable payload read from byte 3 comes
   out as something else.
   */
  lemma AcceptedIsWritten(
    frames: seq<seq<byte>>, written: seq<Payload>, ids: seq<u32>, f: nat, o: nat, got: Payload)
    requires Stream(frames, written) && Whole(frames) && Ids(ids)
    requires o < 256 && 255 <= 256 * f + o <= 256 * |frames|
    requires got == Decoded(Window(frames, 256 * f + o)) && Accepted(got, ids)
    ensures 1 <= f <= |written| && (o == 0 || o == 3)
    ensures o == 0 <==> got == written[f - 1]
    ensures o == 3 ==> Mistakable(written[f - 1], ids)
  {
    assert 1 <= f < |frames| && (o == 0 || o == 3) by {
      StreamIsWellFormed(frames, written);
      AcceptedPhases(frames, ids, f, o, got);
    }
    var w := Window(frames, 256 * f + o);
    if o == 0 {
      AlignedWindow(frames, written, f, w);
    } else {
      ThreeBytesLate(frames, written, ids, f, w);
    }
  }

  // ---------------------------------------------------------------------------------------------------
  // Talkers number their samples

  predicate Numbered(written: seq<Payload>) {
    forall k | 0 <= k < |written| :: written[k].seq_ == ToU32(k)
  }

  /** How many samples are safe whatever the backlog and the uids. */
  const SAFE_SAMPLES: nat := 0x100_0004

  /** The next read would begin at byte 3 of a mistakable payload. */
  predicate Misread(written: seq<Payload>, pos: nat, ids: seq<u32>) {
    pos % 256 == 3 && 1 <= pos / 256 <= |written| && Mistakable(written[pos / 256 - 1], ids)
  }

  /** No talker's uid can be produced by a read from byte 3. */
  predicate NoRoundUid(ids: seq<u32>) { forall i | 0 <= i < |ids| :: ids[i] % 256 != 0 }

  /** The phase of a read is decided by the number of full reads before it. */
  lemma PhaseOfRead(pos: nat, fullReads: nat)
    requires (pos + fullReads) % 256 == 0
    ensures pos % 256 == 3 <==> fullReads % 256 == 253
    ensures pos % 256 == 0 <==> fullReads % 256 == 0
  {
  }

  /** Past its fortieth sample a talker writes the next mistakable one only 2^24 later. */
  lemma MistakableIsLate(written: seq<Payload>, ids: seq<u32>, k: nat)
    requires Numbered(written) && Ids(ids) && 40 <= k < |written| && Mistakable(written[k], ids)
    ensures k >= SAFE_SAMPLES && 4 <= k % 0x100_0000 <= 39 && 256 * (k % 0x100_0000) in ids && !NoRoundUid(ids)
  {
    MaskIgnoresWrap(k, 0x100_0000);
    var i :| 0 <= i < |ids| && ids[i] == 256 * (k % 0x100_0000);
    assert 999 <= ids[i] <= 9999 && ids[i] % 256 == 0;
  }

  /**
   A misread needs 253 full reads in a row, modulo 256; hence a sample after the first 2^24 + 4, and a uid that is
   a multiple of 256.
   */
  lemma MisreadIsLate(written: seq<Payload>, ids: seq<u32>, pos: nat, fullReads: nat)
    requires Numbered(written) && Ids(ids) && Misread(written, pos, ids)
    requires (pos + fullReads) % 256 == 0 && 255 * fullReads <= pos
    ensures fullReads % 256 == 253 && |written| > SAFE_SAMPLES && !NoRoundUid(ids)
  {
    PhaseOfRead(pos, fullReads);
    assert pos >= 255 * 253;
    MistakableIsLate(written, ids, pos / 256 - 1);
  }

  /** Exactly when a read is accepted as something other than the payload of the frame it began in. */
  lemma MisreadIff(frames: seq<seq<byte>>, written: seq<Payload>, ids: seq<u32>, f: nat, o: nat, got: Payload)
    requires Stream(frames, written) && Whole(frames) && Ids(ids)
    requires o < 256 && 255 <= 256 * f + o <= 256 * |frames|
    requires got == Decoded(Window(frames, 256 * f + o))
    ensures Accepted(got, ids) && !(o == 0 && 1 <= f <= |written| && got == written[f - 1])
            <==> Misread(written, 256 * f + o, ids)
  {
    ModUnique(256 * f + o, 256, f, o);
    if Accepted(got, ids) {
      AcceptedIsWritten(frames, written, ids, f, o, got);
    } else if Misread(written, 256 * f + o, ids) {
      ThreeBytesLate(frames, written, ids, f, Window(frames, 256 * f + o));
    }
  }

  /** Among a talker's first 2^24 + 4 samples nothing is misread, however far the reader falls behind. */
  lemma FirstSamplesAreSafe(
    frames: seq<seq<byte>>, written: seq<Payload>, ids: seq<u32>, f: nat, o: nat, fullReads: nat, got: Payload)
    requires Stream(frames, written) && Whole(frames) && Numbered(written) && Ids(ids)
    requires o < 256 && 255 <= 256 * f + o <= 256 * |frames|
    requires (256 * f + o + fullReads) % 256 == 0 && 255 * fullReads <= 256 * f + o
    requires got == Decoded(Window(frames, 256 * f + o)) && Accepted(got, ids)
    requires |written| <= SAFE_SAMPLES
    ensures o == 0 && 1 <= f <= |written| && got == written[f - 1]
  {
    MisreadIff(frames, written, ids, f, o, got);
    if Misread(written, 256 * f + o, ids) {
      MisreadIsLate(written, ids, 256 * f + o, fullReads);
    }
  }
}
