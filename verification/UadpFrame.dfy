/**
 Ethernet frames of the XDP plugin: how `send` lays one out and what `receive` makes of one. The tag layout
 is that of section 9.6 of IEEE 802.1Q-2018: priority in the top three bits, the VLAN id in the low twelve.
 */
module UadpFrame {
  import opened Words

  const FRAME_SIZE: nat := 2048
  const HEADER: nat := 14
  const TAG: nat := 4

  type Frame = f: seq<byte> | |f| == FRAME_SIZE witness seq(FRAME_SIZE, _ => 0)
  type Mac = a: seq<byte> | |a| == 6 witness [0, 0, 0, 0, 0, 0]

  datatype Endpoint = Endpoint(vid: nat, prio: nat, ifAddress: Mac, target: Mac)

  const VLAN_TYPE: seq<byte> := [0x81, 0x00]
  const UADP_TYPE: seq<byte> := [0xb6, 0x2c]

  /** Network byte order of the low sixteen bits. */
  function Htons(x: nat): (bytes: seq<byte>)
    ensures |bytes| == 2 && Ntohs(bytes) == x % 0x1_0000
  {
    var w := x % 0x1_0000;
    [w / 256, w % 256]
  }

  function Ntohs(bytes: seq<byte>): nat
    requires |bytes| == 2
  {
    var high: int, low: int := bytes[0], bytes[1];
    high * 256 + low
  }

  /** `vid + (prio << VLAN_SHIFT)`, cut to sixteen bits when stored. */
  function TagBytes(vid: nat, prio: nat): (bytes: seq<byte>)
    ensures |bytes| == 2
  {
    Htons(vid + prio * 0x2000)
  }

  function HeaderBytes(e: Endpoint): seq<byte> {
    e.target + e.ifAddress + (if e.vid > 0 then VLAN_TYPE + TagBytes(e.vid, e.prio) + UADP_TYPE else UADP_TYPE)
  }

  /** The bytes `send` puts on the wire. */
  function Built(e: Endpoint, payload: seq<byte>): seq<byte> { HeaderBytes(e) + payload }

  /** What the reader callback is given: nothing to process, bytes of the frame, or a length past its end. */
  datatype View = NoMessage | Message(payload: seq<byte>) | PastEnd(length: u64)

  predicate Accepts(e: Endpoint, f: Frame) {
    var at := if e.vid > 0 && f[12..14] == VLAN_TYPE then 16 else 12;
    f[at..at + 2] == UADP_TYPE && f[..6] == e.target
  }

  function Offset(e: Endpoint): nat { if e.vid > 0 then HEADER + TAG else HEADER }

  /** `receive` on one descriptor; a message of length zero is no message to the callback. */
  function Seen(e: Endpoint, f: Frame, len: nat): View {
    var length := ToU64(len - Offset(e));
    if !Accepts(e, f) || length == 0 then NoMessage
    else if Offset(e) + length <= FRAME_SIZE then Message(f[Offset(e)..Offset(e) + length])
    else PastEnd(length)
  }

  /** A frame buffer after the device stored `bytes` over what was there. */
  function Stored(bytes: seq<byte>, before: Frame): Frame
    requires |bytes| <= FRAME_SIZE
  {
    bytes + before[|bytes|..]
  }

  /**
   Sending and receiving are inverse for every non-empty payload that fits a frame exactly when both ends use
   a tag or neither does, and the sender's target is the receiver's.
   */
  lemma RoundTrip(a: Endpoint, b: Endpoint, payload: seq<byte>, before: Frame)
    requires payload != [] && |Built(a, payload)| <= FRAME_SIZE
    ensures Seen(b, Stored(Built(a, payload), before), |Built(a, payload)|) == Message(payload)
            <==> a.target == b.target && (a.vid > 0 <==> b.vid > 0)
  {
    var bytes := Built(a, payload);
    var f := Stored(bytes, before);
    assert f[..6] == a.target;
    if a.vid > 0 {
      assert f[12..14] == VLAN_TYPE;
      assert f[16..18] == UADP_TYPE;
      assert f[18..|bytes|] == payload;
    } else {
      assert f[12..14] == UADP_TYPE;
      assert f[14..|bytes|] == payload;
      LengthOf(|bytes|, Offset(b));
    }
  }

  lemma LengthOf(len: nat, offset: nat)
    requires len <= FRAME_SIZE && offset <= HEADER + TAG
    ensures ToU64(len - offset) == if len >= offset then len - offset else len - offset + W64
  {
  }

  /** A tagged receiver takes an untagged frame for a tagged one and loses the first four payload bytes. */
  lemma UntaggedIsTruncated(a: Endpoint, b: Endpoint, payload: seq<byte>, before: Frame)
    requires a.target == b.target && a.vid == 0 && b.vid > 0
    requires |payload| > 0 && |Built(a, payload)| <= FRAME_SIZE
    ensures Seen(b, Stored(Built(a, payload), before), |Built(a, payload)|) ==
            if |payload| > TAG then Message(payload[TAG..])
            else if |payload| == TAG then NoMessage
            else PastEnd(W64 + |payload| - TAG)
  {
    var bytes := Built(a, payload);
    var f := Stored(bytes, before);
    assert f[..6] == a.target;
    assert f[12..14] == UADP_TYPE;
    LengthOf(|bytes|, Offset(b));
    if |payload| > TAG {
      assert bytes == HeaderBytes(a) + payload && |HeaderBytes(a)| == 14;
      assert f[..|bytes|] == bytes;
      assert f[18..|bytes|] == bytes[18..] == payload[TAG..];
    }
  }

  function TagVid(bytes: seq<byte>): nat
    requires |bytes| == 2
  {
    Ntohs(bytes) % 0x1000
  }

  function TagPrio(bytes: seq<byte>): nat
    requires |bytes| == 2
  {
    Ntohs(bytes) / 0x2000
  }

  /** The tag carries id and priority exactly when they fit their fields. */
  lemma TagRoundTrip(vid: nat, prio: nat)
    ensures TagVid(TagBytes(vid, prio)) == vid && TagPrio(TagBytes(vid, prio)) == prio
            <==> vid < 0x1000 && prio < 8
  {
    var w := vid + prio * 0x2000;
    if vid < 0x1000 && prio < 8 {
      ModUnique(w, 0x1_0000, 0, w);
      ModUnique(w, 0x2000, prio, vid);
      ModShift(vid, 0x1000, 2 * prio);
    }
  }

  // ---------------------------------------------------------------------------------------------------
  // The frame, place by place

  /**
   Target, own address, then either the VLAN type, a tag that carries id and priority exactly when they fit, and
   the UADP type, or the UADP type alone; then the payload.
   */
  predicate LaidOut(b: seq<byte>, e: Endpoint, payload: seq<byte>) {
    if e.vid > 0 then
      && |b| == 18 + |payload| && b[..6] == e.target && b[6..12] == e.ifAddress
      && b[12..14] == [0x81, 0x00] && b[16..18] == [0xb6, 0x2c] && b[18..] == payload
      && (Ntohs(b[14..16]) % 0x1000 == e.vid && Ntohs(b[14..16]) / 0x2000 == e.prio
          <==> e.vid < 0x1000 && e.prio < 8)
    else
      && |b| == 14 + |payload| && b[..6] == e.target && b[6..12] == e.ifAddress
      && b[12..14] == [0xb6, 0x2c] && b[14..] == payload
  }

  lemma BuiltIsLaidOut(e: Endpoint, payload: seq<byte>)
    ensures LaidOut(Built(e, payload), e, payload)
  {
    var b := Built(e, payload);
    assert b[..6] == e.target && b[6..12] == e.ifAddress;
    if e.vid > 0 {
      assert b[12..14] == VLAN_TYPE && b[14..16] == TagBytes(e.vid, e.prio);
      assert b[16..18] == UADP_TYPE && b[18..] == payload;
      TagRoundTrip(e.vid, e.prio);
    } else {
      assert b[12..14] == UADP_TYPE && b[14..] == payload;
    }
  }

  /** The type a receiver goes by: behind the tag if it expects tags and there is one. */
  function TypeAt(e: Endpoint, f: Frame): nat { if e.vid > 0 && f[12] == 0x81 && f[13] == 0 then 16 else 12 }

  /** A frame of any other type, or to any other address, is no message; one of this type to this address passes. */
  lemma OthersAreRefused(e: Endpoint, f: Frame, len: nat)
    ensures var at := TypeAt(e, f);
            var uadp := f[at] == 0xb6 && f[at + 1] == 0x2c && f[..6] == e.target;
            && (!uadp ==> Seen(e, f, len) == NoMessage)
            && (uadp && len > Offset(e) && len <= FRAME_SIZE ==> Seen(e, f, len) == Message(f[Offset(e)..len]))
            && Accepts(e, f) == uadp
  {
    var at := TypeAt(e, f);
    assert f[12..14] == VLAN_TYPE <==> f[12] == 0x81 && f[13] == 0 by {
      assert f[12..14] == [f[12], f[13]];
    }
    assert f[at..at + 2] == [f[at], f[at + 1]];
    if len > Offset(e) && len <= FRAME_SIZE {
      LengthOf(len, Offset(e));
    }
  }
}
