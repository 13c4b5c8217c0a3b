/** The measuring sender's packets as the measuring receiver sees them, and the whole route between the two. */
module AfxdpRoute {
  import opened Words
  import opened LittleEndian
  import opened XskReceive
  import opened AfxdpReceive
  import opened RxExit
  import S = AfxdpSend
  import XskSend

  /** What `setup_tsn_vlan_packet` puts behind the two addresses: the VLAN type, priority and id, the packet type. */
  predicate IsTemplate(header: seq<byte>) {
    |header| == XskSend.VLAN_HEADER && header[12..14] == [0x81, 0x00] && header[16..18] == [0xb6, 0x2c]
  }

  /** A 16-bit load on a little-endian host. */
  function Load16(b: seq<byte>): nat
    requires |b| == 2
  {
    var low: int, high: int := b[0], b[1];
    low + 256 * high
  }

  /** The packed header and payload structs over received bytes; `hw` is what the device stored in front of them. */
  function FrameOf(p: seq<byte>, hw: u64): TsnFrame
    requires |p| >= 34
  {
    TsnFrame(Load16(p[12..14]), p[14], Load16(p[16..18]), Value4(p[18..22]), Value4(p[22..26]), Value8(p[26..34]), hw)
  }

  /** A packet of the sender passes the header tests and carries its turn's number and time. */
  lemma PacketIsFromSender(header: seq<byte>, queue: u32, i: nat, now: u64, rest: seq<byte>, hw: u64)
    requires IsTemplate(header) && |rest| >= 18
    ensures var p := S.Packet(header, queue, i, now, rest);
            var f := FrameOf(p, hw);
            && FromSender(Arrival(f, |p|))
            && f.seq_ == ToU32(i) && f.txTimestampA == now && f.txQueue == queue
  {
    var p := S.Packet(header, queue, i, now, rest);
    assert p[12..14] == header[12..14] && p[16..18] == header[16..18];
    S.NumberOfPacket(header, queue, i, now, rest);
    assert p[18..22] == Bytes4(queue);
    Value4OfBytes(queue);
  }

  /** What arrives of the packets of the first `k` turns. */
  function Received(c: S.Config, turns: seq<S.Turn>, kept: seq<bool>, hw: seq<u64>, k: nat): seq<Arrival<TsnFrame>>
    requires k <= |turns| == |kept| == |hw| && |c.header| == XskSend.VLAN_HEADER && |c.rest| >= 18
  {
    if k == 0 then []
    else
      var p := S.Packet(c.header, c.queue, k - 1, turns[k - 1].now, c.rest);
      Received(c, turns, kept, hw, k - 1) + (if kept[k - 1] then [Arrival(FrameOf(p, hw[k - 1]), |p|)] else [])
  }

  /** The numbers of what arrives are those the network kept. */
  lemma {:induction false} NumbersArrive(
    c: S.Config, turns: seq<S.Turn>, kept: seq<bool>, hw: seq<u64>, k: nat)
    requires k <= |turns| == |kept| == |hw| < 0x1_0000_0000 && IsTemplate(c.header) && |c.rest| >= 18
    ensures var all := Received(c, turns, kept, hw, k);
            && (forall j | 0 <= j < |all| :: FromSender(all[j]))
            && NumbersOf(all) == Arriving(Numbers(0, k), kept[..k])
  {
    if k > 0 {
      NumbersArrive(c, turns, kept, hw, k - 1);
      PacketIsFromSender(c.header, c.queue, k - 1, turns[k - 1].now, c.rest, hw[k - 1]);
      assert Numbers(0, k)[..k - 1] == Numbers(0, k - 1);
      assert kept[..k][..k - 1] == kept[..k - 1];
    }
  }

  /**
   From the sender's thread to the receiver's loop: if the loop sees what the network kept of `n` and ten more
   packets, it ends if and only if one of the last ten is among that, and it prints what the filter on the numbers
   passes.
   */
  lemma RouteEndsIff(c: S.Config, turns: seq<S.Turn>, n: nat, kept: seq<bool>, hw: seq<u64>)
    requires 0 < n <= 10_000_000 && |turns| == |kept| == |hw| == n + FLUSH_PACKETS
    requires IsTemplate(c.header) && |c.rest| >= 18
    ensures var all := Received(c, turns, kept, hw, |turns|);
            && ((exists j :: 0 <= j < |all| && Ends(all[j], n)) <==>
                exists i :: n <= i < n + FLUSH_PACKETS && kept[i])
            && NumbersOf(PrintedOf(all)) == Filtered(AfXdp, Arriving(AfxdpNumbers(n), kept))
  {
    var all := Received(c, turns, kept, hw, |turns|);
    NumbersArrive(c, turns, kept, hw, |turns|);
    assert kept[..|kept|] == kept;
    NumbersDecide(all, n);
    AfxdpExitsIff(n, kept);
  }

  /** A line printed about a packet of the sender carries its number, its queue and the time it was sent. */
  lemma LineOfPacket(
    header: seq<byte>, queue: u32, i: nat, sent: u64, rest: seq<byte>, hw: u64, r: Row, now: u64)
    requires IsTemplate(header) && |rest| >= 18 && 0 < i < 50_000_000
    requires Measures(r, FrameOf(S.Packet(header, queue, i, sent, rest), hw), now)
    ensures GetsLine(Arrival(FrameOf(S.Packet(header, queue, i, sent, rest), hw), 16 + |rest|))
    ensures r.seq_ == i && r.txQueue == queue && r.txTimestampA == sent && r.hwTimestamp == hw
    ensures r.rxTimestampD == now == ToU64(sent + r.latency)
  {
    var p := S.Packet(header, queue, i, sent, rest);
    assert FromSender(Arrival(FrameOf(p, hw), |p|)) && FrameOf(p, hw).seq_ == i
        && FrameOf(p, hw).txTimestampA == sent && FrameOf(p, hw).txQueue == queue by {
      PacketIsFromSender(header, queue, i, sent, rest, hw);
    }
  }
}
