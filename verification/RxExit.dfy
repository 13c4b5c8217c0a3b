/**
 When the measuring receivers stop. Senders number their packets; the network may lose packets but keeps
 their order. The AF_XDP sender adds ten flush packets so that the receiver still sees the end after losses;
 the AF_PACKET sender does not.
 */
module RxExit {
  import opened Words
  import opened Subsequences
  import opened XskReceive
  import opened AfxdpReceive

  const FLUSH_PACKETS: nat := 10

  /** The numbers `first, first + 1, ..., last - 1`. */
  function Numbers(first: nat, last: nat): seq<nat>
    requires first <= last
  {
    seq(last - first, i requires 0 <= i => first + i)
  }

  /** `afxdp_send_thread` numbers from 0 and appends the flush packets; `afpkt_send_thread` numbers from 1. */
  function AfxdpNumbers(n: nat): seq<nat> { Numbers(0, n + FLUSH_PACKETS) }

  function AfpktNumbers(n: nat): seq<nat> { Numbers(1, n + 1) }

  /** What arrives when the network keeps exactly the packets marked in `kept`. */
  function Arriving(sent: seq<nat>, kept: seq<bool>): seq<nat>
    requires |sent| == |kept|
  {
    if sent == [] then []
    else Arriving(sent[..|sent| - 1], kept[..|sent| - 1]) + (if kept[|sent| - 1] then [sent[|sent| - 1]] else [])
  }

  function Lost(kept: seq<bool>): nat {
    if kept == [] then 0 else Lost(kept[..|kept| - 1]) + (if kept[|kept| - 1] then 0 else 1)
  }

  datatype Mode = AfXdp | AfPacket

  /** Which numbers the receive path prints: AF_XDP skips 0, and the two upper bounds differ by one. */
  predicate Reported(mode: Mode, x: nat) {
    match mode
    case AfXdp => 0 < x < MAX_SEQ
    case AfPacket => x <= MAX_SEQ
  }

  /** Both print the numbers from 1 up to one below fifty million; 0 and fifty million only AF_PACKET does. */
  lemma FiltersCompared(x: nat)
    ensures 1 <= x < 50_000_000 ==> Reported(AfXdp, x) && Reported(AfPacket, x)
    ensures x == 0 || x == 50_000_000 ==> !Reported(AfXdp, x) && Reported(AfPacket, x)
    ensures x > 50_000_000 ==> !Reported(AfXdp, x) && !Reported(AfPacket, x)
  {
  }

  predicate Final(mode: Mode, x: nat, n: nat) { Reported(mode, x) && x >= n }

  /** The receive loops of `main`: report packets until one numbered `n` or more was reported. */
  method ReceiveLoop(mode: Mode, arriving: seq<nat>, n: nat) returns (printed: seq<nat>, exited: bool, used: nat)
    requires n > 0
    ensures exited <==> Exits(mode, arriving, n)
    ensures used <= |arriving| && printed == Filtered(mode, arriving[..used])
    ensures !exited ==> used == |arriving|
    ensures exited ==> used > 0 && Final(mode, arriving[used - 1], n)
    ensures forall j | 0 <= j < used - 1 :: !Final(mode, arriving[j], n)
  {
    var globRxSeq: nat := 0;
    printed, exited, used := [], false, 0;
    while used < |arriving| && !exited
      invariant 0 <= used <= |arriving| && (exited ==> used > 0)
      invariant printed == Filtered(mode, arriving[..used])
      invariant forall j | 0 <= j < used - 1 :: !Final(mode, arriving[j], n)
      invariant exited <==> used > 0 && Final(mode, arriving[used - 1], n)
      invariant globRxSeq >= n <==> exited
    {
      assert arriving[..used + 1][..used] == arriving[..used];
      if Reported(mode, arriving[used]) {
        printed := printed + [arriving[used]];
        globRxSeq := arriving[used];
      }
      exited := globRxSeq >= n;
      used := used + 1;
    }
  }

  function Filtered(mode: Mode, s: seq<nat>): seq<nat> {
    if s == [] then []
    else Filtered(mode, s[..|s| - 1]) + (if Reported(mode, s[|s| - 1]) then [s[|s| - 1]] else [])
  }

  lemma {:induction false} ArrivingElements(sent: seq<nat>, kept: seq<bool>, x: nat)
    requires |sent| == |kept|
    ensures x in Arriving(sent, kept) <==> exists i :: 0 <= i < |sent| && kept[i] && sent[i] == x
  {
    if sent != [] {
      var l := |sent| - 1;
      ArrivingElements(sent[..l], kept[..l], x);
      if i :| 0 <= i < l && kept[..l][i] && sent[..l][i] == x {
        assert kept[i] && sent[i] == x;
      }
      if i :| 0 <= i < |sent| && kept[i] && sent[i] == x {
        if i < l {
          assert kept[..l][i] && sent[..l][i] == x;
        }
      }
    }
  }

  lemma {:induction false} ArrivingIncreases(sent: seq<nat>, kept: seq<bool>)
    requires |sent| == |kept| && StrictlyIncreasing(sent)
    ensures StrictlyIncreasing(Arriving(sent, kept))
    ensures sent != [] ==> forall x | x in Arriving(sent, kept) :: x <= sent[|sent| - 1]
  {
    if sent != [] {
      var l := |sent| - 1;
      var before := Arriving(sent[..l], kept[..l]);
      ArrivingIncreases(sent[..l], kept[..l]);
      assert forall i | 0 <= i < |before| :: before[i] in before;
      assert forall x | x in before :: x < sent[l];
    }
  }

  lemma {:induction false} FilteredIncreases(mode: Mode, s: seq<nat>)
    requires StrictlyIncreasing(s)
    ensures StrictlyIncreasing(Filtered(mode, s))
    ensures forall x :: x in Filtered(mode, s) <==> x in s && Reported(mode, x)
  {
    if s != [] {
      var before := Filtered(mode, s[..|s| - 1]);
      FilteredIncreases(mode, s[..|s| - 1]);
      assert forall i | 0 <= i < |before| :: before[i] in before;
      assert forall x | x in before :: x < s[|s| - 1];
    }
  }

  lemma {:induction false} LossesAddUp(kept: seq<bool>, from: nat)
    requires from <= |kept| && forall i | from <= i < |kept| :: !kept[i]
    ensures Lost(kept) >= |kept| - from
  {
    if from < |kept| {
      LossesAddUp(kept[..|kept| - 1], from);
    }
  }

  /** The condition on which a receive loop ends. */
  ghost predicate Exits(mode: Mode, arriving: seq<nat>, n: nat) {
    exists i :: 0 <= i < |arriving| && Final(mode, arriving[i], n)
  }

  lemma ExitsIff(mode: Mode, sent: seq<nat>, kept: seq<bool>, n: nat)
    requires |sent| == |kept|
    ensures Exits(mode, Arriving(sent, kept), n) <==>
            exists i :: 0 <= i < |sent| && kept[i] && Final(mode, sent[i], n)
  {
    var arriving := Arriving(sent, kept);
    if Exits(mode, arriving, n) {
      var i :| 0 <= i < |arriving| && Final(mode, arriving[i], n);
      ArrivingElements(sent, kept, arriving[i]);
    }
    if i :| 0 <= i < |sent| && kept[i] && Final(mode, sent[i], n) {
      ArrivingElements(sent, kept, sent[i]);
      var k :| 0 <= k < |arriving| && arriving[k] == sent[i];
    }
  }

  /**
   The AF_XDP receiver ends if and only if one of the last ten packets sent arrives, hence under any loss of
   at most nine packets.
   */
  lemma AfxdpExitsIff(n: nat, kept: seq<bool>)
    requires 0 < n <= 10_000_000 && |kept| == n + FLUSH_PACKETS
    ensures Exits(AfXdp, Arriving(AfxdpNumbers(n), kept), n) <==> exists i :: n <= i < n + FLUSH_PACKETS && kept[i]
    ensures Lost(kept) < FLUSH_PACKETS ==> Exits(AfXdp, Arriving(AfxdpNumbers(n), kept), n)
  {
    ExitsIff(AfXdp, AfxdpNumbers(n), kept, n);
    if i :| n <= i < n + FLUSH_PACKETS && kept[i] {
      assert AfxdpNumbers(n)[i] == i;
    } else {
      LossesAddUp(kept, n);
    }
  }

  /** The AF_PACKET receiver has no such margin: it ends if and only if packet `n` itself arrives. */
  lemma AfpktExitsIff(n: nat, kept: seq<bool>)
    requires 0 < n <= 10_000_000 && |kept| == n
    ensures Exits(AfPacket, Arriving(AfpktNumbers(n), kept), n) <==> kept[n - 1]
  {
    ExitsIff(AfPacket, AfpktNumbers(n), kept, n);
    assert AfpktNumbers(n)[n - 1] == n;
  }

  /** Whatever is lost, the AF_XDP receiver's printed numbers strictly increase and never include 0. */
  lemma PrintedNumbers(n: nat, kept: seq<bool>, used: nat)
    requires |kept| == n + FLUSH_PACKETS && used <= |Arriving(AfxdpNumbers(n), kept)|
    ensures StrictlyIncreasing(Filtered(AfXdp, Arriving(AfxdpNumbers(n), kept)[..used]))
    ensures 0 !in Filtered(AfXdp, Arriving(AfxdpNumbers(n), kept)[..used])
  {
    ArrivingIncreases(AfxdpNumbers(n), kept);
    FilteredIncreases(AfXdp, Arriving(AfxdpNumbers(n), kept)[..used]);
  }

  // ---------------------------------------------------------------------------------------------------
  // The AF_XDP receive loop over the socket

  predicate Ends(a: Arrival<TsnFrame>, n: nat) { GetsLine(a) && a.frame.seq_ >= n }

  /** The packets that get a line. */
  function PrintedOf(all: seq<Arrival<TsnFrame>>): seq<Arrival<TsnFrame>> {
    if all == [] then []
    else PrintedOf(all[..|all| - 1]) + (if GetsLine(all[|all| - 1]) then [all[|all| - 1]] else [])
  }

  /** Line by line, the rows measure the packets. */
  predicate RowsMeasure(rows: seq<Row>, packets: seq<Arrival<TsnFrame>>) {
    && |rows| == |packets|
    && (forall j | 0 <= j < |rows| :: Measures(rows[j], packets[j].frame, rows[j].rxTimestampD))
  }

  /** The rows `after` are those of `before` and one for each of the packets. */
  predicate RowsAdded(before: seq<Row>, after: seq<Row>, packets: seq<Arrival<TsnFrame>>) {
    |before| <= |after| && after[..|before|] == before && RowsMeasure(after[|before|..], packets)
  }

  lemma RowsAddedTwice(a: seq<Row>, b: seq<Row>, c: seq<Row>, p: seq<Arrival<TsnFrame>>, q: seq<Arrival<TsnFrame>>)
    requires RowsAdded(a, b, p) && RowsAdded(b, c, q)
    ensures RowsAdded(a, c, p + q)
  {
    assert c[..|a|] == c[..|b|][..|a|];
    forall j | 0 <= j < |c| - |a|
      ensures Measures(c[|a|..][j], (p + q)[j].frame, c[|a|..][j].rxTimestampD)
    {
      if j < |p| {
        assert c[|a|..][j] == c[..|b|][|a| + j] == b[|a|..][j];
      } else {
        assert c[|a|..][j] == c[|b|..][j - |p|];
      }
    }
  }

  /** The kernel's activity before and during one call, and the clock. */
  datatype Turn = Turn(before: seq<Event<TsnFrame>>, k: seq<seq<Event<TsnFrame>>>, now: u64)

  predicate Scheduled(t: Turn) {
    KernelOnly(t.before) && |t.k| == 4 && forall i | 0 <= i < 4 :: KernelOnly(t.k[i])
  }

  /** Nothing before the last packet seen ended the loop, and that one did if it has ended. */
  predicate EndsLast(seen: seq<Arrival<TsnFrame>>, n: nat, exited: bool) {
    && (exited <==> seen != [] && Ends(seen[|seen| - 1], n))
    && (forall j | 0 <= j < |seen| - 1 :: !Ends(seen[j], n))
  }

  lemma PrintedMore(seen: seq<Arrival<TsnFrame>>, a: Arrival<TsnFrame>)
    ensures PrintedOf([a]) == if GetsLine(a) then [a] else []
    ensures PrintedOf(seen + [a]) == PrintedOf(seen) + PrintedOf([a])
  {
    assert [a][..0] == [] && (seen + [a])[..|seen|] == seen;
  }

  lemma EndsMore(seen: seq<Arrival<TsnFrame>>, a: Arrival<TsnFrame>, n: nat)
    requires EndsLast(seen, n, false)
    ensures EndsLast(seen + [a], n, Ends(a, n))
  {
    var all := seen + [a];
    assert forall j | 0 <= j < |seen| :: all[j] == seen[j];
  }

  /** The last number printed, after these packets. */
  function NumberAfter(before: nat, more: seq<Arrival<TsnFrame>>): nat {
    if more != [] && GetsLine(more[|more| - 1]) then more[|more| - 1].frame.seq_ else before
  }

  lemma OneMore(seen: seq<Arrival<TsnFrame>>, more: seq<Arrival<TsnFrame>>, n: nat, before: nat)
    requires EndsLast(seen, n, false) && |more| <= 1 && before < n
    ensures EndsLast(seen + more, n, NumberAfter(before, more) >= n)
    ensures PrintedOf(seen + more) == PrintedOf(seen) + PrintedOf(more)
  {
    if more == [] {
      assert seen + more == seen;
    } else {
      var a := more[0];
      assert more == [a];
      assert NumberAfter(before, more) >= n <==> Ends(a, n);
      PrintedMore(seen, a);
      EndsMore(seen, a, n);
    }
  }

  /** The output so far, and where the loop stands. */
  predicate Reading(first: seq<Row>, rows: seq<Row>, seen: seq<Arrival<TsnFrame>>, n: nat, exited: bool) {
    RowsAdded(first, rows, PrintedOf(seen)) && EndsLast(seen, n, exited)
  }

  lemma ReadingMore(first: seq<Row>, rows: seq<Row>, next: seq<Row>, seen: seq<Arrival<TsnFrame>>,
                    more: seq<Arrival<TsnFrame>>, n: nat, before: nat, after: nat)
    requires Reading(first, rows, seen, n, false) && RowsAdded(rows, next, PrintedOf(more))
    requires |more| <= 1 && before < n && after == NumberAfter(before, more)
    ensures Reading(first, next, seen + more, n, after >= n)
  {
    RowsAddedTwice(first, rows, next, PrintedOf(seen), PrintedOf(more));
    OneMore(seen, more, n, before);
  }

  /**
   The receive loop of `main` on the socket itself: it prints one line for each packet read that passes the filter,
   in order and about that packet, and stops at the first one numbered `n` or more.
   */
  method SocketLoop(r: Receiver, n: nat, turns: seq<Turn>)
    returns (exited: bool, ghost seen: seq<Arrival<TsnFrame>>)
    requires r.xsk.Valid() && Idle(r.xsk.m) && n > 0
    requires forall t | 0 <= t < |turns| :: Scheduled(turns[t])
    modifies r, r.xsk
    ensures r.xsk.Valid() && Idle(r.xsk.m)
    ensures r.xsk.m.read == old(r.xsk.m.read) + seen
    ensures RowsAdded(old(r.printed), r.printed, PrintedOf(seen))
    ensures exited <==> exists j :: 0 <= j < |seen| && Ends(seen[j], n)
    ensures forall j | 0 <= j < |seen| - 1 :: !Ends(seen[j], n)
  {
    r.globRxSeq := 0;
    exited, seen := false, [];
    var t := 0;
    while t < |turns| && !exited
      invariant 0 <= t <= |turns|
      invariant r.xsk.Valid() && Idle(r.xsk.m) && r.xsk.m.read == old(r.xsk.m.read) + seen
      invariant exited <==> r.globRxSeq >= n
      invariant Reading(old(r.printed), r.printed, seen, n, exited)
    {
      assert Scheduled(turns[t]);
      ghost var more, before, rows := [], r.globRxSeq, r.printed;
      more := ReceiveOne(r, turns[t]);
      ReadingMore(old(r.printed), rows, r.printed, seen, more, n, before, r.globRxSeq);
      seen := seen + more;
      exited := r.globRxSeq >= n;
      t := t + 1;
    }
  }

  lemma MeasuresOwnTime(r: Row, f: TsnFrame, now: u64)
    requires Measures(r, f, now)
    ensures r.rxTimestampD == now && Measures(r, f, r.rxTimestampD)
  {
  }

  lemma OneRowAdded(before: seq<Row>, row: Row, a: Arrival<TsnFrame>)
    requires Measures(row, a.frame, row.rxTimestampD)
    ensures RowsAdded(before, before + [row], [a])
  {
    assert (before + [row])[|before|..] == [row];
  }

  lemma PrintedIsAdded(
    before: seq<Row>, after: seq<Row>, seqBefore: u32, seqAfter: u32, a: Arrival<TsnFrame>, now: u64)
    requires Printed(before, after, seqBefore, seqAfter, a, now)
    ensures RowsAdded(before, after, PrintedOf([a])) && seqAfter == NumberAfter(seqBefore, [a])
    ensures forall j | |before| <= j < |after| :: after[j].rxTimestampD == now
  {
    PrintedMore([], a);
    if GetsLine(a) {
      var row := after[|before|];
      MeasuresOwnTime(row, a.frame, now);
      assert after == before + [row];
      OneRowAdded(before, row, a);
    }
  }

  /** The kernel runs, then one call on an idle socket: the oldest packet unread by then, if there is one. */
  method ReceiveOne(r: Receiver, turn: Turn) returns (ghost more: seq<Arrival<TsnFrame>>)
    requires r.xsk.Valid() && Idle(r.xsk.m) && Scheduled(turn)
    modifies r, r.xsk
    ensures r.xsk.Valid() && Idle(r.xsk.m)
    ensures r.xsk.m.read == old(r.xsk.m.read) + more && |more| <= 1
    ensures more == [] <==> Unread(Run(old(r.xsk.m), turn.before)) == 0
    ensures RowsAdded(old(r.printed), r.printed, PrintedOf(more))
    ensures forall j | |old(r.printed)| <= j < |r.printed| :: r.printed[j].rxTimestampD == turn.now
    ensures r.globRxSeq == NumberAfter(old(r.globRxSeq), more)
  {
    ghost var rows, number := r.printed, r.globRxSeq;
    r.xsk.Kernel(turn.before);
    more := if Unread(r.xsk.m) > 0 then [r.xsk.m.delivered[|r.xsk.m.read|]] else [];
    r.RecvPkt(turn.k, turn.now);
    if more != [] {
      PrintedIsAdded(rows, r.printed, number, r.globRxSeq, more[0], turn.now);
    }
  }

  /** A packet of the measuring sender: what the filter decides is then decided by its number alone. */
  predicate FromSender(a: Arrival<TsnFrame>) {
    && a.len != 0 && (a.frame.vlanHdr == 0x81 || a.frame.vlanHdr == 0x08)
    && a.frame.ethHdr == UADP_ETHERTYPE
  }

  function NumbersOf(all: seq<Arrival<TsnFrame>>): seq<nat> {
    seq(|all|, i requires 0 <= i < |all| => all[i].frame.seq_ as nat)
  }

  /** On such packets the socket's loop prints and stops as the loop over their numbers does. */
  lemma {:induction false} NumbersDecide(all: seq<Arrival<TsnFrame>>, n: nat)
    requires forall i | 0 <= i < |all| :: FromSender(all[i])
    ensures NumbersOf(PrintedOf(all)) == Filtered(AfXdp, NumbersOf(all))
    ensures forall i | 0 <= i < |all| :: Ends(all[i], n) <==> Final(AfXdp, NumbersOf(all)[i], n)
    ensures (exists i :: 0 <= i < |all| && Ends(all[i], n)) <==> Exits(AfXdp, NumbersOf(all), n)
  {
    if all != [] {
      NumbersDecide(all[..|all| - 1], n);
      assert NumbersOf(all)[..|all| - 1] == NumbersOf(all[..|all| - 1]);
      assert forall i | 0 <= i < |all| :: NumbersOf(all)[i] == all[i].frame.seq_;
    }
    if i :| 0 <= i < |all| && Ends(all[i], n) {
      assert Final(AfXdp, NumbersOf(all)[i], n);
    }
  }
}
