# A model of the TSN reference software's transmit, receive and time protocols

The C programs of this repository keep four small protocols whose state is entirely in view: AF_XDP frame
recycling, round-trip forwarding of OPC UA packets, the TSQ listener, and cyclic launch times. This project
states each of them in Dafny and proves what holds over every run. Code that updates fields, rings and buffers
in place is a class or a method, proved against a transition system written as functions; what the protocols
promise is proved about the transition systems, for all interleavings with the kernel, the network and the clock.

- `Words`, `Rings`: 32- and 64-bit wrap-around; the single-producer single-consumer rings with masked indices
  and cached counters, proved exact against counters that never wrap.
- `XskReceive`, `XskAnyOrder`, `XskSocket`, `AfxdpReceive`, `PluginReceive`: receiving. The kernel may take a fill
  entry or deliver a packet between any two accesses of the program.
- `XskTransmit`, `XskWire`, `XskSender`, `XskSend`, `XskOverrun`, `AfxdpSend`, `UadpFrame`: sending from a byte array,
  whole sequences of sends, and the frames on the wire. `XskShared`: both directions over the same frames.
- `RxExit`, `AfxdpRoute`: when the measuring receivers stop, and the whole way from the sender's thread to there.
- `Forwarding`, `BoardCallbacks`, `RoundTrip`, `RoundTripOrder`, `Publisher`: the round trip between boards A and B.
- `Schedule`: wake and launch times and the phase between boards.
- `LittleEndian`, `TsqFraming`, `TsqPairing`, `TsqSkew`, `TsqListener`: the byte stream, the pairing of samples, streams a
  fixed skew apart, and both programs.

The environment is a parameter everywhere: kernel steps, arriving packets, clock readings, results of `poll`,
`select` and `sendto`, and the thread interleaving are arbitrary arguments.

## Results that differ from what one might expect

- The senders copy the payload before they ask for a ring slot. The copy leaves every frame in flight unchanged if and
  only if fewer than N are in flight (`WriteIsSafeIff`), and the wire is right if and only if no copy takes posted bytes
  from a descriptor not yet sent (`AlwaysSoundIff`). A caller can check `outstanding_tx < N`, which no code does. N sends
  before the kernel runs and one more put wrong bytes on the wire, for every ring size (`OverrunCorrupts`).
- The fill ring holds every frame on a sender too, so a packet that arrives may be stored over a frame in flight. The
  positions of the two in the ring of frames decide, in both directions (`ArrivalSparesIff`, `WriteSparesIff`).
- A refused send neither kicks the kernel nor reaps a completion. Once 2N descriptors are outstanding no send ever
  posts again (`StuckForever`), and a fresh socket can get there (`StuckIsReachable`).
- The receive path relies on the device using frames in fill order: over a whole run every frame is handed back for
  itself if and only if every delivery was in that order (`ReturnedRightIff`).
- Each packet the plugin's filter refuses, and each accepted one with an empty payload, takes a frame out of
  circulation for good; after 2048 of them no callback receives anything (`ReaderCallbacks`), and not before
  (`ReceivesUntilStarved`).
- A tagged receiver accepts an untagged frame and strips four bytes of payload (`UntaggedIsTruncated`).
- A first sequence number 999 is reported as a duplicate although nothing preceded it (`FalseDuplicateIff`).
- The AF_PACKET sender has no flush packets, so its receiver misses the end if the last packet is lost
  (`AfpktExitsIff`).
- The TSQ reader takes 255 bytes of 256-byte frames. The only harmful offset is byte 3, reached after 253 full
  reads in a row (and every 256 after); what is read there is accepted exactly if the payload is `Mistakable`
  (`MisreadIff`). Talkers number their samples from 0, so this cannot happen within the first 2^24 + 4 samples of a
  talker, about half a year of one a second, whatever the uids and the backlog (`FirstSamplesAreSafe`), and never
  with uids that are no multiples of 256 (`MisreadIsLate`). After that it can (`FallBehind`).
- A comment in `src/tsq.c:465-468` says the kept sample waits while the other slot is read again. In the code any read
  of the kept slot brings it back and throws away what was read. If that is the last byte of the kept frame nothing is
  lost and a skew of one second heals; if it is the next frame, a sample is lost and the skew stays. The first happens
  exactly if that byte was unread when the sample was kept and the slot's next frame is read in a later round than
  the other slot's (`SkewPersistsIff`).
- Comments in `src/opcua-tsn/opcua_custom.c` speak of the nearest fifth second; the code rounds up to a multiple
  of ten, and so does the model.
- For a given publish delay the boards agree on the phase for all start instants if and only if the cycle time
  divides ten seconds and the difference of the two start delays (`PhaseAtDelayIff`); a cycle that divides one
  second always does, and only such a cycle does at every delay (`PhaseAtAllDelaysIff`).
- The plugin's fill loop multiplies by the ring size and `cur_tx` wraps at the frame size; both are right only
  because both constants are 2048.

## Model

| member | source | states |
|---|---|---|
| `Rings.ReserveIsExact` | dependencies/open62541/patches/patches_w_xdp_tbs/0002-feature-PubSub-Use-libbpf-for-AF_XDP-receive-update-.patch:226-237 | a reservation on wrapped 32-bit words with a cached consumer copy is granted exactly when that many slots are free in counters that never wrap, and its masked index is the right slot |
| `Rings.PeekIsExact` | dependencies/open62541/patches/patches_w_xdp_tbs/0002-feature-PubSub-Use-libbpf-for-AF_XDP-receive-update-.patch:184-194 | a peek is granted exactly when an entry waits in counters that never wrap, and its masked index is the oldest one |
| `Rings.SubmitFills` | dependencies/open62541/patches/patches_w_xdp_tbs/0002-feature-PubSub-Use-libbpf-for-AF_XDP-receive-update-.patch:247-252 | advancing the shared producer word keeps the ring in step with its unbounded counters |
| `Rings.ReleaseDrains` | dependencies/open62541/patches/patches_w_xdp_tbs/0002-feature-PubSub-Use-libbpf-for-AF_XDP-receive-update-.patch:205-214 | advancing the shared consumer word keeps the ring in step with its unbounded counters |
| `Rings.ConsumeFills` | dependencies/open62541/patches/patches_w_xdp_tbs/0002-feature-PubSub-Use-libbpf-for-AF_XDP-receive-update-.patch:229-237 | the kernel taking an entry keeps the fill side exact although the cached consumer copy is now stale |
| `Rings.ProduceDrains` | dependencies/open62541/patches/patches_w_xdp_tbs/0002-feature-PubSub-Use-libbpf-for-AF_XDP-receive-update-.patch:187-194 | the kernel adding an entry keeps the reading side exact although the cached producer copy is now stale |
| `XskReceive.RunKeepsInv` | src/txrx-afxdp.c:395-462 | every interleaving of kernel and program only adds to what was delivered and read, and keeps the receive invariant: fill slots still hold the initial addresses, descriptors and frames go round in one fixed order, unread frames are intact |
| `XskReceive.StepKeepsOrder` | src/txrx-afxdp.c:395-462 | whatever the frames contain, every step keeps who owns which frame and the order they go round in |
| `XskReceive.StartHolds` | src/txrx-afxdp.c:141-153 | the populated fill ring satisfies that invariant |
| `XskReceive.ReadsAreDeliveries` | src/txrx-afxdp.c:407-420 | whatever the interleaving, the packets read are a prefix of the packets delivered, with their contents |
| `XskReceive.FramesAreConserved` | src/txrx-afxdp.c:405-456 | in every reachable state unreturned descriptors, frames inside the kernel and fill entries together hold each of the N frames exactly once |
| `XskReceive.StaleSlotIsRight` | src/txrx-afxdp.c:411-454 | the fill slot handed back without being rewritten names exactly the frame of the oldest descriptor not yet handed back |
| `XskReceive.PeekImpliesRoom` | src/txrx-afxdp.c:411-416 | free fill slots are at least the descriptors still owed one, so the reserve after a successful peek succeeds at once |
| `XskReceive.ReuseNeedsFillOrder` | src/txrx-afxdp.c:419-454 | from any state of the invariant, whatever is outstanding, a delivery into the i-th frame held by the kernel will be handed back right if and only if i is 0; otherwise a frame the kernel still holds will be handed back |
| `XskAnyOrder.ReturnedRightIff` | src/txrx-afxdp.c:405-456 | over every run of a kernel that may pick any frame it holds, every frame is handed back for itself if and only if every delivery was in fill order |
| `XskAnyOrder.RunKeepsAnyInv` | src/txrx-afxdp.c:405-456 | in whatever order frames are used the counts stay in step and each unreleased descriptor names the frame of its delivery |
| `XskAnyOrder.PickIsRightIff` | src/txrx-afxdp.c:419-454 | one delivery is returned right exactly if it is in fill order, and then the receive invariant survives |
| `XskAnyOrder.NextReturn` | src/txrx-afxdp.c:454-455 | the submit of a receive hands back exactly what these statements are about, for the oldest packet read |
| `XskAnyOrder.FreshSocketIsRight` | src/txrx-afxdp.c:141-153 | the populated fill ring satisfies the hypotheses of these runs |
| `XskReceive.KernelRunsAside` | src/txrx-afxdp.c:411-456 | kernel steps never change what the program has peeked, reserved, read, submitted or released |
| `XskSocket.PopulateFill` | src/txrx-afxdp.c:141-153 | the reservation of the whole ring is granted and every slot k then holds k times the stride, submitted |
| `XskSocket.WriteAddrs` | dependencies/open62541/patches/patches_w_xdp_tbs/0002-feature-PubSub-Use-libbpf-for-AF_XDP-receive-update-.patch:357-358 | the fill loop writes the address of frame k into slot k, for every k |
| `XskSocket.RxSocket.constructor` | src/txrx-afxdp.c:141-155 | a socket with wrapped words starts as the start state of the transition system |
| `XskSocket.RxSocket.KernelStep` | src/txrx-afxdp.c:407-456 | a kernel step on wrapped words is the kernel step of the transition system |
| `XskSocket.RxSocket.PeekOne` | src/txrx-afxdp.c:407-409 | peeking on wrapped words is the peek step; granted exactly when a packet is unread |
| `XskSocket.RxSocket.ReserveOne` | src/txrx-afxdp.c:411-411 | reserving after a peek is the reserve step and is always granted |
| `XskSocket.RxSocket.ReadOne` | src/txrx-afxdp.c:419-422 | reading through the ring index returns the oldest packet not read yet, exactly as delivered |
| `XskSocket.RxSocket.SubmitOne` | src/txrx-afxdp.c:454-454 | submitting one fill slot is the submit step |
| `XskSocket.RxSocket.ReleaseOne` | src/txrx-afxdp.c:455-456 | releasing one descriptor is the release step and counts the packet modulo 2^64 |
| `AfxdpReceive.ReceiveUnrolls` | src/txrx-afxdp.c:407-456 | one receive, with kernel activity between any two of its accesses, is a run of the transition system |
| `AfxdpReceive.Receiver.RecvPkt` | src/txrx-afxdp.c:395-462 | with nothing unread nothing changes; otherwise the oldest packet is read once and everything handed back; a packet that passes the tests gets one line whose send time plus latency is the time of reading and whose number, queue and device stamp are the packet's, and its number is recorded; any other gets none |
| `AfxdpReceive.Receiver.Print` | src/txrx-afxdp.c:424-451 | that line, for a packet of non-zero length with an accepted header word and type and a number from 1 to 49999999, and for no other |
| `AfxdpReceive.ReportMeasures` | src/txrx-afxdp.c:429-451 | what is printed is one line that measures the packet exactly if the packet passes the tests |
| `AfxdpReceive.Receiver.Claim` | src/txrx-afxdp.c:411-416 | the retry loop ends with a granted reservation |
| `PluginReceive.RefusedFramesAreLost` | dependencies/open62541/patches/patches_w_xdp_tbs/0002-feature-PubSub-Use-libbpf-for-AF_XDP-receive-update-.patch:741-770 | between callbacks the frames in circulation number N minus the packets looked at and never released |
| `PluginReceive.MessageStaysPut` | dependencies/open62541/patches/patches_w_xdp_tbs/0002-feature-PubSub-Use-libbpf-for-AF_XDP-receive-update-.patch:776-800 | a message handed to the callback keeps its bytes, whatever the kernel does, until a release |
| `PluginReceive.Starved` | dependencies/open62541/patches/patches_w_xdp_tbs/0002-feature-PubSub-Use-libbpf-for-AF_XDP-receive-update-.patch:745-762 | with no packet of N returned, no accesses short of a release change anything, kernel included |
| `PluginReceive.ReceivesUntilStarved` | dependencies/open62541/patches/patches_w_xdp_tbs/0002-feature-PubSub-Use-libbpf-for-AF_XDP-receive-update-.patch:745-762 | the kernel can bring another packet if and only if fewer than N packets were refused |
| `PluginReceive.Channel.Receive` | dependencies/open62541/patches/patches_w_xdp_tbs/0002-feature-PubSub-Use-libbpf-for-AF_XDP-receive-update-.patch:705-786 | status and message for every select result; when a packet waits it is the oldest unread one, judged by ethertype and target and stripped of its header; the reserve cannot fail |
| `PluginReceive.Channel.Fetch` | dependencies/open62541/patches/patches_w_xdp_tbs/0002-feature-PubSub-Use-libbpf-for-AF_XDP-receive-update-.patch:745-785 | one more packet is read and the message is its payload or nothing, as the filter decides |
| `PluginReceive.Channel.Release` | dependencies/open62541/patches/patches_w_xdp_tbs/0002-feature-PubSub-Use-libbpf-for-AF_XDP-receive-update-.patch:788-801 | one fill slot and one descriptor go back, and what has been read, peeked and reserved stays |
| `PluginReceive.Channel.ReaderCallback` | dependencies/open62541/patches/patches_w_xdp_tbs/0002-feature-PubSub-Use-libbpf-for-AF_XDP-receive-update-.patch:831-843 | over any callback the frames in circulation number exactly 2048 minus the packets not released, and once 2048 are not released a callback changes nothing and processes nothing |
| `PluginReceive.Channel.ReaderCallbacks` | dependencies/open62541/patches/patches_w_xdp_tbs/0002-feature-PubSub-Use-libbpf-for-AF_XDP-receive-update-.patch:831-843 | over any number of callbacks the same count holds, reads only grow, releases grow by the messages processed, and after 2048 unreleased packets nothing is ever received again |
| `UadpFrame.RoundTrip` | dependencies/open62541/patches/patches_w_xdp_tbs/0003-feature-PubSub-add-support-for-AF_XDP-transmission.patch:54-94 | receiving what was sent returns exactly the payload if and only if both ends use a tag or neither does and the targets match |
| `UadpFrame.BuiltIsLaidOut` | dependencies/open62541/patches/patches_w_xdp_tbs/0003-feature-PubSub-add-support-for-AF_XDP-transmission.patch:57-88 | the frame place by place: target, own address, VLAN type and tag with id and priority exactly if they fit, type, payload |
| `UadpFrame.OthersAreRefused` | dependencies/open62541/patches/patches_w_xdp_tbs/0002-feature-PubSub-Use-libbpf-for-AF_XDP-receive-update-.patch:757-770 | a frame of any other type or to any other address is no message; one of this type to this address is its bytes behind the header |
| `UadpFrame.UntaggedIsTruncated` | dependencies/open62541/patches/patches_w_xdp_tbs/0002-feature-PubSub-Use-libbpf-for-AF_XDP-receive-update-.patch:757-783 | a tagged receiver accepts an untagged frame and loses four payload bytes; shorter payloads give an underflowed length |
| `UadpFrame.TagRoundTrip` | dependencies/open62541/patches/patches_w_xdp_tbs/0003-feature-PubSub-add-support-for-AF_XDP-transmission.patch:69-79 | the stored tag gives back id and priority if and only if the id is below 4096 and the priority below 8 |
| `UadpFrame.Htons` | dependencies/open62541/patches/patches_w_xdp_tbs/0003-feature-PubSub-add-support-for-AF_XDP-transmission.patch:75-78 | the stored bytes read in network order are the value modulo 2^16 |
| `XskTransmit.RunKeepsInv` | src/txrx-afxdp.c:251-325 | every interleaving keeps descriptors, addresses and counters in step, whatever the program writes, and only adds to what was posted, taken and sent |
| `XskTransmit.PostsAreConserved` | src/txrx-afxdp.c:251-325 | reaped plus outstanding equals the number posted, outstanding never underflows, and cur_tx is that number modulo N |
| `XskTransmit.WindowEndsAtCurTx` | src/txrx-afxdp.c:296-318 | the frames in flight are the cyclic interval of frames that ends just before cur_tx, each inside the memory on a frame boundary |
| `XskTransmit.WriteIsSafeIff` | src/txrx-afxdp.c:296-301 | copying into the current frame leaves every frame in flight unchanged if and only if fewer than N are in flight |
| `XskTransmit.InFlightIsObservable` | src/txrx-afxdp.c:256-265 | what is in flight is the program's outstanding count less the completions not reaped yet |
| `XskTransmit.RefusalFollowsOverwrite` | src/txrx-afxdp.c:298-301 | whenever a reservation is refused the frame just written was still in flight |
| `XskTransmit.WireCarriesPosts` | src/txrx-afxdp.c:295-325 | if every write finds fewer than N outstanding, the wire carries exactly the posted frames in order, in every interleaving |
| `XskWire.AlwaysSoundIff` | src/txrx-afxdp.c:295-325 | over every run, wire and queued frames are what was posted at every point if and only if no write takes posted bytes from a descriptor not yet on the wire |
| `XskWire.HarmNeedsFullWindow` | src/txrx-afxdp.c:296-301 | such a write finds at least N descriptors posted and not on the wire, and N outstanding |
| `XskWire.HarmShows` | src/txrx-afxdp.c:320-322 | what a frame holds then is what the kernel sends |
| `XskWire.CarefulIsHarmless` | src/txrx-afxdp.c:295-325 | runs whose writes find fewer than N outstanding have no such write |
| `XskShared.ArrivalSparesIff` | src/txrx-afxdp.c:141-153 | on the shared frames, a packet that changes its frame spares the frames in flight if and only if its position is not among theirs, modulo N |
| `XskShared.WriteSparesIff` | src/txrx-afxdp.c:296-298 | a write that changes its frame spares the packets not handed back if and only if cur_tx is not among their positions, modulo N |
| `XskShared.HeadroomSpares` | src/txrx-afxdp.c:141-153 | a packet stored behind the length of a descriptor takes none of its bytes |
| `XskShared.ClearRunsAreGood` | src/txrx-afxdp.c:295-456 | over every run of both halves in which no such clash happens, the wire carries what was posted and the program reads what was delivered |
| `XskSender.CopyStaysInFrame` | src/txrx-afxdp.c:296-298 | copying into one frame of the byte array splices that frame and leaves every other frame as it was |
| `XskSender.KernelRunsAside` | src/txrx-afxdp.c:300-325 | kernel steps post nothing, write nothing and lose nothing |
| `XskSender.RingPost` | src/txrx-afxdp.c:300-314 | reserve, write and submit on wrapped words add exactly one descriptor to the ring, or nothing when it is full |
| `XskSender.TxSocket.Memcpy` | src/txrx-afxdp.c:296-298 | copying into the byte array is the write step, always inside the current frame |
| `XskSender.TxSocket.PostRaw` | src/txrx-afxdp.c:300-318 | a granted reservation stores the descriptor for the current frame and moves cur_tx on; a refused one changes nothing |
| `XskSender.TxSocket.PostOne` | src/txrx-afxdp.c:300-318 | posting on wrapped words is the post step; granted exactly when the ring has room |
| `XskSender.TxSocket.Reap` | src/txrx-afxdp.c:251-266 | update_txstats is the reap step: at most one completion, counters without underflow |
| `XskSender.TxSocket.KernelStep` | src/txrx-afxdp.c:300-325 | taking, transmitting and completing on wrapped words are the kernel steps of the transition system |
| `XskSend.SendIsSafe` | src/txrx-afxdp.c:295-324 | a send that finds fewer than N outstanding is never refused, posts exactly its own bytes and harms no frame in flight |
| `XskSend.SendReaps` | src/txrx-afxdp.c:320-323 | a granted and kicked send accounts for exactly one completion if one was reported |
| `XskSend.SendKeepsTemplate` | src/txrx-afxdp.c:190-200 | no send changes the header the prefill stored in any frame |
| `XskSender.TxSocket.Prefill` | src/txrx-afxdp.c:190-200 | the loop makes every frame of the byte array begin with the example packet, with nothing posted or in flight |
| `XskSend.PrefillMakesTemplate` | src/txrx-afxdp.c:190-200 | every frame that cur_tx can name then carries the template header |
| `XskSend.AfxdpSendPkt` | src/txrx-afxdp.c:268-328 | no effect when polling reports no room; otherwise copy, post and reap, and under the window condition the posted packet is the template header followed by the payload |
| `XskSend.PluginSend` | dependencies/open62541/patches/patches_w_xdp_tbs/0003-feature-PubSub-add-support-for-AF_XDP-transmission.patch:38-122 | a frame over 2048 bytes is refused after its header is written; otherwise the send is header, copy, post and reap, good exactly if the reservation and the kick succeed, and under the window condition exactly the built frame is posted, laid out place by place |
| `XskOverrun.OverrunCorrupts` | src/txrx-afxdp.c:295-318 | for every ring size, N sends before the kernel runs and one more with another payload, which is refused, put bytes on the wire that were not posted |
| `XskOverrun.OverwrittenGoesOut` | src/txrx-afxdp.c:296-301 | a send into a full window is refused and its bytes go out under the oldest descriptor |
| `XskOverrun.IntactSends` | src/txrx-afxdp.c:295-318 | up to N sends into an empty window are all granted and intact, the first with its own payload |
| `XskOverrun.OutstandingNeverFalls` | src/txrx-afxdp.c:300-323 | no send lowers the number outstanding: a refused one neither kicks nor reaps, a granted one reaps at most one |
| `XskOverrun.StuckForever` | src/txrx-afxdp.c:300-323 | once 2N are outstanding no send ever posts again, whatever the kernel does before, during and after each |
| `XskOverrun.SendsUntilStuck` | src/txrx-afxdp.c:300-301 | a send can post, if need be after the kernel takes one descriptor, if and only if fewer than 2N are outstanding |
| `XskOverrun.StuckIsReachable` | src/txrx-afxdp.c:295-323 | from a fresh socket, for every ring size and whatever is sent, N sends, N descriptors taken and N more sends lead there |
| `AfxdpSend.SendThread` | src/txrx-afxdp.c:330-392 | over the whole thread the socket is left as the sends of the turns with room leave it; if each of them finds fewer than N outstanding, as it does if fewer than N - 1 are at the end, what is posted and goes out is their packets in order: template header, number and time of the turn, launch times of the schedule |
| `AfxdpSend.SendLoop` | src/txrx-afxdp.c:359-386 | the loop is the sends of its turns in order, and ends early only at a failed kick |
| `AfxdpSend.TurnsCarry` | src/txrx-afxdp.c:359-386 | from a prefilled socket, turns that all find room in the window post exactly their packets |
| `AfxdpSend.FewAtTheEnd` | src/txrx-afxdp.c:300-323 | the count outstanding at the end tells that every turn found room |
| `XskOverrun.CarefulSendsPost` | src/txrx-afxdp.c:295-324 | sends that all find fewer than N outstanding post exactly the template and their data, in order |
| `XskOverrun.LastTellsAll` | src/txrx-afxdp.c:300-323 | if fewer than N are outstanding at the end, fewer were at every send |
| `AfxdpSend.SendTurn` | src/txrx-afxdp.c:359-386 | one turn is one send of its packet, or nothing if polling reports no room |
| `AfxdpSend.NumberOfPacket` | src/txrx-afxdp.c:366-368 | the number and the time are found at their places in the packet |
| `AfxdpSend.LaunchMeans` | src/txrx-afxdp.c:357-382 | with launch times asked for the first packet goes at the first time and each an interval after the one before; otherwise there is none |
| `AfxdpSend.AllTurnsReady` | src/txrx-afxdp.c:359-385 | with room on every turn the numbers sent are 0 to n plus 9 |
| `RxExit.ReceiveLoop` | src/txrx.c:457-465 | the loop prints what the filter passes and stops at the first reported number at or past n, for both receivers |
| `RxExit.SocketLoop` | src/txrx.c:457-465 | the loop over the socket itself, with the kernel at work before and during each call, prints exactly one line about each packet read that passes the tests, in order, and stops at the first one numbered n or more |
| `RxExit.ReceiveOne` | src/txrx.c:459-463 | one pass reads the oldest packet unread once the kernel has run, exactly if there is one |
| `RxExit.NumbersDecide` | src/txrx-afxdp.c:435-447 | on packets of the sender the filter and the exit of that loop are those of the loop over the numbers |
| `RxExit.FiltersCompared` | src/txrx-afpkt.c:563-584 | both receivers print the numbers from 1 to 49999999; 0 and fifty million only AF_PACKET does |
| `RxExit.ArrivingIncreases` | src/txrx-afxdp.c:359-386 | in-order lossy delivery of increasing numbers is increasing |
| `RxExit.ArrivingElements` | src/txrx-afxdp.c:359-386 | what arrives is exactly what was sent and not lost |
| `RxExit.ExitsIff` | src/txrx.c:459-464 | a receiver exits if and only if a number at or past n that its filter passes was sent and arrived |
| `RxExit.AfxdpExitsIff` | src/txrx-afxdp.c:359-386 | the AF_XDP receiver exits if and only if one of the last ten packets arrives, hence under any loss of at most nine |
| `RxExit.AfpktExitsIff` | src/txrx-afpkt.c:358-382 | the AF_PACKET receiver exits if and only if packet n itself arrives |
| `RxExit.PrintedNumbers` | src/txrx-afxdp.c:435-447 | printed numbers strictly increase and never include 0 |
| `AfxdpRoute.PacketIsFromSender` | src/txrx.c:93-114 | a packet of the sender passes the header tests of the receiver and carries number, time and queue |
| `AfxdpRoute.LineOfPacket` | src/txrx-afxdp.c:359-447 | a line printed about a packet of the sender carries its number, its queue, the time it was sent and the device stamp, and the latency from then to the reading |
| `AfxdpRoute.RouteEndsIff` | src/txrx-afxdp.c:359-462 | from the sender's thread to the receiver's loop: the loop that sees what the network kept ends if and only if one of the last ten packets arrives, and prints what the filter on the numbers passes |
| `Forwarding.RunKeepsInv` | src/opcua-tsn/opcua_datasource.c:113-305 | every interleaving of receptions, attempts and forwards keeps the accounting of messages |
| `Forwarding.ForwardingAccounts` | src/opcua-tsn/opcua_datasource.c:157-302 | good forwards are an in-order subsequence of what was received, tx_sequence is their number minus 2, and each message received is forwarded, reported, in hand, queued or dropped, exactly once |
| `Forwarding.GateStaysOpen` | src/opcua-tsn/opcua_datasource.c:221-263 | with a clock past 999 ns an open gate stays open and no queued message is reported early, missing or miscopied |
| `Forwarding.GateClosesIff` | src/opcua-tsn/opcua_datasource.c:245-251 | over any run, early reports count the judged messages with a number below 10 and both times 888 or both 999; while nothing usable arrives an open gate closes if and only if one of those was judged; anything usable opens it |
| `Forwarding.FifteenMisses` | src/opcua-tsn/opcua_datasource.c:223-302 | fifteen attempts on an empty queue send a row of three copy-error codes with the unchanged sequence number and change neither gate nor duplicate memory |
| `Forwarding.ExhaustedIsCopyError` | src/opcua-tsn/opcua_datasource.c:259-302 | the same for any state in which the attempts ran out |
| `Forwarding.FalseDuplicateIff` | src/opcua-tsn/opcua_datasource.c:265-269 | strictly increasing input gives a duplicate report if and only if the first message judged is number 999, and then exactly one; with a queue of at least one place that is the first message received |
| `Forwarding.RowsNeverRepeat` | src/opcua-tsn/opcua_datasource.c:265-302 | with a clock past 999 ns, whatever arrives, the duplicate memory is the last number sent that is no error code, and no row with a number above 10 repeats it |
| `Forwarding.ForwardSends` | src/opcua-tsn/opcua_datasource.c:244-302 | each dequeued message gets the row it should: each of the three codes exactly for its own kind of message, the message unchanged otherwise, with the time of the call and a number that moves exactly for a message neither coded nor early |
| `Forwarding.VerdictIff` | src/opcua-tsn/opcua_datasource.c:245-273 | the chain of tests in the terms of the message and the last number sent |
| `Forwarding.CodesReport` | src/opcua-tsn/opcua_datasource.c:265-302 | over every run the rows with the duplicate code number the duplicates, and those with the nothing-to-forward code the initial values judged |
| `Forwarding.NothingIsNeverMissing` | src/opcua-tsn/opcua_datasource.c:253-257 | with a clock past 999 ns no row ever says there is nothing to forward |
| `Forwarding.RunningIff` | src/opcua-tsn/opcua_datasource.c:184-297 | over every run the process still runs if and only if the last number was not received, no empty array came while that number is 999, and fewer messages were forwarded than stop it |
| `Forwarding.FirstIsNeverDropped` | src/opcua-tsn/opcua_datasource.c:169-178 | with a queue of at least one place the first message judged is the first received |
| `Forwarding.ReceiveQueues` | src/opcua-tsn/opcua_datasource.c:169-178 | a message that fits joins the end of the line, one that does not is dropped and disturbs nothing |
| `BoardCallbacks.BoardB.SubStoreDataReceived` | src/opcua-tsn/opcua_datasource.c:113-196 | the callback is the receive step on the process state, writes the result line while the file is open, and closes it at the last number |
| `BoardCallbacks.BoardB.PubReturnGetDataToTransmit` | src/opcua-tsn/opcua_datasource.c:198-305 | up to fifteen attempts with receptions in between, then the forward step; the row returned is the one recorded |
| `BoardCallbacks.BoardB.Validate` | src/opcua-tsn/opcua_datasource.c:244-273 | the chain of tests replaces, gates and counts as the verdict says, each kind of message by its own code |
| `BoardCallbacks.BoardB.Build` | src/opcua-tsn/opcua_datasource.c:275-302 | row, stop flag and duplicate memory after one call |
| `BoardCallbacks.PollsAreRun` | src/opcua-tsn/opcua_datasource.c:223-238 | the attempts with the subscriber running in between are a run of the transition system |
| `BoardCallbacks.CallIsRun` | src/opcua-tsn/opcua_datasource.c:198-305 | a whole call is a run of the transition system |
| `BoardCallbacks.ReceiveAllIsRun` | src/opcua-tsn/opcua_datasource.c:113-196 | any sequence of receptions is a run of the transition system |
| `RoundTrip.EveryLineIsHonest` | src/opcua-tsn/opcua_datasource.c:341-380 | over a network that loses, repeats and reorders, every line is for the row that arrived at that time: the text of its own error code, or a pair A published and the reception time B recorded for it, with the latency of each leg between its own two times |
| `RoundTrip.LatenciesAddUp` | src/opcua-tsn/opcua_datasource.c:359-362 | the three legs add up to the return latency modulo 2^64, and exactly when the timestamps are in order |
| `RoundTrip.LineIsForRow` | src/opcua-tsn/opcua_datasource.c:359-376 | the line of a row has the row's numbers and the arrival time, each leg congruent to the difference of its own two times and equal to it when they are in order, or the text of its own code |
| `RoundTrip.ForwardAddsRow` | src/opcua-tsn/opcua_datasource.c:275-290 | a call adds at most one row, with the time of the call, and what is in hand or an error |
| `RoundTrip.ForwardIsHonest` | src/opcua-tsn/opcua_datasource.c:240-302 | a row is an error report or carries a message from the queue unchanged |
| `RoundTrip.ReturnSubscriber.StoreDataReceived` | src/opcua-tsn/opcua_datasource.c:307-395 | one line for the row while the file is open, each leg between its own two times, with the error text of its own code; a number at or past the last that is no code closes file and process |
| `RoundTripOrder.ResultsInOrder` | src/opcua-tsn/opcua_datasource.c:341-380 | over a network that loses but keeps the order, and a publisher whose numbers increase, the measured lines have strictly increasing numbers of A, and numbers of B that count the rows carrying a message |
| `RoundTripOrder.ConsecutiveUnlessLost` | src/opcua-tsn/opcua_datasource.c:341-380 | if no row is lost on the way back, two measured lines in a row have consecutive numbers of B |
| `RoundTripOrder.RunKeepsInv` | src/opcua-tsn/opcua_datasource.c:157-380 | over every run, what B received is the publications that arrived, rows carry the good messages one after the other, and lines are about the rows that arrived |
| `RoundTripOrder.PublisherIncreases` | src/opcua-tsn/opcua_datasource.c:90-108 | the numbers of a lone publisher increase and are no error codes |
| `Schedule.NormalIsUnique` | src/opcua-tsn/opcua_custom.c:62-79 | a normalised instant is determined by its total nanoseconds |
| `Schedule.Timespec.Normalize` | src/opcua-tsn/opcua_custom.c:62-79 | terminates with the same total and nanoseconds in range, in either direction |
| `Schedule.PubThread` | src/opcua-tsn/opcua_custom.c:189-239 | the k-th wake and launch times equal base plus k cycles exactly, whichever turns were gated blank, and the blanks are counted |
| `Schedule.PubStart` | src/opcua-tsn/opcua_custom.c:190-200 | the first launch time, computed in wrapping steps, is the rounded start plus delay and offset modulo 2^64 |
| `Schedule.TurnMeans` | src/opcua-tsn/opcua_custom.c:189-238 | the first launch is the delay and the offset after the start rounded up to a multiple of ten seconds, each launch is a cycle after the one before, and the wake is the early offset ahead |
| `Schedule.NextTen` | src/opcua-tsn/opcua_custom.c:191-191 | the rounded start is the next multiple of ten |
| `Schedule.FirstWakeMeans` | src/opcua-tsn/opcua_custom.c:273-277 | the subscriber first wakes three seconds and the offset after a multiple of ten |
| `Schedule.LaunchMeans` | src/txrx-afxdp.c:355-382 | the tools' first packet is due two seconds and the offset after the start, each an interval later, with the wake the early offset ahead |
| `Schedule.BlanksAreClosed` | src/opcua-tsn/opcua_custom.c:227-228 | the blank turns counted are those with the gate closed |
| `Schedule.SubThread` | src/opcua-tsn/opcua_custom.c:270-289 | the j-th wake time equals base plus j cycles exactly |
| `Schedule.AfxdpSendThread` | src/txrx-afxdp.c:355-386 | n plus ten packets numbered from 0; the k-th launch time is base plus k intervals and the wake time is earlier by the early offset |
| `Schedule.AfpktSendThreadEtf` | src/txrx-afpkt.c:347-382 | n packets numbered from 1 on the same schedule: the early offset taken off and added back cancels |
| `Schedule.EarlyCancels` | src/txrx-afpkt.c:349-377 | the early offset cancels after any number of intervals, modulo 2^64 |
| `Schedule.OneCycle` | src/opcua-tsn/opcua_custom.c:207-238 | a wrapped addition of the cycle is the next term of the schedule |
| `Schedule.PhaseIff` | src/opcua-tsn/opcua_custom.c:189-200 | two threads are in phase, for all turns, exactly when the cycle divides the whole seconds between their starts |
| `Schedule.PhaseAtDelayIff` | src/opcua-tsn/opcua_custom.c:189-200 | at a given publish delay the threads are in phase for all start instants if and only if the cycle divides ten seconds and the difference of the two start delays |
| `Schedule.PhaseAtAllDelaysIff` | src/opcua-tsn/opcua_custom.c:189-200 | for all publish delays too, if and only if the cycle divides one second |
| `Schedule.DelayThree` | src/opcua-tsn/opcua_custom.c:273-275 | at a delay of three seconds a cycle of 3.2 ms is always in phase although it does not divide a second |
| `Publisher.Process.GetDataToTransmit` | src/opcua-tsn/opcua_datasource.c:68-111 | each read sends the next number with the time, and the flag falls exactly at the packet count |
| `Publisher.Process.SetupAndPublish` | src/opcua-tsn/opcua_datasource.c:86-108 | after any number of setup reads the thread publishes the numbers from that count minus 1 to the packet count, each once, in order, and stops |
| `TsqFraming.DecodeEncode` | src/tsq.c:120-125 | a payload decoded from its little-endian bytes is the payload |
| `TsqFraming.SendableIsAccepted` | src/tsq.c:236-243 | everything a talker can send under a known uid is accepted, and exactly what has a known uid and non-zero uid, seconds and nanoseconds |
| `TsqFraming.WindowByte` | src/tsq.c:416-424 | byte i of the zeroed buffer after a read is the byte of the frame it falls in, or of the next, or zero |
| `TsqFraming.FrameBytes` | src/tsq.c:614-615 | what every frame of a talker looks like, byte by byte |
| `TsqFraming.AlignedWindow` | src/tsq.c:424-447 | a read on a frame boundary decodes to the payload of that frame |
| `TsqFraming.ThreeBytesLate` | src/tsq.c:424-447 | a read three bytes late is accepted if and only if the sequence number forms a known uid and the shifted times are non-zero, and never gives the payload written |
| `TsqFraming.AcceptedPhases` | src/tsq.c:232-245 | an accepted payload was read from byte 0 or byte 3 of a frame |
| `TsqFraming.AcceptedIsWritten` | src/tsq.c:232-245 | an accepted payload is the one written if and only if the read began on the frame boundary |
| `TsqFraming.MisreadIff` | src/tsq.c:424-447 | a read is accepted as anything but the payload at whose start it began if and only if it begins at byte 3 of a mistakable payload |
| `TsqFraming.MistakableIsLate` | src/tsq.c:521-630 | with the talker numbering its samples from 0, a mistakable one past the fortieth is number 2^24 + 4 or later, leaves 4 to 39 modulo 2^24, and needs a uid that is a multiple of 256 |
| `TsqFraming.MisreadIsLate` | src/tsq.c:416-447 | a misread needs 253 full reads modulo 256, more than 2^24 + 4 samples, and such a uid |
| `TsqFraming.FirstSamplesAreSafe` | src/tsq.c:416-447 | among the first 2^24 + 4 samples, for any uids and any backlog, whatever is accepted is what was written |
| `TsqFraming.PhaseOfRead` | src/tsq.c:424-424 | the offset of a read in its frame is 3 exactly after 253 full reads modulo 256 |
| `TsqListener.GreetingIsUnderstood` | src/tsq.c:561-562 | the uid parsed from the greeting is the uid the talker was given |
| `TsqListener.Connection.constructor` | src/tsq.c:558-562 | after the greeting one full read of 255 bytes has been taken |
| `TsqListener.Connection.Sample` | src/tsq.c:595-636 | the last event of a poll is sent with the next number unless its seconds or nanoseconds are zero |
| `TsqListener.Connection.Read` | src/tsq.c:416-427 | what a read returns, and that a read shorter than 255 bytes leaves the reader on a frame boundary |
| `TsqListener.FrameIsReadTwice` | src/tsq.c:416-447 | a whole frame offers 255 bytes with its sample and then one byte that decodes to nothing |
| `TsqListener.SampleIsFollowedByNone` | src/tsq.c:416-447 | the read after one that brought a sample brings none, whatever was written meanwhile |
| `TsqListener.AcceptedExtendsTrace` | src/tsq.c:443-447 | the accepted samples of a socket stay an in-order selection of what its talker wrote, unless a read began at byte 3 |
| `TsqListener.NextRead` | src/tsq.c:424-447 | an accepted payload that is not misread extends the trace of the socket |
| `TsqListener.NextMisread` | src/tsq.c:416-447 | exactly which reads of a connection are misread, and that none is in its first 2^24 + 4 samples or with uids that are no multiples of 256 |
| `TsqListener.NextSample` | src/tsq.c:416-447 | a read at the start of a written frame brings exactly that sample, and it is accepted |
| `TsqListener.ReadPayload` | src/tsq.c:416-444 | reading and decoding keeps the trace, and extends it by an accepted payload that is not misread |
| `TsqListener.FallBehind` | src/tsq.c:416-447 | a run of talker and reader that does misread: after 2^24 - 248 samples read in time and a backlog of 254, a payload is accepted that nobody wrote |
| `TsqListener.ValidatePayload` | src/tsq.c:232-245 | true exactly for a known uid and non-zero uid, seconds and nanoseconds |
| `TsqListener.DataReady` | src/tsq.c:254-262 | true exactly if all flags are set |
| `TsqListener.ResetDataReady` | src/tsq.c:270-276 | clears every flag |
| `TsqListener.Listener.constructor` | src/tsq.c:297-306 | the listener starts with nothing valid, kept or logged |
| `TsqListener.Listener.TakeSlot` | src/tsq.c:414-455 | one slot of a round: the kept sample returns and the read is discarded, or a validated sample is taken, or nothing; a read at the start of a written frame leaves the slot valid with exactly that sample unless the slot is kept; misread data is taken exactly if the read used is misread |
| `TsqListener.Listener.DecideSlots` | src/tsq.c:458-500 | the switch on the difference of seconds: keep slot 0, keep slot 1, log, or drop |
| `TsqListener.Listener.CompareSlots` | src/tsq.c:457-505 | the comparison happens only with both samples valid, and clears them |
| `TsqListener.Listener.ServeRound` | src/tsq.c:391-506 | a pass of the main loop is a round of the state machine; misread data is taken exactly if a read used is misread, and only past 2^24 + 4 samples, after 253 full reads modulo 256 |
| `TsqListener.Listener.Listen` | src/tsq.c:391-506 | over any run of talkers and listener, any uids and any backlog: in the first 2^24 + 4 samples of each talker, and for ever with uids that are no multiples of 256, every line compares one written sample of each talker of the same second, and with increasing seconds none is logged twice |
| `TsqPairing.RunKeepsInv` | src/tsq.c:391-506 | every run keeps: lines numbered 0, 1, 2, ..., each the difference of one accepted sample per slot with equal seconds, no sample used twice, and a kept sample is an accepted one still unused |
| `TsqPairing.LogOfWrittenSamples` | src/tsq.c:474-505 | every line compares one written sample of each talker with equal seconds, and logged seconds strictly increase |
| `TsqSkew.ListenerFollows` | src/tsq.c:414-505 | for what two talkers wrote one second apart, of either sign, and every schedule of 255-byte and one-byte reads the sockets can offer, the listener after whole seconds is in the mode, and has logged the lines, that the order of the reads in each second determines |
| `TsqSkew.WithinRound` | src/tsq.c:414-505 | one round of a second, whatever it reads, from every point of the second |
| `TsqSkew.SkewPersistsIff` | src/tsq.c:424-503 | the skew persists, with half the lines logged, if and only if no kept sample gets back by its own last byte: that byte unread when the sample was kept, and the slot's next frame read in a later round than the other slot's |
| `TsqSkew.OtherFirstHeals` | src/tsq.c:432-455 | if the slot ahead is read after the other one in every second, every second but the first is logged |
| `TsqSkew.NeverLaterPersists` | src/tsq.c:432-455 | if it never is, every second one is logged and the skew never goes away |
| `TsqSkew.ReadTogether` | src/tsq.c:432-503 | both sockets read in the same round every second is a schedule, and logs half the seconds |
| `TsqSkew.ReadOneFirst` | src/tsq.c:432-503 | the slot behind read first every second is a schedule, and logs all seconds but one |
| `TsqSkew.OtherSkews` | src/tsq.c:457-500 | without a skew every second is logged, with one of two seconds or more none, on every schedule |
| `TsqSkew.LaterLeavesTail` | src/tsq.c:424-424 | a slot read after the other one has its last byte still to read when the two are compared |

## Left out

- The libbpf and kernel sides of the rings: libbpf's header is not part of this model; the ring arithmetic follows
  the lines patch 0002 removes, and memory barriers are taken to make each access one atomic step.
- Order of kernel deliveries: frames are used in fill order and completions come in order, except where
  `ReuseNeedsFillOrder` and `XskAnyOrder` drop the first.
- The kernel takes a tx descriptor only when its completion is sure to find room, and publishes its fill consumer
  index before the rx descriptor.
- The headroom offset of a packet inside its frame outside `XskShared`, and the eight timestamp bytes in front of it,
  which appear only as a field of the received frame.
- The send and receive sides share one memory area, which `XskShared` models; the theorems of the other modules assume
  that only their own side uses it.
- TSQ backlogs and overlapping seconds in the statements about skew: each frame is read out before the next on its
  socket arrives, and both samples of a second before either of the next.
- The plugin's completion peek has no test for `outstanding_tx` being zero; the model uses the guarded form, which
  agrees with it because a waiting completion implies an outstanding descriptor.
- Ring sizes of 65536 frames or more on the transmit side (`frames_per_ring` is a 16-bit field).
- Receive memory is a map from address to frame contents rather than one byte array; only the transmit side has
  the bytes.
- Socket, ioctl, poll and select set-up, BPF programs, signals, thread priority and affinity, real sleeping.
- JSON and command-line parsing; its range checks appear as preconditions or not at all.
- open62541 itself: a payload array arrives intact or not at all, and UADP encoding is not modelled.
- Two publishers in one process sharing the static counter; the model has one publisher or one return publisher.
- Signed overflow of `tx_sequence`, of TSQ's line and sample counters (the latter wraps as 32 bits here) and of the difference of two TSQ seconds, and the cast of
  a packet count above 2^63, which the configuration excludes.
- `atoi` on anything but plain digits; the greeting always starts with digits.
- TSQ frames are written whole and reads are 255 bytes or everything there is; a reader interrupted mid-frame by
  the network is not modelled.
- Padding of short frames and tag stripping by network hardware.
- Scheduling delays: wake and launch times are the ones asked for, not the ones achieved.
- Hardware timestamps, print formats, file flushing and closing beyond whether a file is open.
- `afpkt_send_thread` without launch times, shell scripts, configuration files and plots: nothing harder than the above.
- The copies of the patches without launch-time support, which contain the same code.
