# remote_8008: a verified model of the console byte path

remote_8008 is a network-attached terminal to an Intel 8008. A byte the 8008 emits
crosses a clocked console bridge, a register bank, a software Etherbone server, a small
UDP/IP stack and a lossy network before the host prints it. The product promises that a
byte is delivered exactly once, in order, or reported. This project models that path in
Dafny and proves the promise and the laws it rests on.

| file | models |
|---|---|
| `ByteFifo.dfy`, `Bridge.dfy`, `BridgeLaws.dfy` | the buffered FIFOs, stall, registers and sticky bits of the console bridge, one clock edge at a time |
| `Etherbone.dfy`, `EtherboneServer.dfy`, `EtherboneLaws.dfy` | the Etherbone dialect as a grammar with a meaning, and the in-place server loop that refines it |
| `Checksum.dfy`, `Frames.dfy`, `UdpStack.dfy`, `WireLaws.dfy` | one's-complement sums, frames as bytes, and the stack that writes and reads them |
| `EbServe.dfy` | the one-slot request stash and whole runs of the serving board |
| `Xid.dfy`, `DhcpMessage.dfy`, `DhcpExchange.dfy`, `DhcpLaws.dfy` | transaction ids, DHCP messages and the retried lease exchange |
| `HostLink.dfy`, `Console.dfy`, `ConsoleLoop.dfy` | the host's retried reads against an adversarial network, drain, send and check_errors over them, and whole console sessions |
| `EndToEnd.dfy` | one register access from the host's frame through the board to the frame the host accepts |
| `Bytes.dfy`, `Arith.dfy` | bytes, big-endian words, remainders |

Verify everything with `dafny verify dfyconfig.toml`.

## Main results

- `ConsoleLoop.Session.Loop` with `Console.EveryByteSince`: in every session, begun at any moment and whatever the network does to reads, what waited at its start ++ what the core emitted since = what was printed ++ what waits now, likewise for transmission, and no fault bit is set, provided at most `headroom` bytes arrive after the stall. Every iteration announced the faults that stood, drained until the FIFO was seen empty or 4096 bytes came, and dropped typed bytes only after 1001 looks that found the FIFO full. The session raises if and only if the ten requests of one read go unanswered, and is then short by the bytes of that one drain.
- `Console.Drain`: a drain hands its caller every byte it popped if and only if the network did not leave the ten requests of one read unanswered after it had delivered a reply.
- `Bridge.OverflowUnreachableIff`: the receive FIFO cannot overflow exactly when the in-flight bound does not exceed the headroom.
- `HostLink.World.Read`: retried reads are linearizable within the accepted attempt under loss, repetition, delay, reordering, echoes and noise; a request is repeated only after a timeout, and the read fails exactly after ten of them.
- `EtherboneServer.Serve`: the one-pass server equals decode-then-interpret on every byte string.
- `EbServe.ReplyProvenance`, `EbServe.Board.Drive`, `EbServe.Board.WireProvenance`: over every interleaving, replies answer received requests, to their sender, once, in order, and the wire carries ARP frames and the frames of those replies and nothing else.
- `UdpStack.SendReceive`, `Frames.FrameVerifies`: frames round-trip and re-sum to all ones.
- `Xid.DrawsRepeatExactly`: transaction ids have period exactly 2^32.
- `DhcpExchange.Client.Acquire`: a lease is reported only after one complete exchange under one transaction id, and every failed attempt failed for one of five stated reasons.
- `EndToEnd.ServeRead`: a read request in a frame, polled and served by the board, puts on the wire a frame the host takes as the answer to that request and to no other.
- `BridgeLaws.StallExact`, `BridgeLaws.StallIsReleased`: over every history the stall is up exactly between a high-water mark and the next low-water mark, and popping brings it down.
- `BridgeLaws.FaultMeansLoss`: while nothing is cleared a fault bit reads 1 if and only if a byte did not make it.
- `WireLaws.UdpFrameIsParsed` with `WireLaws.OnlyUdpFramesAreParsed`, `WireLaws.ArpIsHandled` with `WireLaws.OnlyArpIsHandled`: the stack acts on exactly the UDP and ARP frames, byte by byte, that any sender may write; `WireLaws.AskerLearns`: two nodes resolve an address.
- `DhcpLaws.ReplyIsRead`: what the client reads in any reply a server may write, padding and stray bytes included.

## Hypotheses

- The FIFO library is modelled by the equations stated in `soc/console_bridge.py:59-73` and `soc/console_bridge.py:112-141`.
- The number of bytes that can arrive after the stall is visible is a parameter of the environment (`Bridge.InFlightBounded`); `soc/console_bridge.py:22-28` puts it at 3.
- Register writes arrive exactly once and in order with later requests; a single host is attached; the socket times out after finitely many datagrams per attempt; the read counter stays below the addresses of the registers the host writes, so an echoed write cannot pass for a reply (`HostLink.World.Budget`: calls of a fixed size ask room for their own reads, `Console.Send` and `ConsoleLoop.Session.Loop` are followed, over any data and any number of iterations, until there is no room for one more byte or iteration); noise does not forge the live counter.
- A datagram is decoded on the host by the same grammar the firmware uses; the LiteX decoder itself is not part of this model.

## Where the code and its documentation differ

The model follows the code.

- `docs/VPLAN.md:230` (SWEB-11) says every frame below 100 bytes leaves with a zeroed trailer. For UDP payloads under 17 bytes the trailer up to offset 60 holds old slot bytes: `UdpStack.TrailerZeroIff`.
- `docs/VPLAN.md:223` (SWEB-4) says a request whose counts promise missing bytes makes no bus access. Everything before the cut still runs: `Etherbone.CutReadStillWrites`, with the exact condition in `Etherbone.SilentIff`.
- `soc/console_bridge.py:22-28` asks for headroom above the in-flight bound. Headroom equal to it is already enough: `Bridge.OverflowUnreachableIff`.
- `host/b8008net/console.py:92-120`: when a read inside `drain` times out, the bytes already popped are not returned. `Console.LosingRun` is a run that loses a byte this way; `Console.Drain` states that emitted = returned ++ FIFO holds if and only if the network was not `Lossy`, which means the socket handed over a reply during the call and then timed out on all ten requests of one read. What the socket delivers is recorded by the network's side of the model (`HostLink.World.Receive`), not by the reader. `ConsoleLoop.Session` keeps the lost bytes apart, and `ConsoleLoop.Session.Promise` shows that the printed stream is short by exactly them.
- `firmware/eb_serve.c:62-72` counts a reply as served even when the stack refuses it because the requester's MAC is all zero: `EbServe.ZeroMacRun` shows the run from start-up. A serve counts every answer and sends it if and only if the MAC is not all zero (`EbServe.CountedVersusSent`), and over a run the counter is ahead by exactly the refused replies (`EbServe.CounterIsAheadByRefused`).

## Model

| member | source | states |
|---|---|---|
| `ByteFifo.TickMovesBytes` | soc/console_bridge.py:59-73 | in every state one edge removes the head exactly when popped, appends exactly the byte accepted, and shows a head exactly when one was left |
| `ByteFifo.ReadyMeansRoom` | soc/console_bridge.py:112-141 | in a reachable state sink.ready means fewer than depth + 1 bytes are held |
| `ByteFifo.FifoIsQueueIffDeep` | soc/console_bridge.py:59-78 | inner memory plus output register behaves as a queue of capacity depth + 1 on every input history if and only if depth is at least 2 |
| `Bridge.ConsoleBridge.Edge` | soc/console_bridge.py:79-211 | one clock edge on the registers, statement by statement, has exactly the effect of the transition function |
| `Bridge.ConsoleBridge.Latch` | soc/console_bridge.py:202-211 | a sticky bit is set by its fault even against a clear, otherwise cleared by its own clear bit only, and no other bit moves |
| `Bridge.ErrWordRoundTrip` | soc/console_bridge.py:191-208 | reading console_err and writing that value to console_err_clear names exactly the faults that were set |
| `Bridge.RxWordIsAtomic` | soc/console_bridge.py:79-95 | on every reachable state console_rx is valid iff its level is non-zero, its level never exceeds the depth, its data is the head byte, and it is all zero when not valid |
| `Bridge.PopTakesHead` | soc/console_bridge.py:97-107 | a pop of a readable FIFO removes exactly the head that was exported and leaves everything behind it in order |
| `Bridge.BytesAreConserved` | soc/console_bridge.py:42-49 | accepted = popped ++ receive FIFO and queued = transmitted ++ transmit FIFO on every history; the transmit level stays within its depth and not-full implies the inner FIFO accepts |
| `Bridge.LevelIsBounded` | soc/console_bridge.py:163-176 | every reachable raw level is at most depth - headroom + 1 + in-flight bound |
| `Bridge.NoOverflow` | soc/console_bridge.py:163-189 | with the in-flight bound within the headroom no emitted byte is refused and rx_overflow is never set, over any history, resets included |
| `Bridge.OverflowUnreachableIff` | soc/console_bridge.py:163-189 | overflow is unreachable under every environment bounded by k if and only if k is at most the headroom |
| `Bridge.ShippedNeverOverflows` | soc/console_bridge.py:19-30 | thresholds 4032 and 3968, and three bytes in flight never overflow 4096 |
| `Bridge.StallCannotOscillate` | soc/console_bridge.py:163-176 | k stall assertions from empty need at least HWM + (k-1) * hysteresis bytes, for every interleaving |
| `Bridge.StickyExact` | soc/console_bridge.py:178-211 | over any history with resets and clears a bit reads 1 iff its fault occurred with no strictly later effective clear |
| `BridgeLaws.StallExact` | soc/console_bridge.py:168-176 | over any history, resets included, the stall is up iff some cycle held at least depth - headroom bytes (or it was up at the start) and no later cycle held at most depth - headroom - hysteresis |
| `BridgeLaws.StallStep` | soc/console_bridge.py:171-176 | one edge: at or below the low-water mark the stall is down, at or above the high-water mark it is up, in between it stays |
| `BridgeLaws.StallIsReleased` | soc/console_bridge.py:163-176 | from any reachable state, pops without new bytes lower the stall within as many cycles as there are bytes above the low-water mark, plus two |
| `BridgeLaws.FaultMeansLoss` | soc/console_bridge.py:101-189 | on every history without clears rx_overflow is set iff an emitted byte was not accepted, tx_write_when_full iff a written byte was not queued, rx_pop_when_empty iff a pop took no byte |
| `BridgeLaws.ResetRestarts` | soc/console_bridge.py:178-211 | after a reset FIFOs and stall go on as from power-on whatever came before, and the sticky bits survive it |
| `BridgeLaws.RxWordSays` | soc/console_bridge.py:55-95 | console_rx is the head byte, the valid bit and the number of bytes held clamped to the depth, or all zero |
| `BridgeLaws.TxWordSays` | soc/console_bridge.py:145-160 | console_tx is the number of bytes held, with bit 9 set iff that is the depth |
| `BridgeLaws.ErrWordSays` | soc/console_bridge.py:191-211 | bit 0 is the overflow, bit 1 the rejected write, bit 2 the pop of nothing |
| `Etherbone.DecodeEncode` | firmware/eb8008.c:84-129 | decoding an encoded record list gives the list back and ends exactly at the packet's end |
| `Etherbone.WritesLand` | firmware/eb8008.c:93-102 | write i goes to base + 4i modulo 2^32, in order, one access each |
| `Etherbone.ReadsAnswer` | firmware/eb8008.c:104-128 | read i is one access to address i and returns what the bus gave after the accesses before it |
| `Etherbone.InterpretAnswerable` | firmware/eb8008.c:104-131 | every answer fits a record and the answers never take more bytes than the request had left |
| `Etherbone.ReplyFitsRequest` | firmware/eb8008.c:71-131 | a reply never exceeds its request, a probe reply by at most 4 bytes |
| `Etherbone.ProbeAnswered` | firmware/eb8008.c:62-82 | a probe makes no bus access and earns 12 bytes: version 1, pr set, pf clear, four zero bytes |
| `Etherbone.ReplyReparses` | firmware/eb8008.c:110-127 | the reply parses under the request grammar as one write record per read section, with its return address and values in order |
| `Etherbone.InterpretIsPlay` | firmware/eb8008.c:88-129 | the meaning of a request is the meaning of its sections played in order |
| `Etherbone.CutSections` | firmware/eb8008.c:88-129 | cutting a request keeps exactly the sections all of whose bytes are left |
| `Etherbone.TruncationLaw` | firmware/eb8008.c:71-131 | cutting any request at any byte leaves a prefix of its bus trace and of its reply |
| `Etherbone.SilentIff` | firmware/eb8008.c:88-131 | a non-probe request has no effect and no reply if and only if no section of it is complete |
| `Etherbone.CutReadStillWrites` | firmware/eb8008.c:93-106 | a record cut in its read section still performs its writes |
| `EtherboneLaws.RecordLayout` | firmware/eb8008.c:84-127 | the bytes of a record: flags, byte enable, write count, read count, then base and words of each section at their offsets |
| `EtherboneLaws.NotARequest` | firmware/eb8008.c:71-82 | anything without the two magic bytes is ignored, and a set probe flag earns exactly the 12 bytes of the probe answer |
| `EtherboneLaws.PacketIsServed` | firmware/eb8008.c:71-132 | the records of any packet are executed in order and the answers leave as write records under the fixed header |
| `EtherboneLaws.RecordIsServed` | firmware/eb8008.c:88-129 | one record makes its writes at base, base + 4 and so on, then its reads, in order, and is answered, byte by byte, with the return address and what those reads returned |
| `EtherboneServer.PutBe32` | firmware/eb8008.c:57-60 | stores the big-endian word and changes nothing behind it |
| `EtherboneServer.PutHeader` | firmware/eb8008.c:62-69 | stores the reply header and changes nothing behind it |
| `EtherboneServer.BusWrites` | firmware/eb8008.c:96-101 | the write loop makes exactly the accesses of the section |
| `EtherboneServer.BusReads` | firmware/eb8008.c:122-127 | the read loop makes exactly the accesses of the section and stores their values in order |
| `EtherboneServer.AnswerSection` | firmware/eb8008.c:107-127 | one read section extends the buffer from the reply so far to the reply with one more answer |
| `EtherboneServer.ServeRecord` | firmware/eb8008.c:88-129 | one turn of the loop executes one whole record, or stops exactly where decoding stops |
| `EtherboneServer.Serve` | firmware/eb8008.c:71-132 | for every byte string, bus trace and reply equal decode-then-interpret, and no byte past the reply is written |
| `Checksum.IpChecksum` | firmware/udp.c:397-418 | the summing and folding loops terminate with the one's-complement value of the 32 bit total, complemented and never 0 when complete |
| `Checksum.SumFits` | firmware/udp.c:405-406 | a sum of n words is at most 0xffff * n, so no frame leaves 32 bits |
| `Checksum.DeferredCarries` | firmware/udp.c:405-410 | folding once at the end equals end-around carry after every word |
| `Checksum.OnesChain` | firmware/udp.c:476-482 | folding a partial sum early changes no final result |
| `Checksum.ComplementVerifies` | firmware/udp.c:412-416 | data plus its transmitted complement sums to all ones and the complement is never 0 |
| `Frames.FrameVerifies` | firmware/udp.c:457-483 | every frame re-sums to 0xffff over its IP header, and over its own address bytes, protocol byte and length bytes as pseudo header with UDP header and padded payload; it carries no zero checksum |
| `Frames.FrameFields` | firmware/udp.c:449-483 | MACs, ethertype, lengths, addresses, ports and payload of a written frame read back from their offsets |
| `Frames.FrameRoundTrip` | firmware/udp.c:657-703 | a written frame, padded in any way, parses to its payload, source and ports on the node with its destination address, on every node if that is 255.255.255.255, on every node of its /24 if the last octet is 255, and on no other |
| `Frames.ParseIgnoresOldBytes` | firmware/udp.c:721-784 | bytes left in the slot by older frames never influence delivery |
| `UdpStack.TrailerZeroIff` | firmware/udp.c:160-171 | a UDP frame's trailer is zero for all slot contents if and only if the payload has at least 17 bytes |
| `UdpStack.OnWireCarriesFrame` | firmware/udp.c:449-485 | what the MAC is told to send starts with the frame and is 100 to 2048 bytes long |
| `UdpStack.SendReceive` | firmware/udp.c:433-488 | what one node sends is handed to the right callback of a node it addresses with exactly its payload, source and ports, and to no other |
| `WireLaws.UdpFrameIsParsed` | firmware/udp.c:657-784 | a UDP frame of any sender, byte by byte, parses to what it says exactly on the nodes it is addressed to |
| `WireLaws.OnlyUdpFramesAreParsed` | firmware/udp.c:657-784 | whatever is parsed is such a frame, whole within the bytes received |
| `WireLaws.UdpFrameIsRecorded` | firmware/udp.c:677 | its sender's MAC is recorded on those nodes, nothing else changes and nothing is sent |
| `WireLaws.UdpFrameIsDispatched` | firmware/udp.c:679-702 | it reaches the unicast callback for the own address if there is one, else the broadcast callback |
| `WireLaws.OwnFrameBytes` | firmware/udp.c:449-483 | the stack's own frames are such frames, unfragmented, TTL 64, with both checksums filled in |
| `WireLaws.KnownHeader` | firmware/udp.c:457-468 | a header with a published checksum comes out byte for byte |
| `WireLaws.OwnArpBytes` | firmware/udp.c:262-281 | the bytes of an ARP packet: own MAC and address as sender, the other side as target |
| `WireLaws.ArpFields` | firmware/udp.c:241-286 | the fields of any ARP packet read back at their offsets in any slot that holds it |
| `WireLaws.ArpIsHandled` | firmware/udp.c:241-286 | a request for the node's address is answered with the node as sender and the asker as target, a reply from the cached address updates its MAC, anything else is ignored |
| `WireLaws.OnlyArpIsHandled` | firmware/udp.c:241-286 | nothing but an ARP packet is answered or changes the cached MAC |
| `WireLaws.AskerLearns` | firmware/udp.c:347-395 | two nodes: the owner answers a request for its address with one frame to the asker, and with it the asker knows the owner's MAC |
| `UdpStack.PutIpHeader` | firmware/udp.c:457-468 | the header is written in place with the checksum over itself |
| `UdpStack.PutUdpHeader` | firmware/udp.c:470-483 | the header is written around the payload with the chained checksum; only the odd pad byte behind the payload changes |
| `UdpStack.ChainedSum` | firmware/udp.c:475-483 | the pseudo-header sum chained into the UDP sum is the complement of one sum over the concatenation |
| `UdpStack.PutHeaders` | firmware/udp.c:449-483 | the slot becomes the frame for its payload, the odd pad byte, and the bytes it held before |
| `UdpStack.Stack.SendPacket` | firmware/udp.c:160-203 | the frame goes out zero-padded to 100 bytes and the slot alternates |
| `UdpStack.Stack.Send` | firmware/udp.c:433-488 | refuses exactly without a peer MAC or above 2006 bytes, else transmits the frame for the current peer |
| `UdpStack.Stack.ProcessArp` | firmware/udp.c:241-286 | a reply from the cached address updates its MAC, a request for our address is answered to its sender, anything else changes nothing |
| `UdpStack.Stack.ProcessUdp` | firmware/udp.c:657-703 | delivery and the recorded source MAC equal the declarative dispatch |
| `UdpStack.Stack.ProcessFrame` | firmware/udp.c:721-784 | state, frames sent and callback made by one received frame equal the declarative ones |
| `EbServe.Board.OnDatagram` | firmware/eb_serve.c:33-54 | a request is stashed exactly when the slot is free and it passes magic and size |
| `EbServe.Board.Service` | firmware/udp.c:810-819 | a poll with the Etherbone callback is one step of the run model, and puts on the wire exactly the ARP answers the frame calls for |
| `EbServe.Board.ServePending` | firmware/eb_serve.c:56-75 | serving is one step of the run model; the served counter rises exactly when there is a reply, and a frame carrying it leaves exactly when, besides, the requester's MAC is not all zero; the reply fits both buffers |
| `EbServe.Board.Answer` | firmware/eb_serve.c:63-71 | the reply leaves for the captured MAC, address and mirrored ports unless the MAC is all zero, and nothing else leaves |
| `EbServe.Board.Drive` | firmware/main.c:322-325 | any sequence of polls, serves and stack calls is a run of the model, and everything put on the wire is an ARP frame or carries one sent reply, in order |
| `EbServe.Board.WireProvenance` | firmware/eb_serve.c:33-75 | over any run every frame on the wire is an ARP frame or carries the answer to one received request, addressed to its sender, in arrival order |
| `EbServe.Board.ArpResolve` | firmware/udp.c:347-395 | returns 1 iff the peer MAC is known afterwards; unless it was cached, its events are exactly the polls of the arrivals, what it sends is exactly one broadcast request for the address before poll 0, 100000, 200000 and so on and the answers the polls call for, it stops at the first poll that brings an ARP reply from the address and takes the MAC from it, and it gives up only after 8 * 100000 polls none of which brought one |
| `EbServe.Board.AwaitMac` | firmware/udp.c:386-391 | up to 100000 polls, ended by the first that brings an ARP reply from the address; what leaves is exactly what the polls answer |
| `EbServe.PollLearns` | firmware/udp.c:241-286 | while the MAC is unknown a poll learns it exactly from an ARP reply of the awaited address with a MAC that is not all zero |
| `EbServe.Board.ArpRefresh` | firmware/udp.c:311-315 | the same after forgetting the cached address, with the same events, the same frames and the same bound on failure |
| `EbServe.SendTo` | firmware/eb_serve.c:67-71 | the datagram goes to the given MAC and address, refused exactly for the all-zero MAC |
| `EbServe.ReplyFits` | firmware/eb_serve.c:27-29 | the reply to any stashed request fits eb_resp and the UDP maximum |
| `EbServe.ReplyProvenance` | firmware/eb_serve.c:33-75 | over every interleaving each reply is the server's answer to one received request, sent to its MAC, address and mirrored ports, at most once and in arrival order |
| `EbServe.CountedVersusSent` | firmware/eb_serve.c:62-73 | a serve raises the counter by one exactly when there is an answer, and sends that answer exactly when, besides, the requester's MAC is not all zero |
| `EbServe.ZeroMacIsCountedNotSent` | firmware/eb_serve.c:62-73 | a probe from the all-zero MAC is counted as served and nothing is sent |
| `EbServe.ZeroMacRun` | firmware/eb_serve.c:33-75 | from start-up, a probe frame whose source MAC is all zero is polled and served: the counter reads 1 and nothing was sent |
| `EbServe.CounterIsAheadByRefused` | firmware/eb_serve.c:62-73 | over any run the served counter equals the replies sent plus the replies refused for the all-zero MAC |
| `EbServe.ServeLoopDropsNothing` | firmware/main.c:322-325 | when every poll is followed by a serve, every request is executed once, in order, the replies sent are exactly those of each request in order, and none is dropped as busy |
| `Xid.Generator.NextXid` | firmware/main.c:53-61 | each call advances the generator and returns its new state |
| `Xid.DrawClosedForm` | firmware/main.c:53-61 | draw n is x + (1 + a + ... + a^(n-1)) * ((a-1)x + c) modulo 2^32 |
| `Xid.GeoFactors` | firmware/main.c:59 | 2^k divides 1 + a + ... + a^(n-1) if and only if it divides n |
| `Xid.DrawsRepeatExactly` | firmware/main.c:53-61 | two draws agree if and only if a multiple of 2^32 calls lies between them |
| `DhcpMessage.ScanEncoded` | firmware/dhcp8008.c:177-208 | scanning written options returns them followed by whatever stands behind |
| `DhcpMessage.LastOfIsLast` | firmware/dhcp8008.c:190-205 | a value is captured if and only if it is that of the last option with the code and an adequate length, and none exactly when there is no such option |
| `DhcpMessage.MessageReads` | firmware/dhcp8008.c:74-132 | a built message is 300 bytes, scans to exactly its options, reads back its header, and is never taken for a reply |
| `DhcpMessage.RequestReads` | firmware/dhcp8008.c:141-155 | the REQUEST names the address, the server and the message type it was built for |
| `DhcpMessage.ReplyBelongsToOneAttempt` | firmware/dhcp8008.c:167-168 | a reply accepted under two drawn ids implies a multiple of 2^32 draws between them |
| `DhcpLaws.DiscoverBytes` | firmware/dhcp8008.c:74-139 | the DISCOVER, all 300 bytes |
| `DhcpLaws.RequestBytes` | firmware/dhcp8008.c:141-155 | the REQUEST, all 300 bytes, with the offered address as option 50 and the server as option 54 |
| `DhcpLaws.ScanItems` | firmware/dhcp8008.c:177-208 | the scan skips padding anywhere and returns every option in order |
| `DhcpLaws.ScanEnds` | firmware/dhcp8008.c:177-189 | it ends at END, at the end of the message, and before an option that is cut short |
| `DhcpLaws.ReplyIsRead` | firmware/dhcp8008.c:159-221 | any reply, with any other fields, options, padding and tail: a lease of yiaddr with the last options 54 and 51 iff it is a BOOTREPLY with the id, the cookie and the awaited type as last option 53, else none |
| `DhcpMessage.BuildHeader` | firmware/dhcp8008.c:74-92 | clears and fills the fixed part in place, touching nothing else |
| `DhcpMessage.PutOption` | firmware/dhcp8008.c:94-101 | appends exactly one encoded option |
| `DhcpMessage.BuildCommonOptions` | firmware/dhcp8008.c:105-124 | appends message type, request list, hostname and client id |
| `DhcpMessage.FinishOptions` | firmware/dhcp8008.c:126-132 | appends END and PADs up to 300 bytes |
| `DhcpMessage.BuildDiscover` | firmware/dhcp8008.c:134-139 | the transmit payload becomes the DISCOVER message |
| `DhcpMessage.BuildRequest` | firmware/dhcp8008.c:141-155 | the transmit payload becomes the REQUEST message |
| `DhcpMessage.ScanLoop` | firmware/dhcp8008.c:172-208 | the loop captures the last adequate values of the declarative option list |
| `DhcpMessage.ParseReply` | firmware/dhcp8008.c:159-221 | for every buffer and length the result equals the declarative reading of the first len bytes |
| `DhcpExchange.Client.OnDatagram` | firmware/main.c:67-78 | only port 67 to 68 is kept, cut to the message buffer |
| `DhcpExchange.Client.WaitForReply` | firmware/main.c:98-107 | returns the first message the arrived frames bring within 200000 polls, and 0 exactly when none of them brought one |
| `DhcpExchange.Client.Attempt` | firmware/main.c:116-162 | one attempt sends at most two messages, each of them called for by what arrived, and fails if and only if a send found no peer MAC, 200000 polls brought nothing, a message was not the awaited reply, or another address was granted |
| `DhcpExchange.Client.Acquire` | firmware/main.c:112-166 | the attempts follow one another under successive draws, each runs its course and all but the successful one stopped for a stated reason; it succeeds only if, within this call and in one attempt, DISCOVER, OFFER, REQUEST for that offer, and ACK of the same address happened in this order; the lease is non-zero; it fails only after five attempts; at most 10 messages are sent |
| `DhcpLaws.ReplyIsHeard` | firmware/main.c:67-78 | while it waits the client hears exactly what is broadcast from port 67 to port 68, cut to 364 bytes |
| `DhcpLaws.ServerHears` | firmware/main.c:133-136 | what the client sends reaches a server from 0.0.0.0 port 68 to port 67 |
| `DhcpLaws.OfferedAndAcked` | firmware/main.c:133-162 | an attempt answered by an OFFER and an ACK sends exactly these messages and grants the offered address iff the ACK names it, for the given time or 3600 seconds |
| `HostLink.ReadEchoRejected` | host/b8008net/eb_server.py:101-109 | an echoed read request is never taken for a reply |
| `HostLink.WriteEchoRejected` | host/b8008net/eb_server.py:101-109 | an echoed write is not taken for a reply unless it writes the live counter's address |
| `EtherboneLaws.TakenExactly` | host/b8008net/eb_server.py:101-109 | any packet is taken for the reply to a counter iff no probe flag is set and its last record writes to that counter |
| `EtherboneLaws.CutIsRefused` | host/b8008net/eb_server.py:101-109 | a packet cut inside a record is never taken |
| `HostLink.ReplyAccepted` | firmware/eb8008.c:104-127 | after any bus accesses the board makes exactly the reads asked for, and its reply passes the counter test of its own request only and carries the values of those reads |
| `HostLink.WriteExecutes` | firmware/eb8008.c:93-102 | after any bus accesses a write datagram makes exactly its one access and earns no reply |
| `HostLink.World.Receive` | host/b8008net/eb_server.py:95-110 | only a reply the board really sent can pass the live counter test; it times out exactly when the network has no more datagrams for this attempt; the log of replies and timeouts records exactly what was handed over |
| `HostLink.World.Await` | host/b8008net/eb_server.py:94-110 | everything but the reply to the live attempt is skipped; the first reply handed over is taken, with the values the registers held after the attempt was sent; otherwise the wait ended in a timeout |
| `HostLink.World.Access` | firmware/eb8008.c:93-102 | the one bus access of a write datagram is the input of exactly one cycle |
| `HostLink.World.Read` | host/b8008net/eb_server.py:78-115 | a returned value is what the register held at a moment between sending the accepted attempt, which is the last one, and receiving its reply, whatever else arrives; the first reply handed over is taken, every attempt before it timed out, and it fails if and only if all ten timed out without a reply |
| `HostLink.World.Write` | host/b8008net/console.py:21-29 | the datagram is executed once, as the server's meaning prescribes: one cycle sees the write, after everything before it |
| `EndToEnd.RequestArrives` | firmware/udp.c:657-703 | a datagram in a frame addressed to the board reaches the server exactly as it was sent |
| `EndToEnd.FrameIsStashed` | firmware/eb_serve.c:33-54 | any sender's datagram is stashed iff the stash is free, the node listens to its address with this callback, it has at most 1500 bytes and, if it has two bytes, the magic |
| `EndToEnd.ReadIsAnswered` | firmware/eb_serve.c:33-75 | a read request that finds the stash free makes its bus reads once and is answered once, back to its sender, with a payload the host takes under its id and no other |
| `EndToEnd.BroadcastReadIsAnswered` | host/b8008net/eb_server.py:22-29 | so is a request sent to the /24 broadcast address of the board |
| `EndToEnd.WriteIsExecuted` | firmware/eb_serve.c:33-75 | a write request that finds the stash free makes its one access and earns no answer |
| `EndToEnd.ServeRead` | firmware/main.c:322-325 | on the board itself: after one poll and one serve the last frame on the wire, received in any slot, parses to the datagram the host takes, with the values its reads returned |
| `Console.Drain` | host/b8008net/console.py:92-120 | the bytes collected are exactly the bytes popped, in order; no empty FIFO is popped; a short return means the FIFO was seen empty; emitted = popped before ++ returned ++ FIFO if and only if the socket did not time out on ten requests of one read after handing over a reply |
| `Console.LookByte` | host/b8008net/console.py:114-118 | between append and pop the streams are off by exactly the head byte: emitted = popped ++ that byte ++ the rest of the FIFO |
| `Console.FetchByte` | host/b8008net/console.py:114-119 | the byte appended is the byte popped, once; it times out if and only if the socket timed out on all ten requests |
| `Console.LosingRun` | host/b8008net/console.py:114-120 | a run of the same steps with one byte emitted and popped, the FIFO empty, and nothing returned |
| `Console.NothingVanishes` | soc/console_bridge.py:163-189 | within the headroom emitted = popped ++ receive FIFO on every history without reset |
| `Console.SendByte` | host/b8008net/console.py:142-150 | the byte is queued exactly when accepted, a full FIFO is never written, and it gives up as full if and only if 1001 looks found the FIFO full, each the answer to its own request for console_tx sent after the look before it |
| `Console.Send` | host/b8008net/console.py:123-153 | for data of any length: exactly the reported prefix is queued, in order; a full FIFO is never written; a short count means 1001 such looks in a row, unless the read counter ran out of room; on non-empty data it raises if and only if the socket timed out on the ten requests of its last read |
| `Console.CheckErrors` | host/b8008net/console.py:156-166 | the returned bits are those of one moment of the call after its request was sent, include every fault that stood when it was called, and exactly those are cleared; it raises if and only if its ten requests went unanswered |
| `Console.FaultsAreReported` | host/b8008net/console.py:156-166 | every fault still reads 1 or was returned by a later clearing call |
| `Console.StandingIsReported` | host/b8008net/console.py:156-166 | every fault that stands at some moment, whenever it occurred, still reads 1 or was returned by a later clearing call |
| `ConsoleLoop.Session.FaultsAreAnnounced` | host/b8008net/console.py:192-194 | in every session each fault still reads 1 or its kind was announced by a call that cleared it after it occurred |
| `ConsoleLoop.Session.StandingIsAnnounced` | host/b8008net/console.py:192-194 | in every session a fault that stood at some moment of it, also one from before, still reads 1 or was announced after that moment |
| `ConsoleLoop.FindExit` | host/b8008net/console.py:207 | finds the first Ctrl-], so that what is forwarded is everything before it |
| `Console.EveryByteOnce` | soc/console_bridge.py:163-189 | on every history of a clean host emitted = popped ++ receive FIFO, queued = transmitted ++ transmit FIFO, and no fault bit is set |
| `Console.EveryByteSince` | soc/console_bridge.py:163-189 | relative to any earlier moment since which the host was clean: waiting then ++ emitted since = popped since ++ waiting now, likewise for transmission, and no fault bit was set since |
| `ConsoleLoop.Session.Check` | host/b8008net/console.py:192-194 | reads console_err once and announces exactly the word read, which holds every fault that stood when it was called; every clear goes with its announcement; it raises if and only if its ten requests went unanswered |
| `ConsoleLoop.Session.Output` | host/b8008net/console.py:196-201 | everything popped is printed, and the FIFO was seen empty unless 4096 bytes came; it raises if and only if ten requests of one read went unanswered, and bytes are lost if and only if, besides, a reply had been handed over before |
| `ConsoleLoop.Session.Forward` | host/b8008net/console.py:217-229 | data is an accepted prefix plus an announced number of dropped bytes, dropped only after 1001 looks that found the FIFO full; it raises on the same condition as send, and then what was queued is a prefix of the data |
| `ConsoleLoop.Session.Listen` | host/b8008net/console.py:192-201 | check, then drain: the announcement and the printed bytes of one iteration, or a read whose ten requests went unanswered |
| `ConsoleLoop.Session.Submit` | host/b8008net/console.py:203-214 | exactly the input before Ctrl-] is forwarded; it asks to leave exactly on EOF or Ctrl-] |
| `ConsoleLoop.Session.Wait` | host/b8008net/console.py:274 | time that passes in select changes no stream and no earlier iteration |
| `ConsoleLoop.Session.Pump` | host/b8008net/console.py:182-214 | one iteration raises if and only if ten requests of one read went unanswered; otherwise it announces every standing fault, drains until the FIFO was seen empty or 4096 bytes came, forwards exactly the input before Ctrl-] as an accepted prefix and an announced rest, dropped only on a full FIFO, and leaves exactly on EOF or Ctrl-]; both streams are conserved |
| `ConsoleLoop.Session.Promise` | host/b8008net/console.py:182-214 | in every session, begun at any moment and also if it raised: waiting at the start ++ emitted since = printed ++ lost ++ waiting now, and the lost part can be left out if and only if it is empty; likewise for transmission; no fault bit was set |
| `ConsoleLoop.Session.Loop` | host/b8008net/console.py:273-276 | over any sequence of iterations, however stdin cuts the input, the bytes forwarded are those up to the first Ctrl-] or end of file, in order; it ends at the first iteration that sees one, or raises if and only if ten requests of one read went unanswered, and is followed until the polls or the room of the read counter are used up; every completed iteration checked, drained and forwarded as above; both streams are conserved |
| `ConsoleLoop.TypedIsAccounted` | host/b8008net/console.py:217-229 | over all iterations typed = accepted + announced drops by count, and no announcement means exactly that every typed byte was accepted in order |
| `ConsoleLoop.TypedAfter` | host/b8008net/console.py:207-212 | the cut at Ctrl-] commutes with joining chunks of input that hold none |

## Left out

- Sockets, select, termios, KeyboardInterrupt, locking and discovery: I/O plumbing around the loop; `ConsoleLoop.Session.Loop` takes what select and stdin offered as its argument.
- Wall-clock pacing (TX_GAP_S): outside the byte guarantee; the wait for transmit room is counted in polls of TX_FULL_POLL_S instead of the floating-point sum.
- A receive loop fed noise forever never returns; the model lets only finitely many datagrams arrive per attempt, so `HostLink.World.Read` says nothing about it.
- Writes lost, repeated or reordered by the network, and two hosts at once: the code gives no guarantee there.
- ICMP: ping frames are ignored by the model; the code sums whole words only for odd payloads.
- `CommUDPBroadcast.probe`: a retry loop with no state of its own.
- Waiting for the transmit SRAM to become ready, the software preamble and CRC variant, PHY and MDIO diagnostics, debug counters and the loopback self-test.
- The serial PHYs, clock-domain crossing and reset wiring (`soc/versa_soc.py`, `soc/b8008_integration.py`, `src/b8008_net_core.vhdl`).
- The callback is run by the caller of `UdpStack.Stack.ProcessFrame`, not from inside it; no callback touches the stack, so the order is not observable.
- Gratuitous ARP announcements and the renewal timing of the main loop: no property beyond sending a frame.
