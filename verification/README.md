# A verified model of rsteria2

rsteria2 is a Hysteria2 client. This project models, in Dafny, the parts of it that hold
state or parse incrementally, and proves what they promise for every input, every run and
every interleaving.

`dafny verify dfyconfig.toml` checks the whole project.

| file | part of the program |
|---|---|
| `Bytes.dfy`, `Varint.dfy` | machine integers; QUIC varints (section 16 of RFC 9000) |
| `UdpMessage.dfy` | the UDP relay message and its datagram format |
| `Fragmentation.dfy`, `Defragger.dfy`, `EndToEnd.dfy` | splitting, reassembly, and both ends over the wire |
| `Sessions.dfy`, `UdpSession.dfy` | session routing as interleaved steps; the objects behind it, `send` and `recv` |
| `Delivery.dfy` | a fragmented message from the wire through routing and queue to the caller |
| `TcpResponse.dfy`, `DuplexStream.dfy` | the resumable header parser and the lazy stream |
| `Brutal.dfy`, `Switchable.dfy` | the congestion controller, and the switch between two controllers |
| `Salamander.dfy`, `ObfsHopSocket.dfy` | packet obfuscation and the datagram socket |
| `Ports.dfy` | the port-union parser |
| `Reconnect.dfy` | the reconnecting client as a concurrent step system |

## How it is modelled

- Objects the program updates in place are classes, and each method is proved to have the
  effect of a specification function (`Shows` relates the session manager and the reconnecting
  client to their step systems); lemmas over those functions, and over runs, carry the results.
- The main result about reassembly compares the slot table with `Expected`, a description of
  the right answer over the whole history of fed messages that mentions no table, counter or reset.
- Concurrency (sessions, reconnection) is a step function over one state; a run is any finite
  sequence of steps, so every interleaving is covered. A step that is not enabled changes nothing.
- The network is a script of poll results chosen freely: chunk sizes, pending polls, errors and
  batch boundaries are all universally quantified. A QUIC stream never delivers an empty chunk,
  its end is permanent, and a read with no room returns at once.
- Random draws (salt, packet id, hop index, padding) are parameters. BLAKE2b is an arbitrary
  function from byte strings to 32-byte keys. The second congestion controller is an arbitrary
  state with an arbitrary step function.
- `u8`, `u16` and `u32` counters wrap as in a release build. In a debug build two additions
  panic instead: the fragment id, exactly on a message of more than 255 fragments
  (`FragUdpMessage`), and the reassembly counter, exactly after the histories `OverflowsIff`
  describes: late duplicates of a packet of 128 or more fragments, and every such count can get
  there (`OverflowIsReachable`).
- The Brutal controller uses exact reals for `f64` and unbounded counters for `u64`; the cast of
  the window back to `u64` truncates and saturates as in Rust.
- Opening a session (taking an id and registering the channel) is one step: between the two,
  a message for the new id is dropped as for an unknown one.

## Where the code differs from what is written about it

- A message that needs more than 255 fragments is never delivered, although `send` reports
  success: the fragment count and ids are truncated to one byte. `DeliveryIff` gives the exact
  condition, `OversizedIsLost` an instance. What comes out instead is one message mixed from
  chunks of the payload (`TruncatedOutput`) or, if the count truncates to 0 or 1, every arriving
  fragment as a message of its own (`TruncatedPassesThrough`).
- A message that fits one datagram is delivered once per arriving copy; only fragmented
  messages are delivered at most once (`UnfragmentedPassesThrough`, `DeliveredOnce`).
- Packet ids are random, so a message can draw the id of a packet just completed. With the same
  number of fragments it is then swallowed entirely (`RedrawnIdIsSwallowed`).
- `send` also succeeds without sending anything when the limit leaves no room behind the header
  (`NothingFitsIff`, `SendOnSteadyPath`).
- The comment at src/congestion.rs:120 says the window never shrinks on loss. Within one second
  that is so (`LossKeepsWindow`). Across seconds it is not: old losses leave the five-second
  window and the estimate recovers (`LossCanShrinkWindow`). `LossShrinksWindowIff` is the exact
  condition for the window at a given rate, `LossRaisesEstimateIff` the one for the estimate; both
  compare integers known before the loss.
- The comment at src/udp.rs:92 and the one at src/udp.rs:154 say that `recv` fails once the
  connection is closed. The receive loop holds no sender, so it does not
  (`ClosedConnectionWaits`): `recv` fails exactly when the queue is drained and either the manager
  is gone or the session's route was taken by a later user of its id (`RecvFailsIff`).
- After 2^32 sessions an id is handed out again. If the first holder is still live it loses its
  route: messages go to the newer session, dropping the older one cuts that off too
  (`WrappedIdCollides`), and the displaced session's `recv` fails on a live connection
  (`DisplacedSessionFails`). Everything else about a session holds with or without reuse
  (`SessionsDoNotInterfere`, `EverySessionHolds`). The live ids stay distinct throughout a run exactly if no opening
  meets a live session whose age is a multiple of 2^32 openings (`NoReuseIff`).
- `invalidate` is not tied to the connection that failed, so one call can throw away another
  call's fresh connection (`FreshClientCanBeDiscarded`); `InvalidateDiscardsIff` says exactly after
  which histories, and that it is then a newer connection, established by another call.
- Received payloads that do not fit the caller's buffer are dropped without notice; `KeptIff`
  says exactly when.

## Model

| member | source | states |
|---|---|---|
| `Varint.Put` | src/protocol.rs:46-67 | appends exactly the canonical encoding of any u64 |
| `Varint.PutSlice` | src/protocol.rs:244-269 | writes the same bytes in place, touches nothing else, returns their number |
| `Varint.Get` | src/protocol.rs:71-82 | the decoding loop computes the big-endian value under the length prefix, or None on a short buffer |
| `Varint.DecodeEncode` | src/protocol.rs:46-82 | decoding any encoded u64, whatever follows, gives the value modulo 2^62 and the exact length |
| `Varint.RoundTripIff` | src/protocol.rs:46-82 | the round trip is exact if and only if the value is below 2^62 |
| `Varint.StrictPrefixUndecided` | src/protocol.rs:71-76 | every strict prefix of an encoding decodes to None |
| `Varint.DecodePrefix` | src/protocol.rs:71-82 | a prefix of any buffer decodes alike once it holds the varint, and to None before |
| `Varint.DecodeBounds` | src/protocol.rs:71-82 | decoded values are below 2^62 and no encoding is shorter than `varint_len` |
| `Varint.MinimalIsCanonical` | src/protocol.rs:231-269 | an encoding of minimal length is the one the encoder writes |
| `UdpMessages.Serialize` | src/protocol.rs:179-195 | None with the buffer untouched if too small, else exactly the message's bytes and `size()`, the rest of the buffer untouched |
| `UdpMessages.ParseEncode` | src/protocol.rs:198-227 | a message survives its own encoding if and only if its address is 1 to 2048 bytes of UTF-8 and its payload is not empty |
| `UdpMessages.Layout` | src/protocol.rs:180-196 | the datagram byte by byte: session id, packet id, fragment id and count most significant byte first, then length, address and payload |
| `UdpMessages.ValidUtf8Iff` | src/protocol.rs:217 | the accepted addresses are exactly the encodings of sequences of Unicode scalar values |
| `UdpMessages.ParseNormalises` | src/protocol.rs:169-227 | for every accepted datagram: re-encoding is no longer, parses to the same message, and equals the datagram exactly when its varint was minimal |
| `Fragmentation.FragUdpMessage` | src/protocol.rs:274-300 | the loop yields the message itself, nothing, or the payload cut into limit-sized pieces with truncated ids and count; incrementing the id overflows if and only if there are more than 255 pieces |
| `Fragmentation.ChunkCount` | src/protocol.rs:282-298 | the number of pieces is the rounded-up quotient, with both bounds |
| `Fragmentation.JoinChunks` | src/protocol.rs:286-298 | the pieces concatenate to the payload |
| `Fragmentation.FragmentsFit` | src/protocol.rs:271-298 | every fragment fits the limit, is not empty and keeps session, packet id and address |
| `Fragmentation.FewestFragments` | src/protocol.rs:278-297 | as few fragments as the room behind the header allows, all but the last filling it |
| `Fragmentation.NothingFitsIff` | src/protocol.rs:275-281 | no fragment is produced if and only if the message is too large and the limit does not exceed the header |
| `Defragmentation.Defragger.Feed` | src/protocol.rs:315-359 | the in-place update of the table and the result are those of the specification step, assembly loop included, and so is whether the counter overflows |
| `Defragmentation.RunInvariant` | src/protocol.rs:322-355 | over every run from any table not tracking the packet: before completion the slots hold the first arrivals and the counter counts them; after it the slots hold the first arrivals among the late duplicates, and the wrapping counter is the fragment count plus their number |
| `Defragmentation.OverflowsIff` | src/protocol.rs:331-335 | for every history, incrementing the counter overflows if and only if the packet is complete, this id has not come again since, and the count plus the distinct ids that have is 255; so only from 128 fragments on |
| `Defragmentation.OverflowIsReachable` | src/protocol.rs:331-335 | every count from 128 on overflows on all fragments followed by all again |
| `Defragmentation.FeedRefinesHistory` | src/protocol.rs:302-359 | for every run and every next message the result is exactly what the history demands: pass-through, or on the last missing fragment the index-order concatenation of first arrivals, or nothing |
| `Defragmentation.DefaultRefinesHistory` | src/protocol.rs:302-359 | the same without any condition from the default state |
| `Defragmentation.CompletionIsFull` | src/protocol.rs:336-352 | at completion every slot is filled, `first?` cannot fail, and the tracked size is the output's length |
| `Defragmentation.AtMostOncePerEpoch` | src/protocol.rs:331-355 | two outputs of one packet are separated by a fragment of another packet, so late duplicates never re-deliver |
| `Defragmentation.NeverAgain` | src/protocol.rs:333-336 | up to 255 refills never bring the wrapping counter back to the fragment count |
| `EndToEnd.DeliveredOnce` | src/protocol.rs:274-359 | up to 255 fragments, any order, any duplicates: exactly one arrival yields an output, and it is the message |
| `EndToEnd.TruncatedNeverDelivers` | src/protocol.rs:285-298 | beyond 255 fragments no output of any arrival order is the message |
| `EndToEnd.TruncatedPassesThrough` | src/protocol.rs:282-318 | a count that truncates to 0 or 1: every arriving fragment is output as a message of its own |
| `EndToEnd.TruncatedOutput` | src/protocol.rs:274-359 | beyond 255 fragments, a count that truncates to r > 1: exactly one arrival yields an output, with the message's addressing and r chunks, the i-th numbered i modulo 256 |
| `EndToEnd.DeliveryIff` | src/protocol.rs:179-359 | over the wire, mixed with unparsable or unfragmented datagrams: delivered if and only if at most 255 fragments are needed, and then at most one output |
| `EndToEnd.OversizedIsLost` | src/protocol.rs:285-298 | a concrete 256-fragment message that no arrival order delivers |
| `EndToEnd.RedrawnIdIsSwallowed` | src/protocol.rs:322-357 | after any history in which a packet is complete, no fragment of a message with the same id and count yields an output |
| `EndToEnd.UnfragmentedPassesThrough` | src/protocol.rs:275-277 | an unfragmented message is output at every arrival and leaves the table alone |
| `Sessions.LocalRunHolds` | src/udp.rs:155-167 | a session's queue never exceeds 1024; taken and waiting messages are exactly the arrivals that found fewer than 1024 waiting, in order; it returns a lone defragger's outputs on the taken ones |
| `Sessions.OutputsAreDemanded` | src/udp.rs:155-167 | what it returns is what the history of taken messages demands, stated without a table |
| `Sessions.SessionsDoNotInterfere` | src/udp.rs:52-95 | over every interleaving, ids reused or not, a live session equals the lone session run on its own receives and the messages for its id that came while it held its route |
| `Sessions.EverySessionHolds` | src/udp.rs:52-176 | in every run: bounded queues, own ids only, and the returned datagrams as demanded; without reuse also distinct live ids |
| `Sessions.FewSessionsNoReuse` | src/udp.rs:52-55 | with at most 2^32 sessions ever opened no opening finds its id in use |
| `Sessions.NoReuseIff` | src/udp.rs:52-55 | live ids are distinct at every moment of a run if and only if no opening meets a live session whose age in openings is a multiple of 2^32 |
| `Sessions.WrappedIdCollides` | src/udp.rs:52-77 | after 2^32 further openings the ids collide: messages go to the newer session, and dropping the older one cuts it off |
| `Sessions.RecvFailsIff` | src/udp.rs:157-161 | in every run, `recv` fails if and only if the queue is drained and the manager is gone or a later user of the id has taken the session's route |
| `Sessions.NotDisplaced` | src/udp.rs:52-77 | without reuse no live session loses its route while the manager lives |
| `Sessions.ClosedConnectionWaits` | src/udp.rs:80-95 | any session of any run with an empty queue on a closed connection waits through whatever follows, until it or the manager is dropped or its route is taken; without reuse it always waits |
| `Sessions.FlagsIff` | src/udp.rs:80-95 | the manager lives until dropped, and while it lives datagrams are taken in until the connection closes |
| `Sessions.NextRecvIs` | src/udp.rs:155-167 | a turn of `recv` returns exactly the message it appends to the returned ones, and waits or fails exactly on an empty queue |
| `Sessions.DisplacedSessionFails` | src/udp.rs:52-55 | a concrete run in which `recv` fails with the manager and the connection alive |
| `UdpSessions.Channel.TrySend` | src/udp.rs:68-70 | appends unless 1024 messages are queued |
| `UdpSessions.SessionManager.NewSession` | src/udp.rs:52-63 | takes the next wrapping id, registers a fresh channel, and a channel displaced under that id loses its sender; the manager then shows the system state after `Open` |
| `UdpSessions.SessionManager.Dispatch` | src/udp.rs:65-73 | only the channel registered for the message's id changes; the manager then shows the system state after the dispatch |
| `UdpSessions.SessionManager.Remove` | src/udp.rs:75-77 | unregisters exactly that id; the channel loses its sender and keeps its queue; the manager then shows the system state after `Drop` |
| `UdpSessions.UdpSession.Recv` | src/udp.rs:155-167 | the loop takes messages up to the first completed one and returns its payload and address, or waits, or fails without a sender; the manager then shows the system state after as many `Recv` steps as messages were taken |
| `UdpSessions.PullIsTakes` | src/udp.rs:155-167 | one `recv` call is a number of atomic takes of which only the last returns anything |
| `UdpSessions.UdpSession.Send` | src/udp.rs:115-151 | sends and answers as `Transmit`, on a connection that may fail or change its limit at every moment: the whole message, an early error, or the fragments up to the first refused one; the peer reads every datagram as a message of this session for this address, and after success the payloads join to the data |
| `UdpSessions.SendOnSteadyPath` | src/udp.rs:125-150 | with a steady limit `send` succeeds if and only if no fault meets it; it has sent a prefix of the message's datagrams, all of them exactly if it succeeds, unless the limit leaves no room for a payload |
| `UdpSessions.SendIsRead` | src/udp.rs:116-149 | whatever `send` emits, whole or in part, parses to messages with this session's id and the given address |
| `UdpSessions.SendCarriesData` | src/udp.rs:116-149 | if it succeeds and sent anything, the payloads the peer reads join to the data |
| `UdpSessions.SendWhole` | src/udp.rs:126-129 | a datagram with room for header and data carries the message whole, with packet id 0 |
| `UdpSessions.SendWithoutLimit` | src/udp.rs:136-142 | without a limit at the moment it is asked for, fragments are cut for 1200 bytes |
| `UdpSessions.SendDelivers` | src/udp.rs:115-151 | what `send` emits for a fragmented message reaches the peer, as one message of this session with this address and data, if and only if at most 255 fragments are needed |
| `Delivery.ReturnedOnce` | src/udp.rs:155-167 | a defragger not tracking the packet returns a message of up to 255 fragments once, among the unfragmented messages in their order |
| `Delivery.MessageReachesSession` | src/udp.rs:65-167 | in any run, if a session's arrivals are a history, the datagrams of such a message in any order, and a remainder, and none found the queue full, enough receives return the message once between what the rest yields |
| `TcpResponse.DoneIff` | src/protocol.rs:108-146 | Done with a status and length is answered if and only if the buffer starts with a well-formed header of that length |
| `TcpResponse.DecidedIsStable` | src/protocol.rs:110-146 | Done and Invalid are answered identically on every extension |
| `TcpResponse.DonePrefix` | src/protocol.rs:110-146 | prefixes of a Done buffer answer NeedMore below `consumed` and the same Done from there on |
| `TcpResponse.LongIsDecided` | src/protocol.rs:118-145 | every buffer of 6161 bytes or more is decided |
| `TcpResponse.BoundIsExact` | src/protocol.rs:118-145 | some buffer of 6160 bytes is not |
| `TcpResponse.ParseEncodeResponse` | src/protocol.rs:108-146 | an encoded response followed by anything parses to its status and length, or Invalid if a field exceeds its guard |
| `DuplexStreams.DuplexStream.Establish` | src/stream.rs:50-93 | the header loop equals the specification poll and terminates by the bytes missing to 6161 |
| `DuplexStreams.DuplexStream.Read` | src/stream.rs:97-123 | the three-phase read equals the specification poll |
| `DuplexStreams.EstablishAnswers` | src/stream.rs:50-93 | what an establish poll answers, from the network events: the verdict on the bytes at hand if they decide the header; else pending if and only if the next event is a pending one or there is none, an I/O error if and only if that is next, early end if and only if the stream ends there |
| `DuplexStreams.ReadAnswersBefore` | src/stream.rs:97-102 | before the header is accepted a read answers likewise |
| `DuplexStreams.ReadAnswersBehind` | src/stream.rs:103-122 | behind it: the leftover first; then pending, I/O error, end or the front of the next chunk, each if and only if that event is next |
| `DuplexStreams.RunAccounts` | src/stream.rs:45-123 | over every run, whatever the chunking, pending polls, errors and buffer sizes: the bytes are header, delivered, undrained leftover, rest; scratch stays within 6672 bytes |
| `DuplexStreams.DeliveredIsPrefix` | src/stream.rs:97-123 | what is delivered is a prefix of the bytes behind an accepted header, and nothing without one |
| `DuplexStreams.ChunkingIsInvisible` | src/stream.rs:45-123 | two schedules of the same bytes, eager or lazy, never disagree on a delivered byte, and with enough non-empty reads deliver the same |
| `DuplexStreams.EverythingArrives` | src/stream.rs:97-123 | if the stream ends, any run with enough non-empty reads, whatever establish polls and empty reads lie between, delivers exactly the application bytes |
| `DuplexStreams.NoFalseEof` | src/stream.rs:103-122 | a successful empty read into a non-empty buffer means the stream ended and everything was delivered |
| `DuplexStreams.ErrorsAreDetermined` | src/stream.rs:53-82 | refusal, malformed header and early end are verdicts on the bytes, not on the schedule |
| `DuplexStreams.VerdictIsReached` | src/stream.rs:50-93 | if the stream ends, after enough operations of any kind an establish poll answers ready, refused, malformed or early end, as the bytes alone decide |
| `DuplexStreams.RejectionIsSticky` | src/stream.rs:53-71 | after a rejection every later operation fails alike, changes nothing and delivers nothing |
| `DuplexStreams.RejectionIsReached` | src/stream.rs:53-71 | every refusal or guard error leaves the stream in that rejected state |
| `DuplexStreams.EagerEqualsLazy` | src/stream.rs:45-123 | waiting for the header over any number of polls and then reading gives the same state and bytes as reading from the start, whatever follows |
| `Brutal.BrutalController.RecordSample` | src/congestion.rs:67-79 | the ring array and the estimate after a record are those of the specification |
| `Brutal.BrutalController.UpdateAckRate` | src/congestion.rs:81-97 | the loop sums exactly the slots not older than now-5 and derives the floored rate |
| `Brutal.BrutalController.OnAck` | src/congestion.rs:101-111 | sets the round-trip time and records one acknowledgement |
| `Brutal.BrutalController.OnCongestionEvent` | src/congestion.rs:113-123 | records the lost packets, at least one |
| `Brutal.BrutalController.OnMtuUpdate` | src/congestion.rs:125-127 | changes the packet size and nothing else |
| `Brutal.BrutalController.CurrentWindow` | src/congestion.rs:129-137 | the floor before the first round trip, else the rate over the estimate, truncated, saturated and floored |
| `Brutal.RingRefinesHistory` | src/congestion.rs:67-97 | for every run with non-decreasing times: sums and estimate are those of the full history over exactly the seconds now-4 to now |
| `Brutal.EstimateFromTimes` | src/congestion.rs:63-97 | the estimate from the event times in nanoseconds and the byte counts alone: 1 below 50 samples, else acknowledged over all, at least four fifths |
| `Brutal.CountsForFiveSeconds` | src/congestion.rs:63-89 | an event up to 4 s before the last one always counts, one 5 s before never does |
| `Brutal.WindowFromTimes` | src/congestion.rs:63-137 | the reachable window in whole bytes from the events alone, between the floor of two packets or 10240 bytes and 2^64-1 |
| `Brutal.ReachableAckRate` | src/congestion.rs:91-96 | the estimate lies in [0.8, 1] in every reachable state |
| `Brutal.WindowBounds` | src/congestion.rs:129-137 | every reachable window lies between one and 1.25 times the rate over a round trip, above the floor |
| `Brutal.LossKeepsWindow` | src/congestion.rs:113-137 | a loss in the second of the last record never shrinks the window, across the 50-sample threshold too |
| `Brutal.LossShrinksWindowIff` | src/congestion.rs:113-137 | a loss shrinks the window at a rate if and only if the window was above the floor and above the rate's worth at the retained counters' quotient, as a comparison of integers known before |
| `Brutal.LossKeepsWindowUnlessRecovered` | src/congestion.rs:113-137 | whatever the rate, unless the counters recover the window is no smaller |
| `Brutal.LossRaisesEstimateIff` | src/congestion.rs:67-97 | a loss raises the estimate if and only if the retained counters recover against the last ones, as comparisons of counters |
| `Brutal.LossCanShrinkWindow` | src/congestion.rs:120-122 | a concrete run in which a loss shrinks the window |
| `Switchable.Reconcile` | src/connect.rs:70-86 | stores the flag or the smaller rate, or neither |
| `Switchable.SettledRateIsMin` | src/connect.rs:75-78 | a positive numeric answer settles the minimum of both rates |
| `Switchable.SwitchableController.OnSent` | src/congestion.rs:186-189 | the object takes the step of the specification: only the second controller reacts |
| `Switchable.SwitchableController.OnAck` | src/congestion.rs:191-201 | both controllers are given the acknowledgement with its arguments |
| `Switchable.SwitchableController.OnEndAcks` | src/congestion.rs:203-214 | only the second controller reacts |
| `Switchable.SwitchableController.OnCongestionEvent` | src/congestion.rs:216-227 | both controllers are given the loss with its arguments |
| `Switchable.SwitchableController.OnMtuUpdate` | src/congestion.rs:229-232 | both controllers are given the packet size |
| `Switchable.SwitchableController.Settle` | src/connect.rs:70-86 | a handshake changes the shared cells and neither controller |
| `Switchable.SwitchableController.CurrentWindow` | src/congestion.rs:234-240 | the window of the controller the flag selects |
| `Switchable.BothStayWarm` | src/congestion.rs:165-240 | for every interleaving of callbacks, with all their arguments, and handshake outcomes both controllers are where they would be alone, Brutal on the time, round trip, loss and packet size of the callbacks that concern it |
| `Switchable.SettledWindow` | src/congestion.rs:234-240 | the window is the second controller's after `auto`, else Brutal's within the bounds of the settled rate |
| `Salamander.RecoverObfuscated` | src/transport/obfs.rs:42-72 | a peer with the same key recovers exactly the non-empty payloads, for any hash and salt |
| `Salamander.PacketLayout` | src/transport/obfs.rs:35-55 | the packet byte by byte: eight bytes of salt, then each payload bit flipped where the repeated 32-byte key has a one |
| `Salamander.XorAt` | src/transport/obfs.rs:50-53 | a bit of the masked byte is set if and only if the two bits differ |
| `Salamander.OtherKeyIff` | src/transport/obfs.rs:35-72 | under another key the payload is recovered if and only if the derived keys agree on every byte used |
| `Salamander.Obfuscator.Obfuscate` | src/transport/obfs.rs:44-55 | 0 if the packet does not fit, else salt and masked payload; the rest of the buffer untouched |
| `Salamander.Obfuscator.Deobfuscate` | src/transport/obfs.rs:59-72 | 0 for runts and small buffers, else exactly the recovered payload; the rest of the buffer untouched |
| `Salamander.Obfuscator.Create` | src/transport/obfs.rs:28-33 | fails if and only if the key is shorter than 4 bytes |
| `ObfsHopSockets.ObfsHopSocket.Create` | src/transport/socket.rs:91-122 | no socket if and only if neither feature is requested; hopping if and only if more than one address is configured |
| `ObfsHopSockets.ObfsHopSocket.Hop` | src/transport/socket.rs:133-151 | moves to another index of the configured addresses and changes nothing else |
| `ObfsHopSockets.ObfsHopSocket.CurrentDest` | src/transport/socket.rs:125-130 | the address at the current index when hopping, else the canonical one |
| `ObfsHopSockets.ObfsHopSocket.TrySend` | src/transport/socket.rs:158-197 | redirects to the address at the current index and obfuscates; dropped if and only if obfuscating more than 2040 bytes |
| `ObfsHopSockets.ObfsHopSocket.Compact` | src/transport/socket.rs:247-267 | the compaction loop leaves exactly the kept packets in the caller's buffers and metadata, without gaps |
| `ObfsHopSockets.ObfsHopSocket.PollRecv` | src/transport/socket.rs:222-273 | polls until something is kept, independent of stale scratch contents; every reported message tells payload, marks and sender of an inbound datagram, the sender replaced by the canonical address if and only if hopping |
| `ObfsHopSockets.PollAnswers` | src/transport/socket.rs:234-272 | what a poll answers from the inner events: fruitless batches skipped, then pending, failing or handing out if and only if the next event is such |
| `ObfsHopSockets.KeptIff` | src/transport/socket.rs:247-267 | the loop equals the order-preserving filter-map if and only if every payload fits its buffer; else messages are lost |
| `ObfsHopSockets.KeptIsFilterMap` | src/transport/socket.rs:247-267 | with caller buffers of at least 2040 bytes it is the filter-map |
| `ObfsHopSockets.DrainIsFilterMap` | src/transport/socket.rs:234-272 | over any number of polls, any batching and any roomy buffers of each poll, received plus still inbound is the filter-map of everything |
| `ObfsHopSockets.ReceiveIsFilterMap` | src/transport/socket.rs:234-272 | the same for the socket's own unmasking under any hash and key; as many polls as there are inner events receive everything |
| `ObfsHopSockets.PeerPayloadsArrive` | src/transport/socket.rs:177-272 | payloads sent by a peer with the same key come out in order, under any salts, batching and buffers: a prefix of the non-empty ones, and all after enough polls |
| `ObfsHopSockets.WireRoundTrip` | src/transport/socket.rs:177-195 | a sent packet yields its payload, and an empty payload nothing |
| `Ports.ParsePorts` | src/config.rs:141-164 | the loop, sort and dedup compute the specified list |
| `Ports.PortsAreUnion` | src/config.rs:141-164 | None if and only if some part is malformed; else the strictly increasing non-empty union of the parts |
| `Ports.PartIff` | src/config.rs:147-157 | a part parses as a range if and only if it is written for it: a decimal number, perhaps with plus sign, leading zeros and Unicode white space around, or two of them around a dash in either order |
| `Ports.PortsMean` | src/config.rs:141-164 | told without the parser: None if and only if some part is not written for any ports; else the increasing list of the ports some part is written for |
| `Ports.ListOfRanges` | src/config.rs:146-164 | a comma-separated list of parts written for ranges gives exactly the ports of these ranges |
| `Ports.RangeOfPorts` | src/config.rs:147-153 | two ports around a dash give every port from the smaller to the larger |
| `Ports.IncreasingIsUnique` | src/config.rs:161-163 | a strictly increasing list is determined by its members |
| `Ports.SamePartsSamePorts` | src/config.rs:146-163 | only the set of parts matters |
| `Ports.PartsPermute` | src/config.rs:146-163 | permuting or repeating the joined parts changes nothing |
| `Ports.RangeEndsSwap` | src/config.rs:147-152 | any two texts around a dash parse alike either way round |
| `Ports.SwapRangeEnds` | src/config.rs:146-163 | swapping the ends of any range of a spec leaves the port list unchanged |
| `Ports.FirstIsMinimum` | src/connect.rs:114-118 | the first port exists and is the minimum |
| `Ports.SinglePort` | src/config.rs:154-156 | a port written in decimal parses to that port alone |
| `Ports.AllMeansEvery` | src/config.rs:142-144 | `all` and `*` give every port in increasing order |
| `Ports.AllIsNotAPart` | src/config.rs:142-144 | a spec of several parts one of which is `all` or `*` is malformed |
| `Reconnect.RunKeeps` | src/reconnect.rs:52-106 | in every interleaving: closed implies nothing installed, the lock's owner is the only call connecting and connects only while no live client is installed, and the installed client is the newest |
| `Reconnect.CountIsEstablished` | src/reconnect.rs:62-64 | the counter is the number of successful connects in the history |
| `Reconnect.ClosedIsFinal` | src/reconnect.rs:54-56 | once closed, whatever follows: stays closed, nothing installed, no connect starts or succeeds |
| `Reconnect.ClosedIff` | src/reconnect.rs:102-106 | the client is closed exactly from the first `close` that gets the lock |
| `Reconnect.AtMostTwoConnects` | src/reconnect.rs:80-94 | one `tcp_connect` call starts at most two connects |
| `Reconnect.OutcomeIff` | src/reconnect.rs:80-94 | in every run a call's outcome follows from its own last step: a stream, a failed connect, a closed client, or a failed stream, which ends the call if and only if it has retried before or its connection is alive, and else makes it retry |
| `Reconnect.HandedClient` | src/reconnect.rs:57-68 | a call is handed the installed client, live at that moment or just connected |
| `Reconnect.CurrentSucceedsIff` | src/reconnect.rs:52-69 | with the lock free, `current` hands out a live installed client if and only if not closed and no connect was needed or it succeeded |
| `Reconnect.InvalidateDiscardsIff` | src/reconnect.rs:73-76 | over every run, a call's invalidation discards a live client if and only if some earlier step established one that neither closed nor was cleared away since; that step is another call's and its client newer than the failed one |
| `Reconnect.FreshClientCanBeDiscarded` | src/reconnect.rs:86-88 | a concrete interleaving in which a fresh client is thrown away |
| `Reconnect.ReconnectableClient.Current` | src/reconnect.rs:52-69 | under the lock it has the effect and result of entering and connecting in the step system |
| `Reconnect.ReconnectableClient.InvalidateCurrent` | src/reconnect.rs:73-76 | has the effect of the invalidation step |
| `Reconnect.ReconnectableClient.CloseForGood` | src/reconnect.rs:102-106 | has the effect of the closing step |

## Left out

- HTTP/3 authentication, header parsing, DNS lookup, the QUIC handshake and the hop intervals of src/connect.rs: I/O over other libraries; the server's rate and the auto flag are inputs.
- src/transport/tls.rs and src/transport/mod.rs: certificate handling and wiring around other libraries.
- `encode_tcp_request` and padding: only the server reads the request, so nothing in the program relates to it.
- The sending half of the stream: plain delegation.
- The receive path without obfuscation: it only rewrites addresses in place.
- The internals of BBR, of quinn's pacing and of BLAKE2b: arbitrary functions here.
- Rounding of `f64` and overflow of the `u64` statistics.
- The hop timer and sleep times: a hop is a step to any configured index.
- The `udp` call and the eager constructor of the reconnecting client: one pass through the modelled `current`.
- Brutal.LossKeepsWindowUnlessRecovered: one direction, for all rates at once; the equivalence at each rate is `LossShrinksWindowIff`.
- UdpSessions.SendOnSteadyPath: assumes the datagram limit does not change within one `send`; a changing limit is covered by `Send` itself, where a fragment that no longer fits ends the call with an error.
- UdpSessions.UdpSession.Recv: an await is modelled as returning `Waits`; waking up is another call.
- Ports.ParsePorts: the library's sort is an insertion sort here, of which only order and membership are stated, because the duplicates it keeps are removed next.
- ObfsHopSockets.ObfsHopSocket.PollRecv: requires an inner socket that fills no more buffers than it is given, and distinct caller buffers, as the Rust types and the inner contract do.
