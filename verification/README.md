# Hysteria 2 in Rust: a verified model

A Dafny model of the protocol machinery of a Rust implementation of the Hysteria 2 proxy, with proofs about
it. It covers the parts where state, arithmetic or concurrency make the behaviour hard to see from the code:

- **UDP over datagrams** (`Varint`, `Proxy`, `Frag`, `Defrag`, `Reassembly`, `UdpSession`): messages are
  serialized, split to the path's datagram limit, routed to sessions and reassembled under loss, reordering,
  duplication and eviction. The end results, `UdpSession.ReceiveReturns` and `UdpSession.EndToEnd`, go from the
  datagrams of a send to what `receive` returns, over all runs of the sessions.
- **Salamander obfuscation** (`Salamander`): batches of segments are sealed on sending and decoded in place,
  over the bytes still to be read, on receiving.
- **The mobile runtime's command loop** (`Controller`): a connection and its tasks, delayed reconnects, and
  the generation counter that makes late messages harmless.
- **Bandwidth limiting** (`Limiter`, `Relay`): a token bucket, and the copy loop that it paces.
- **The HTTP proxy's framing** (`Streams`, `HttpProxy`, `Rfc9112`, `ChunkedCoding`): heads, lines and chunked
  bodies read from streams that deliver their bytes in arbitrary pieces, compared with section 7.1 of RFC 9112.
- **The speed test** (`Speedtest`): client and server as two machines that read and write over bounded pipes.
- **DNS replies and share links** (`Dns`, `Userinfo`, `Utf8`).

Code that updates state in place is modelled by classes and methods, each proved equal to a function on values;
the theorems are about those functions and about all runs built from them. `Base` holds byte and sequence
arithmetic. `dafny verify dfyconfig.toml` checks everything.

## What does not hold

Some properties one would expect are false of the code. Each has its exact condition in the model, and a
concrete input in `Failures`:

- A message that needs more than 255 fragments is truncated: the fragment count is a `u8` and wraps (the model
  follows a release build; a debug build panics). It survives if and only if the count fits
  (`Reassembly.SurvivesIffCountFitsU8`, `Failures.TooManyFragments`).
- A packet is pushed out of the reassembler when 64 packets that were started after it are incomplete at the
  same time. A starting message evicts it exactly when 63 of them are queued behind it and the new one is not
  among them (`Reassembly.EvictsIff`). If no fragment comes twice, it is delivered if and only if that never
  happens (`Reassembly.DeliveryIff`, `Failures.CrowdedOutBySixtyFour`).
- UDP session ids are unique for exactly 2^32 sessions (`UdpSession.IdsDistinct`). The next session takes over
  the first one's place in the table, and its datagrams (`UdpSession.WrappedId`, `Failures.IdUsedTwice`).
- A received batch whose last segment is exactly one salt long loses that segment silently
  (`Salamander.ResegmentIffPayload`, `Failures.BareSaltDropped`). One whose last segment is shorter makes the
  decoder panic, unless an earlier buffer of the call is refused (`Salamander.PollRecv`,
  `Failures.ShortSegmentPanics`).
- `wait_for` is granted, in some run of whatever callers, if and only if the request fits the burst
  (`Limiter.GrantedInSomeRunIffFits`, `Failures.NeverGranted`). A larger one waits for ever. As a UDP message
  waits before the connection can refuse it for its size, a message larger than the burst is never split and
  never sent (`UdpSession.SendUdpMessage`, `Failures.NeverSplit`).
- Whether a line or head near its size limit is accepted depends on how the stream is cut
  (`HttpProxy.LineSplitIndependentIff`, `Failures.LineDependsOnCuts`; `HttpProxy.HeadSplitIndependentIff`,
  `Failures.HeadDependsOnCuts`). A chunked body of which nothing is buffered yet is forwarded for every way of
  cutting the stream if and only if its lines are short (`HttpProxy.Connection.TransferChunkedBody`).
- `transfer_exact_bytes` reports success when the stream ends early
  (`HttpProxy.Connection.TransferExactBytes`, `Failures.EarlyEndAccepted`).
- Not every chunked body of RFC 9112 is delimited: exactly those whose heads are UTF-8 and whose sizes fit
  `usize` are (`ChunkedCoding.RfcBodyDelimitedIff`, `Failures.ObsTextRefused`), as long as no size is one of the
  two to which adding two wraps around in a release build (`ChunkedCoding.WrapLeads`, `Failures.SizeWraps`).
- What is forwarded as a chunked body is one by RFC 9112 exactly on strict streams
  (`ChunkedCoding.ForwardsRfcBodyIff`, `Failures.NoBodyForwarded`): the code checks neither the line break after
  a chunk's data nor the syntax of extensions and trailer fields.
- An upload speed test of 2^32 - 1 bytes without a time limit always deadlocks (`Speedtest.RunsComplete`,
  `Failures.EndlessUpload`).
- A reply to a DNS query holds one question, and announces so if and only if the query announced one
  (`Dns.ReplyHeader`, `Failures.TwoQuestions`).
- An authentication string survives a share link if and only if its first colon is not its last byte
  (`Userinfo.AuthRoundTripIff`, `Failures.EmptyPasswordDropped`).

## Model

| member | source | states |
|---|---|---|
| `Varint.Write` | core/src/varint.rs:17-54 | stores exactly the RFC 9000 encoding of the value and nothing else; overflow and a short buffer are the two errors and change nothing |
| `Varint.ReadSlice` | core/src/varint.rs:72-86 | the byte-by-byte accumulation is the decoder of section 16 of RFC 9000, including its errors |
| `Varint.StoredIsEncode` | core/src/varint.rs:26-52 | the shifts, truncations and or-ed tags of the four arms store the tagged big-endian word |
| `Varint.DecodeEncode` | core/src/varint.rs:17-86 | reading what was written gives the value and its width, whatever follows |
| `Varint.EncodeIsShortest` | core/src/varint.rs:7-15 | no byte sequence that decodes to a value is shorter than what is written for it |
| `Varint.DecodeWide` | core/src/varint.rs:56-86 | an encoding in any of the four widths, shortest or not, is read |
| `Varint.DecodedIsWide` | core/src/varint.rs:56-86 | and nothing else is: what was read is the encoding of the value in that width |
| `Varint.DecodePrefix` | core/src/varint.rs:72-86 | a cut encoding is an unexpected end, and what follows an encoding does not matter |
| `Proxy.UdpMessage.Serialize` | core/src/protocol/proxy.rs:33-50 | fills exactly `size` bytes with the encoding or, in a shorter buffer, writes nothing |
| `Proxy.ParseUdp` | core/src/protocol/proxy.rs:53-85 | every accepted message has an address of 1 to 2048 bytes on the wire |
| `Proxy.ParseEncode` | core/src/protocol/proxy.rs:25-85 | a serialized message parses back to itself if and only if its address is 1 to 2048 bytes; otherwise the address length is the error |
| `Proxy.DatagramReads` | core/src/protocol/proxy.rs:53-85 | every datagram of big-endian session id and packet id, fragment number and count, address length in any width, address of 1 to 2048 bytes, and data is read as that message |
| `Proxy.DatagramRead` | core/src/protocol/proxy.rs:53-85 | and no other datagram is read |
| `Proxy.DatagramCut` | core/src/protocol/proxy.rs:53-85 | cut before its address a datagram is an unexpected end, cut in its address an invalid length, and cut later it only loses data |
| `Proxy.RequestRoundTrip` | core/src/protocol/proxy.rs:87-130 | a written TCP request reads back, leaving what follows, exactly when both lengths are in range; otherwise the first bad length is the error |
| `Proxy.ResponseRoundTrip` | core/src/protocol/proxy.rs:132-186 | the same for TCP responses |
| `Proxy.RequestReads` | core/src/protocol/proxy.rs:5-107 | every text of frame type 0x401, an address of 1 to 2048 bytes and at most 4096 of padding, each length in any width, is read, and what follows it is left |
| `Proxy.RequestRead` | core/src/protocol/proxy.rs:5-107 | and no other text is read |
| `Proxy.OtherFrameRefused` | core/src/runtime_io.rs:30-39 | a frame of any other type is refused by that type |
| `Proxy.ResponseReads` | core/src/protocol/proxy.rs:132-159 | every text of a status byte, a message of at most 2048 bytes and at most 4096 of padding is read; status zero alone is success |
| `Proxy.ResponseRead` | core/src/protocol/proxy.rs:132-159 | and no other text is read |
| `Proxy.FramedRequestCut` | core/src/protocol/proxy.rs:87-107 | a request cut anywhere before its end is an unexpected end, never another request or another error |
| `Proxy.ResponseCut` | core/src/protocol/proxy.rs:132-159 | the same for a response |
| `Proxy.WriteTcpRequest` | core/src/protocol/proxy.rs:109-130 | the buffer filled piece by piece is the encoding of frame type, address and padding |
| `Proxy.WriteTcpResponse` | core/src/protocol/proxy.rs:161-186 | the buffer filled piece by piece is the encoding of status, message and padding |
| `Proxy.ReadVarint` | core/src/runtime_io.rs:11-28 | reading first byte, then announced bytes, takes exactly one varint off the stream |
| `Proxy.DiscardExact` | core/src/runtime_io.rs:111-123 | skipping in steps of 1024 skips exactly the length, or fails on a shorter stream |
| `Proxy.ReadTcpRequest` | core/src/runtime_io.rs:41-60 | the synchronous and the asynchronous reader agree with one grammar, in results, errors and what is left |
| `Proxy.ReadFramedTcpRequest` | core/src/runtime_io.rs:30-39 | the frame type comes first and another one is refused |
| `Proxy.ReadTcpResponse` | core/src/runtime_io.rs:72-99 | both readers of responses agree with one grammar |
| `Frag.FragUdpMessage` | core/src/frag.rs:7-31 | the loop over offsets cuts the payload into its chunks, numbered and counted modulo 256 |
| `Frag.FragmentsFit` | core/src/frag.rs:7-31 | every fragment's datagram is within the limit, however many there are |
| `Frag.FragmentsConserve` | core/src/frag.rs:7-31 | the fragments' payloads concatenate to the payload, however many there are |
| `Frag.PiecesFit` | core/src/frag.rs:7-31 | a split has at least two pieces, none empty and none too large |
| `Defrag.FeedInv` | core/src/frag.rs:49-127 | map and queue hold the same ids without duplicates, at most 64, each with correct fill count, byte count and key, after every message |
| `Defrag.EvictOnce` | core/src/frag.rs:99-120 | the eviction loop removes exactly the oldest packet of a full queue, and nothing otherwise |
| `Defrag.FillValid` | core/src/frag.rs:76-96 | storing a fragment keeps count and size equal to what the slots hold; a duplicate changes nothing |
| `Defrag.BytesConcat` | core/src/frag.rs:83-87 | the reserved capacity is exactly the length of the assembled payload |
| `Defrag.AssembleSlots` | core/src/frag.rs:83-87 | the loop over full slots concatenates their payloads in order |
| `Defrag.Defragger.RemovePacket` | core/src/frag.rs:122-127 | removes the id from map and queue |
| `Defrag.Defragger.InsertPacket` | core/src/frag.rs:99-120 | forgets an old packet of that id, evicts while full, and starts afresh with the one fragment |
| `Defrag.Defragger.FeedMessage` | core/src/frag.rs:49-97 | is the transition function and keeps the invariant, so that no slot is missing at assembly |
| `Defrag.Defragger.FillPacket` | core/src/frag.rs:76-96 | the part of `feed` for a packet in progress is the transition function's |
| `Reassembly.EvictsIff` | core/src/frag.rs:99-120 | a message that starts another packet evicts this one exactly when 63 packets are queued behind it and the new one is not among them; otherwise it goes behind and this one is untouched |
| `Reassembly.Delivery` | core/src/frag.rs:49-127 | in any order, with duplicates and unrelated traffic, a packet is delivered whole exactly when its last missing fragment arrives and not before, if there were never 64 younger incomplete packets |
| `Reassembly.DeliveryIff` | core/src/frag.rs:49-127 | if no fragment comes twice, it is delivered if and only if there were never 64 younger incomplete packets |
| `Reassembly.DeliveryIfFewStarted` | core/src/frag.rs:49-127 | in particular it is delivered if fewer than 64 packets were started meanwhile |
| `Reassembly.DeliveredSomewhere` | core/src/frag.rs:49-127 | a packet whose last missing fragment arrives undisturbed and not crowded out has come out, whatever comes later |
| `Reassembly.Tracking` | core/src/frag.rs:49-127 | until then the table holds exactly the fragments that have arrived, and the packets queued behind are exactly those started since and incomplete |
| `Reassembly.SixtyFourEvict` | core/src/frag.rs:99-120 | 64 first fragments of packets with new ids, one after the other, push out every older packet |
| `Reassembly.OutputSound` | core/src/frag.rs:49-97 | in every run, whatever comes out is an unsplit message or the in-order concatenation of the first arrivals of all fragments of one packet |
| `Reassembly.OutputIff` | core/src/frag.rs:49-97 | in every run, duplicates and reused ids included, a fragment makes a message come out if and only if with it every fragment of its packet has arrived since the packet was last started |
| `Reassembly.StateExplained` | core/src/frag.rs:49-127 | in every reachable state each slot holds the first arrival of that fragment since the packet was last started |
| `Reassembly.InOrder` | core/src/frag.rs:49-97 | the fragments of a packet, fed in order, produce exactly one message |
| `Reassembly.SurvivesIffCountFitsU8` | core/src/frag.rs:7-97 | splitting and reassembling gives back the message if and only if its payload fills at most 255 fragments |
| `UdpSession.SendUdpMessage` | core/src/udp.rs:448-474 | finishes only with what has to go over the connection (one datagram, an error if not even the header fits, or the encoded fragments of the renumbered message); alone at the limiter it finishes if and only if the whole message fits the burst |
| `UdpSession.SendSingle` | core/src/udp.rs:476-489 | waits for the limiter first, and only then sends exactly the encoding or is refused as too large |
| `UdpSession.TravellingIs` | core/src/udp.rs:448-474 | what travels is the message itself, under the drawn packet id, or 1 for a drawn zero, if it has to be split |
| `UdpSession.IdsDistinct` | core/src/udp.rs:154-180 | session ids are pairwise different for exactly 2^32 sessions |
| `UdpSession.WrappedId` | core/src/udp.rs:154-222 | the session created after 2^32 others takes over the first one's place in the table, and its datagrams |
| `UdpSession.StepRouting` | core/src/udp.rs:110-222 | every creation, close, arrival, send and receive keeps the routing invariant, and a new id is unused while ids last |
| `UdpSession.RunRouting` | core/src/udp.rs:110-222 | in every interleaving, an open session's channel has received exactly the parsed datagrams with its id since its creation, in order; a closed one a prefix of them |
| `UdpSession.RunOpen` | core/src/udp.rs:154-222 | in every run exactly those sessions are open that were created and neither closed themselves nor with the connection since; the manager is closed exactly after the connection was; and what had arrived is what the reader took off the connection |
| `UdpSession.ClosedRouting` | core/src/udp.rs:110-222 | once a session is closed, its channel never receives anything that arrives later, as long as its id is not issued again |
| `UdpSession.OpenRouting` | core/src/udp.rs:154-222 | until it is closed, a session receives everything that arrives for it, whatever happens to the others |
| `UdpSession.NoneAfterCloseAll` | core/src/udp.rs:154-196 | after the connection is gone no session is added and none is open |
| `UdpSession.SendEnds` | core/src/udp.rs:198-222 | a send in progress ends with the message in its channel, or with the message dropped because the session is closed; no other session is touched |
| `UdpSession.ReaderNotStuck` | core/src/udp.rs:198-222 | in every run the send of the reader can finish, or can as soon as the session takes one message |
| `UdpSession.WireParts` | core/src/udp.rs:448-489 | everything sent parses back to itself, fits the limit and carries the session id |
| `UdpSession.RunFed` | core/src/udp.rs:71-87 | in every run, every session's reassembler has been fed exactly what the session took, and the session has returned all that came out |
| `UdpSession.ReceiveReturns` | core/src/udp.rs:71-87 | in every run, the `receive` that takes the last missing part of a message returns that message, and those that took its earlier parts returned nothing, if since some point, whatever came before it, no packet was in progress under its id and key, no other fragment under its id was taken, and there were never 64 younger incomplete packets |
| `UdpSession.EndToEnd` | core/src/udp.rs:71-222 | from wire to application: in every run, if between two points the datagrams of a message arrive, in any order, duplicated and mixed with others, and are undisturbed there in that sense, then the session, once it has taken what had arrived by then, has returned the message, whatever came before or comes later |
| `UdpSession.DrainedTook` | core/src/udp.rs:71-222 | an open session with an empty channel has taken all that arrived for it |
| `Salamander.UnsealSeal` | extras/src/obfs.rs:45-71 | unsealing inverts sealing for every key function, salt and payload |
| `Salamander.MaskMasks` | extras/src/obfs.rs:45-71 | bit j of byte i of the masked data is set exactly when bit j of byte i of the data and bit j of byte i modulo 32 of the key differ |
| `Salamander.KeysTellApart` | extras/src/obfs.rs:45-71 | two keys give the same packet if and only if they agree on the bytes that the payload uses |
| `Salamander.Obfuscate` | extras/src/obfs.rs:45-58 | writes the salt and the payload masked bit by bit with the key of that salt, or nothing when the output is too small |
| `Salamander.Deobfuscate` | extras/src/obfs.rs:60-71 | writes exactly the input behind its salt, unmasked bit by bit with the key of that salt, or nothing for a short input or no room, and touches nothing else |
| `Salamander.TrySend` | core/src/socket.rs:138-166 | the batch sent is the concatenation of its segments, each sealed with its own salt, with the segment size grown by a salt |
| `Salamander.PollRecv` | core/src/socket.rs:168-230 | the first buffer that cannot be decoded decides: invalid if its stride is no longer than a salt, a panic if its last segment is shorter than one; otherwise every buffer holds its decoded segments, with length and stride to match, and its tail is untouched |
| `Salamander.DecodeInPlace` | core/src/socket.rs:176-225 | decoding over the same buffer equals decoding a copy; it refuses and panics exactly on those conditions |
| `Salamander.DecodeSegments` | core/src/socket.rs:200-217 | the segment loop leaves the concatenated payloads followed by the bytes that were there, or panics at a last segment shorter than a salt |
| `Salamander.SegmentAt` | core/src/socket.rs:201-206 | no clobbering: each segment starts no earlier than where its payload goes, which is where the payload before it ended |
| `Salamander.ResegmentIffPayload` | core/src/socket.rs:219-224 | the new length and stride stand for exactly the decoded segments if and only if the last segment is longer than a salt |
| `Salamander.BatchRoundTrip` | core/src/socket.rs:138-230 | what `try_send` produced decodes to the contents, with a stride that gives back the original segments |
| `Controller.StepInv` | mobile/src/main.rs:1302-1800 | every command keeps: the tasks of a session exist exactly with its client, at most one client or retry of the current generation, and no tunnel without them |
| `Controller.RunInv` | mobile/src/main.rs:1302-1800 | in every run, a session that was activated has exactly one lifeline, a client or a pending retry, until the next generation, and no session has none |
| `Controller.RunAgrees` | mobile/src/main.rs:1302-1800 | in every run, from its events: the generation is the number of commands that began one and the form is that of the last; the tunnel runs exactly when it was asked for, was brought up in this generation and was not stopped; a client exists exactly from an activation to the report of its loss |
| `Controller.FormKept` | mobile/src/main.rs:1302-1800 | through every loss and retry, the form is that of the command that began the generation |
| `Controller.TunnelStays` | mobile/src/main.rs:1581-1800 | a running tunnel stays through every loss and retry, until it is stopped or a new generation begins |
| `Controller.TunnelStopped` | mobile/src/main.rs:1581-1611 | a stopped tunnel stays down and unwanted until the next managed command |
| `Controller.Activation` | mobile/src/main.rs:1304-1787 | a connect, managed connect or retry that succeeds ends with a client; a managed connect, or a retry while the tunnel is wanted, ends with the tunnel up if it can be started |
| `Controller.RetriesConserved` | mobile/src/main.rs:1612-1787 | in every run, a loss sends the first retry, a failed attempt the next one, a delivered one is used up, and no other retry comes or goes |
| `Controller.NeverOverwritten` | mobile/src/main.rs:1662-1787 | no reconnect ever puts a client in the place of a live one |
| `Controller.NoRevival` | mobile/src/main.rs:1302-1800 | after a disconnect or service stop, no late message ever brings back a client or the tunnel; only a new connect does |
| `Controller.BackoffCounts` | mobile/src/main.rs:1612-1787 | in every run, the pending retry carries the number of failures since the connection was lost |
| `Controller.DelayGrows` | mobile/src/main.rs:1986-1991 | delays are 1, 2, 4 and 8 seconds, then 15 for ever |
| `Controller.RuntimeController.Handle` | mobile/src/main.rs:1302-1799 | one turn of the loop is the transition function |
| `Controller.RuntimeController.HandleConnect` | mobile/src/main.rs:1304-1362 | a new generation, active if the connection succeeds |
| `Controller.RuntimeController.HandleStartManagedVpn` | mobile/src/main.rs:1363-1421 | a new generation that remembers the form only if the service starts |
| `Controller.RuntimeController.HandleManagedConnect` | mobile/src/main.rs:1422-1503 | a new generation, with the tunnel only if connection and tunnel both start |
| `Controller.RuntimeController.HandleConnectionClosed` | mobile/src/main.rs:1612-1661 | a stale close is ignored; otherwise the session stops, keeps a wanted tunnel and schedules the first retry |
| `Controller.RuntimeController.HandleRetry` | mobile/src/main.rs:1662-1787 | a stale retry is ignored; otherwise it activates the remembered form or schedules the next attempt |
| `Controller.RuntimeController.StopActiveSession` | mobile/src/main.rs:1875-1921 | all watchers and the client stop; local SOCKS and the tunnel as told |
| `Controller.RuntimeController.ActivateConnection` | mobile/src/main.rs:1802-1873 | all tasks run, the health probe only for a connected phase, and the form is remembered |
| `Limiter.AttemptConserves` | core/src/limit.rs:55-116 | what an attempt grants is exactly what the level loses, and tokens stay between zero and the burst |
| `Limiter.StreamMaximal` | core/src/limit.rs:55-70 | a stream is served exactly when there is a whole token; it then gets all it asked for, 64 KiB, or all but less than a token of what there is |
| `Limiter.WaitLength` | core/src/limit.rs:118-121 | a wait lasts exactly as long as the refill of what is missing, and of one token at least |
| `Limiter.RunConserves` | core/src/limit.rs:55-116 | over any sequence of calls, grants plus what is left never exceed the start level plus the refills |
| `Limiter.RateBound` | core/src/limit.rs:55-116 | over any window of any interleaving of callers, at most burst plus rate times elapsed time is granted |
| `Limiter.ConfiguredBound` | core/src/limit.rs:43-116 | for a limiter made for a rate: any window of any interleaving grants at most the larger of 15000 and a 250th of the rate, plus the rate times the elapsed time |
| `Limiter.ConfiguredRateReached` | core/src/limit.rs:43-116 | and callers who keep asking, so that the bucket never fills up, and are hungry at the end have got what there was and the rate times the elapsed time, to within a token |
| `Limiter.WaitSuffices` | core/src/limit.rs:118-121 | a caller that slept as long as it was told is served next |
| `Limiter.WaitIsTight` | core/src/limit.rs:118-121 | when at least one token is missing, no earlier attempt would have been served |
| `Limiter.WaitForReturnsIffFits` | core/src/limit.rs:85-107 | alone, `wait_for` returns after at most one sleep if and only if the request fits the burst |
| `Limiter.GrantedInSomeRunIffFits` | core/src/limit.rs:85-107 | some attempt in some interleaving of callers is granted if and only if the request fits the burst |
| `Limiter.BandwidthLimiter.Refill` | core/src/limit.rs:109-116 | the bucket rises to its level now, capped at the burst |
| `Limiter.BandwidthLimiter.TakeStreamBudget` | core/src/limit.rs:55-70 | is the attempt function for streams; the grant is all that was asked for, 64 KiB, or all but less than a token of what there is |
| `Limiter.BandwidthLimiter.WaitForChunk` | core/src/limit.rs:72-83 | whatever others take between its rounds, it stays within the rate and returns as much of a non-empty request as there is, at least one byte and at most 64 KiB; alone it returns in the second round at the latest |
| `Limiter.BandwidthLimiter.WaitFor` | core/src/limit.rs:85-107 | whatever others take, it stays within the rate and never returns for more than the burst; alone it returns in the second round at the latest for everything else |
| `Limiter.BandwidthLimiter.OthersTake` | core/src/limit.rs:55-107 | other callers only lower the level |
| `Relay.CopyWithLimit` | core/src/relay.rs:40-70 | with a limiter shared with others, what is written is at all times a prefix of what was read, no more than burst plus rate times time; without a limiter, or alone at it, everything is written |
| `Relay.WriteLimited` | core/src/relay.rs:58-67 | writes one buffer in granted chunks, in order and within the rate |
| `HttpProxy.FindByScan` | app/src/http_proxy.rs:244-246 | the window scan finds the first occurrence |
| `HttpProxy.LineLoopSpec` | app/src/http_proxy.rs:504-524 | however the stream is cut, a line read is the first line and nothing is lost; a line within the limit is always read; otherwise the error tells whether more than 8 KiB are buffered without a line end or the stream ended without one |
| `HttpProxy.LineSplitIndependentIff` | app/src/http_proxy.rs:504-524 | reading a line succeeds for every way of cutting the stream if and only if it ends before the limit or is already buffered |
| `HttpProxy.HeadLoopSpec` | app/src/http_proxy.rs:217-242 | the same for a message head and 64 KiB, including end of stream before and inside it |
| `HttpProxy.HeadSplitIndependentIff` | app/src/http_proxy.rs:217-242 | reading a head succeeds for every way of cutting the stream if and only if no read past its end can exceed the limit |
| `HttpProxy.Connection.ReadCrlfLine` | app/src/http_proxy.rs:504-524 | is the line loop, in result, buffer and stream |
| `HttpProxy.Connection.ReadHttpHead` | app/src/http_proxy.rs:217-242 | is the head loop, in result, buffer and stream |
| `HttpProxy.Connection.TransferExactBytes` | app/src/http_proxy.rs:426-452 | forwards that many bytes or, without an error, all there are, and consumes exactly those |
| `HttpProxy.Connection.TransferTrailers` | app/src/http_proxy.rs:490-497 | forwards lines up to and including the empty one |
| `HttpProxy.Connection.TransferChunkedBody` | app/src/http_proxy.rs:471-502 | nothing is lost or invented on any path; success means exactly one body was forwarded; a body with short lines succeeds however the stream is cut, and byte by byte only such a body does |
| `HttpProxy.SizeTextRead` | app/src/http_proxy.rs:484-488 | a line of hexadecimal digits in either case, perhaps after a plus sign, between any white space of Unicode, then nothing or a semicolon and anything, has that size if it is UTF-8 and the size is below 2^64 |
| `HttpProxy.SizeRead` | app/src/http_proxy.rs:484-488 | and no other line has a size |
| `Base.HexValueOfNotation` | app/src/http_proxy.rs:487 | the value of a number written in hexadecimal is the number |
| `Utf8.EncodedIsValid` | app/src/http_proxy.rs:484-485 | what is accepted as UTF-8 includes the encoding by section 3 of RFC 3629 of every text of scalar values |
| `Utf8.ValidIsEncoded` | app/src/http_proxy.rs:484-485 | and nothing else |
| `ChunkedCoding.SizeReadIff` | app/src/http_proxy.rs:484-488 | the size of a chunk head of RFC 9112, extensions and blanks included, is read exactly when the head is UTF-8 and the size fits `usize` |
| `ChunkedCoding.ForwardsBodyIff` | app/src/http_proxy.rs:471-502 | for any grammar the code understands, what is forwarded is a body of that grammar if and only if the stream is strict |
| `ChunkedCoding.ForwardsGrammarIff` | app/src/http_proxy.rs:471-502 | the same for a grammar of which the code refuses some heads |
| `ChunkedCoding.ForwardsRfcBodyIff` | app/src/http_proxy.rs:471-502 | what is forwarded is a chunked body of RFC 9112 without a size that wraps if and only if every size line is such a chunk head, data is followed by a line break and every trailer is a field line; in a stream below 2^64 bytes no size can wrap |
| `ChunkedCoding.RfcBodyDelimitedIff` | app/src/http_proxy.rs:471-502 | a chunked body of RFC 9112 without a size that wraps is delimited exactly, whatever follows it, if and only if every head is UTF-8 and every size fits `usize` |
| `ChunkedCoding.WrapLeads` | app/src/http_proxy.rs:498-500 | after a size of 2^64 - 2 or 2^64 - 1 the next line is looked for at most one byte into the data |
| `Speedtest.StepInv` | extras/src/speedtest.rs:35-290 | every partial read or write of either side keeps both machines in step with the bytes in the pipes |
| `Speedtest.WireBytes` | extras/src/speedtest.rs:302-412 | the bytes of request, response and summary, with their types and in their order |
| `Speedtest.AnyRequestParses` | extras/src/speedtest.rs:193-207 | of any request the server takes the direction from the type and the size from the next four bytes, and refuses every type but 1 and 2 |
| `Speedtest.ResponseDecides` | extras/src/speedtest.rs:319-363 | a response with any text is read to its end; status 0 starts the data and any other ends the test |
| `Speedtest.SomebodyCanMove` | extras/src/speedtest.rs:35-290 | no deadlock, for any pipe capacity, short of an unending upload |
| `Speedtest.DoneMeansAll` | extras/src/speedtest.rs:35-290 | a client that is done reports exactly the size; for a size below 2^32 - 1 the server has finished and the pipes are empty, and for the download of 2^32 - 1 bytes the server is still sending |
| `Speedtest.RunsComplete` | extras/src/speedtest.rs:35-290 | every run is finite, and a run that cannot go on has completed if and only if it is not an upload of 2^32 - 1 bytes |
| `Dns.ParseFirstQuestion` | mobile/src/dns_proxy.rs:245-281 | the label loop is the recursive reading of a name, with its errors |
| `Dns.QuestionParses` | mobile/src/dns_proxy.rs:216-281 | every packet of a header that announces a question, labels of 1 to 63 bytes, a type and a class parses to that type and the offset behind the class, and is an AAAA query if and only if the type is 28 |
| `Dns.QuestionParsed` | mobile/src/dns_proxy.rs:245-281 | and no other packet parses |
| `Dns.BuildResponse` | mobile/src/dns_proxy.rs:228-238 | patching the copied query in place gives the reply |
| `Dns.ReplyReparses` | mobile/src/dns_proxy.rs:216-281 | the reply is the header and the first question, and re-parses and classifies as the query does |
| `Dns.ReplyFlagBits` | mobile/src/dns_proxy.rs:231-235 | every bit of the reply's flags for every query and code |
| `Dns.ReplyHeader` | mobile/src/dns_proxy.rs:228-238 | same id and question count, no other records; it holds one question, and announces what it holds if and only if the query announced one |
| `Userinfo.EscapeComponent` | app/src/share.rs:82-96 | escapes byte by byte |
| `Userinfo.DecodeComponent` | app/src/config.rs:536-563 | decodes by index, with every malformed escape an error |
| `Userinfo.EscapedBytes` | app/src/share.rs:82-115 | none of the URL's delimiters occurs in escaped text |
| `Userinfo.DecodeEscape` | app/src/config.rs:536-572 | decoding undoes escaping on every string, whichever bytes are escaped besides the percent sign |
| `Userinfo.DecodePieces` | app/src/config.rs:536-572 | any text of plain bytes and escapes, with digits in either case, decodes to what they stand for, unless it holds an escape and that is not UTF-8 |
| `Userinfo.DecodeFailsIff` | app/src/config.rs:536-572 | decoding fails exactly on a percent sign without two digits behind it, or on a decoded result that is not UTF-8 |
| `Userinfo.EscapedForm` | app/src/share.rs:82-115 | a byte is escaped, as a percent sign and two upper-case digits, exactly when it is no letter, digit or one of ten marks |
| `Userinfo.EscapeTwice` | app/src/config.rs:155-163 | a URL parser that escapes more bytes of escaped text only escapes those bytes as well |
| `Userinfo.AuthRoundTripIff` | app/src/config.rs:155-167 | an authentication string survives a share link if and only if its first colon is not its last byte; without credentials the receiving side keeps its own |
| `Failures.TooManyFragments` | core/src/frag.rs:7-31 | 256 fragments of one byte do not come back as the message |
| `Failures.CrowdedOutBySixtyFour` | core/src/frag.rs:99-120 | after the first halves of 64 other packets, a second half completes nothing |
| `Failures.IdUsedTwice` | core/src/udp.rs:154-222 | in the run of 2^32 creations, the next session gets the first one's id, its place in the table and its datagrams |
| `Failures.NeverGranted` | core/src/limit.rs:85-107 | one byte more than the smallest burst is granted in no run |
| `Failures.NeverSplit` | core/src/udp.rs:448-489 | a message of 20000 bytes never passes the smallest limiter, although its fragments would |
| `Failures.BareSaltDropped` | core/src/socket.rs:200-224 | 17 bytes with stride 9 lose their last segment |
| `Failures.ShortSegmentPanics` | core/src/socket.rs:200-208 | 10 bytes with stride 9 make the decoder panic |
| `Failures.LineDependsOnCuts` | app/src/http_proxy.rs:504-524 | a line of 8192 bytes is read from the buffer and refused byte by byte |
| `Failures.HeadDependsOnCuts` | app/src/http_proxy.rs:217-242 | a head of 64000 bytes is read from the buffer and refused when badly cut |
| `Failures.EarlyEndAccepted` | app/src/http_proxy.rs:426-452 | one byte of two is forwarded without an error |
| `Failures.ObsTextRefused` | app/src/http_proxy.rs:484-488 | a chunk head of RFC 9112 with an obs-text byte in a quoted value is refused |
| `Failures.NoBodyForwarded` | app/src/http_proxy.rs:471-502 | a stream without a line break after its data is forwarded and is no chunked body of RFC 9112 |
| `Failures.UnbrokenForwarded` | app/src/http_proxy.rs:471-502 | that stream is forwarded as a body |
| `Failures.SizeWraps` | app/src/http_proxy.rs:498-500 | a chunk that announces 2^64 - 2 bytes, of which none follows, is forwarded with the last chunk behind it |
| `Failures.EndlessUpload` | extras/src/speedtest.rs:108-182 | no run of an upload of 2^32 - 1 bytes ends with a client that is done |
| `Failures.TwoQuestions` | mobile/src/dns_proxy.rs:228-238 | a reply that announces two questions and holds one |
| `Failures.EmptyPasswordDropped` | app/src/config.rs:155-167 | `user:` does not survive a share link |

## Left out

- Varint.Write: a value above the range is an error, but `len` panics on one; callers' lengths are taken to be encodable.
- Proxy.ParseUdp: the bytes of the address are kept; the code converts them with `from_utf8_lossy`, here and in both readers of TCP requests and responses, so that an address or message that is not UTF-8 is changed and can grow past 2048 bytes.
- Reassembly.Delivery: another message that uses the same packet id in the same session before the first one is complete is excluded: under the same address and count its fragments cannot be told apart on the wire, and otherwise it restarts the packet. What comes out in these cases is what `Reassembly.OutputSound` and `Reassembly.OutputIff` say. `UdpSession.ReceiveReturns` and `UdpSession.EndToEnd` exclude the same and no more; an id that is used again later is covered.
- Reassembly.SurvivesIffCountFitsU8: the wrap-around of a release build; a debug build panics instead.
- UdpSession.RunRouting: the session table, its channels and the reader task are a state machine on values rather than shared objects under a lock, and creating a session is one step; ids that wrap after 2^32 sessions are excluded.
- UdpSession.ReceiveReturns: taking a message from the channel and feeding it to the reassembler is one step; two concurrent calls of `receive` on one session could feed in another order.
- UdpSession.SendUdpMessage: the datagram limit does not change between the refusal and the split.
- Salamander.UnsealSeal: the BLAKE2b key is an arbitrary function of the salt, and salts are arguments.
- Controller.StepInv: the generation and attempt counters do not wrap, and a close report from an earlier client of the same generation is indistinguishable from one of the current client.
- Controller.RuntimeController.Handle: status and log messages, graceful closing and the request that stops the Android service have no effect on the modelled state.
- Limiter.RateBound: time and tokens are reals; the rounding of `f64` and of `Duration` is not modelled.
- Limiter.BandwidthLimiter.WaitFor: the endless loop is followed for any given number of rounds; that a caller returns is proved when it is alone, because others can starve it.
- ChunkedCoding.RfcBodyDelimitedIff: of a body with a chunk of exactly 2^64 - 2 or 2^64 - 1 bytes it says nothing; the code goes on inside the data of that chunk (`ChunkedCoding.WrapLeads`), which can be such that it ends in the right place by accident.
- Speedtest.RunsComplete: tests that are limited by size; the time-limited ones end on a clock.
- Userinfo.AuthRoundTripIff: of the URL parser only what it does to user information is modelled: it splits at the first colon, may escape more bytes other than letters, digits and the percent sign, and treats an empty password as none.
- I/O errors other than the end of a stream end the operation in the code and are not modelled.
- QUIC, TLS, HTTP/3 authentication and congestion control.
- The server's UDP loop, TCP outbounds, SOCKS5, forwarding entries and the benchmark tools, which add more of the same kinds of loops.
- YAML configuration and its validation, and the mobile user interface and Android bridge.
- Header rewriting and body-kind selection of the HTTP proxy.
