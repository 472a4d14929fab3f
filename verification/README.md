# Verification of the ST 2022-6 replayer

This project models the replayer in Dafny 4.11 and proves what its parts promise, each on its
own and together: a capture of two ST 2022-7 legs is merged and cut into frames, frames wait in
a ring, their timecode is rewritten in place, they are packetised again and sent on two legs
with a controlled delay between them; pictures are built into SDI rasters and parsed out of
them; and the NMOS node prints and reads JSON, announces itself by multicast DNS and takes
IS-05 requests. `dafny verify dfyconfig.toml` checks everything.

| files | part of the system |
|---|---|
| `Gf2`, `Crc`, `Bitpack`, `Uyvy` | bit algebra, CRC-18, ten-bit packing and eight-bit samples, with the fast forms against the simple ones |
| `Merge`, `FrameCutter`, `PcapSource`, `FrameRing` | the two-leg merge, the frame cutter, the producer thread, the ring to the transmitter |
| `Hbrmt`, `HbrmtBuffer`, `Packetise`, `RasterCheck` | RTP and HBRMT datagrams, packetisation, packetise-then-cut, the raster check |
| `Impair`, `TxRing`, `Skew`, `Pacer`, `Transmit` | impairments, the two-cursor transmit ring, the skew controller, the pacer, and the transmit loop put together |
| `SdiFormat`, `SdiLine`, `StreamParser`, `RasterRoundTrip`, `FrameBuilder`, `RasterWords` | formats, lines, the incremental parser, the round trip, the frame builder, what the words of a frame put out are |
| `Timecode`, `Atc`, `AtcRewriter` | ancillary timecode, its rewriting with CRC repair, the rewriter on a live frame |
| `Json`, `JsonText`, `JsonRoundTrip`, `JsonFacts` | the JSON value, the printer and reader, the round trip, what texts read as |
| `Mdns`, `MdnsService`, `MdnsCodec`, `MdnsWire` | DNS messages (RFC 1035, section 4.1; RFC 6762, sections 8.3 and 10.1), TXT data (RFC 6763, section 6), the writer and reader, the bytes on the wire |
| `Is05`, `Is05Answers` | the staged and active sides of an AMWA IS-05 v1.1 sender, and its answers |

A specification function says what a piece of code computes; a method beside it has the loops,
buffers and fields of the original and is proved to compute just that; lemmas prove about the
function what the original promises. Objects with state are classes. Sections that the
original runs under a lock are methods, and threads are arbitrary schedules of them. Random
draws are arbitrary choices within their range, clocks are arbitrary readings, and doubles are
real numbers.

## Where the code and its documentation differ

- A leg need not survive reordering within it: reading stops at the first number above the
  cursor, so what comes later with a lower number is lost
  (`common/include/pcapreplay/pcap_source.h:61`, `common/src/pcap_source.cpp:68`). `Merge.ReorderedIsLost` is such a leg, and
  `Merge.LookupAnyOrder` says exactly when a number is found, whatever the order and however often
  the leg carries it.
- A blue leg that begins before red's number zero is lost for the whole pass, because the
  unwrapping is unsigned, and it keeps the pass from ending with the captures: past red's end
  the cursor counts holes through nearly the whole unsigned space. `Merge.BlueBelowZeroIsLost`,
  `Merge.BlueOneEarlier`, `Merge.BlueBelowZeroNeverEnds`, `FrameCutter.BlueBelowZeroHasNoFullEnd`;
  `Packetise.EndsWithCaptures` says exactly when a pass over a replay's captures ends with them.
- A forced release is called unreachable (`common/src/replay_engine.cpp:493`), but the pacer may catch up half a
  second in a burst, which can fill a ring of the depth the engine gives it:
  `Transmit.CatchUpOverruns`. `Transmit.RunControlled` says exactly when a run under the skew
  controller, fixed or moving, forces a release, and `Transmit.RunSized` that none does while the
  batches are never more than 127 ahead of the rate. Nothing is overwritten when one is forced
  (`TxRing.TransmitRing.Iterate`), and without skew none is (`TxRing.TransmitRing.RunUnskewed`).
- Even parity in b8 of the timecode words is described (`common/src/replay_engine.cpp:28`) and not written:
  `Timecode.ParityIsNotWritten`, `Timecode.ParityFails`.
- The frame tens have two bits, so above forty frames a second some times read back wrong:
  `Timecode.TimeReadsBack` and `Timecode.AllTimesReadBack` say which.
- A capture whose every frame fails can be looped early for ever without the failure that a
  full pass would report: `PcapSource.FailingForEver`. `PcapSource.Run` says exactly when the
  failure is reported.
- The repeat of a frame is the frame as the transmitter left it, timecode written in, since it
  patches the frame in the ring itself (`common/src/replay_engine.cpp:523`): `FrameRing.Interleave`.
- Timecode packets found again after a change of layout are never told apart, since that is
  done at the second frame of a run only (`common/src/replay_engine.cpp:529`): all of them get the time of day.
  `AtcRewriter.Rewriter.RewriteStream` and `AtcRewriter.NeverToldAgain` say exactly which frames have
  told sites, and `AtcRewriter.LayoutMoves` is such a stream.
- The search is there so that rewriting does not stop silently (`common/src/replay_engine.cpp:219`), but
  25 frames without any packet stop it for good, since the search then finds none and without
  sites none is made again: `AtcRewriter.LooksAgain`, `AtcRewriter.StopsForGood`,
  `AtcRewriter.GappedIsLost`.
- The rewriter does not look where a packet ends. A packet found late in a line can end past
  the block it is unpacked in; `AtcRewriter.SiteFitsExactly` says which do,
  `AtcRewriter.LateInLine` is one, and rewriting a packet is specified for those that do not.
- On SD the check of a captured frame is said to pin the vertical timing as firmly as the line
  numbers of HD do (`common/src/pcap_source.cpp:384-386`). It does not: a frame moved by any number of
  lines passes unless it begins inside a field after its first line: `RasterCheck.MovedPasses`.
- On SD the first frame handed on lacks its top row, since the line count is only known once
  that row's line has ended: `RasterRoundTrip.ShownIsExact`.
- The staged side is said to mirror what is live when nothing is staged
  (`nmos/src/nmos_node.cpp:816`), but the receiver is not mirrored: `Is05.ReceiverMustBeNamedAgain`.
  `rtp_enabled` is one flag for both legs and has no effect on an activation: `Is05.RtpHasNoSay`;
  `Is05.MergeKeepsRtp` says exactly when the order of requests shows in it. A port outside
  sixteen bits is cut to them rather than refused: `Is05.PortIsCut`.
- TXT entries longer than 255 bytes are cut, so that a valueless key of just 255 bytes survives
  only because its equals sign is what is cut off; an equals sign in a key is taken for the one
  after it: `MdnsService.TxtReadsBack`, `MdnsService.EqualsInKey`.
- A JSON object that holds a key twice does not read back as itself: `JsonRoundTrip.RepeatedKey`.

## Model

| member | source | states |
|---|---|---|
| Merge.AbsNearExact | common/src/pcap_source.cpp:26-29 | a number within half the 16-bit space of the reference is recovered exactly from its 16 bits |
| Merge.AbsNearBelowZero | common/src/pcap_source.cpp:26-29 | a number that should fall below zero comes out near the top of the unsigned space instead |
| Merge.NumberedRecovers | common/src/pcap_source.cpp:92-126 | unwrapping recovers every true number of a leg whose neighbours are within half the 16-bit space, over any number of wraps |
| Merge.ReachStops | common/src/pcap_source.cpp:66-73 | reading forward stops at the first datagram above the cursor, and nothing before it was |
| Merge.ReachAgain | common/src/pcap_source.cpp:66-73 | reading on from where an earlier cursor stopped ends where reading from the start would |
| Merge.Lookup | common/src/pcap_source.cpp:80-85 | what the window answers for a number is never a datagram with another number |
| Merge.LookupExact | common/src/pcap_source.cpp:80-85 | on a climbing leg the datagram at the cursor is found if and only if the next one, read just before, did not take its slot; otherwise nothing is found |
| Merge.LookupAnyOrder | common/src/pcap_source.cpp:66-85 | in whatever order a leg carries its numbers, and however often each: when the cursor comes to a number it is found if and only if some copy of it had nothing above it before it and nothing read with it after it into its slot, and what is found is that copy |
| Merge.ReorderedIsLost | common/src/pcap_source.cpp:66-85 | a leg numbered 5, 7, 6 carries a 6 that is not found |
| Merge.LookupAbsent | common/src/pcap_source.cpp:80-85 | a number the leg does not carry is never found |
| Merge.SmallJumpsAreFollowable | common/src/pcap_source.cpp:66-85 | jumps below the window are enough for every number to be found |
| Merge.CaptureIsFollowable | common/src/pcap_source.cpp:66-126 | a capture with climbing numbers, jumps below the window and below half the 16-bit space is numbered truly and loses nothing to the window |
| Merge.MergeExact | common/src/pcap_source.cpp:472-520 | at each number the merge delivers red's datagram if red has it, else blue's if blue has it, else a hole |
| Merge.ExhaustedExactlyAbove | common/src/pcap_source.cpp:76-78 | the captures are found to be at their end at the first number above the highest either leg carries, and not before |
| Merge.BlueBelowZeroIsLost | common/src/pcap_source.cpp:26-29 | a blue leg that starts below zero relative to red is never consulted for the rest of the pass |
| Merge.BlueOneEarlier | common/src/pcap_source.cpp:26-29 | red from 0 and blue from 65535 on: the datagram 0 that blue carries is not found |
| Merge.BlueBelowZeroNeverEnds | common/src/pcap_source.cpp:76-78 | with such a blue leg the captures are not at their end anywhere below its first number, though past red's last number there are only holes |
| FrameCutter.BlueBelowZeroHasNoFullEnd | common/src/pcap_source.cpp:495-517 | with such a blue leg a pass ends early, or only after nearly the whole unsigned space |
| FrameCutter.CollectedIsRun | common/src/pcap_source.cpp:515-546 | a collection in progress is exactly the payloads of a hole-free run of datagrams strictly after a marker |
| FrameCutter.TallyBalances | common/src/pcap_source.cpp:515-546 | collections begun are the frames produced, those rejected for raster, length or a hole, and the one in progress |
| FrameCutter.CutBetweenMarkers | common/src/pcap_source.cpp:519-539 | two markers with only plain datagrams between give one candidate, the bytes after the first up to and with the second; its frame-size prefix comes out if and only if it is long enough and passes the raster check |
| FrameCutter.NoCutElsewhere | common/src/pcap_source.cpp:515-546 | no frame comes out anywhere else |
| FrameCutter.FullPassVisitsAll | common/src/pcap_source.cpp:472-546 | on followable legs a pass without early restart visits every number once and in order, from the first of red to the last of either leg |
| FrameCutter.LengthEnds | common/src/pcap_source.cpp:495-546 | every pass ends, by an early restart or at the end of the captures, and not before its length |
| FrameCutter.BadSinceLast | common/src/pcap_source.cpp:515-546 | the count that ends a pass early is that of the unusable frames since the last one that came out, or since the start |
| PcapSource.LockIsStable | common/src/pcap_source.cpp:54-126 | the destination lock that survives a rewind does not change what is accepted on the next pass |
| PcapSource.AcceptedAre | common/src/pcap_source.cpp:92-126 | from a fresh start the datagrams a leg accepts are the usable records of the capture that go where the first usable one goes, in order |
| PcapSource.MergeLeg.Rewind | common/src/pcap_source.cpp:54-60 | a rewind puts the reader back to the start and keeps the lock, the first number and what the slots hold |
| PcapSource.MergeLeg.ReadOne | common/src/pcap_source.cpp:92-126 | one call reads the next accepted datagram, numbers it and puts it in its slot, or reports the end |
| PcapSource.MergeLeg.Fill | common/src/pcap_source.cpp:66-73 | the leg has been read exactly as far as the first datagram above the cursor, or to its end |
| PcapSource.MergeLeg.Find | common/src/pcap_source.cpp:80-85 | the window is looked up as its specification says, and stale slots of earlier passes never answer |
| PcapSource.Position | common/src/pcap_source.cpp:474-500 | both legs stand just ahead of the cursor; the first time the cursor is set to red's first number, and there is none exactly when red carries nothing usable |
| PcapSource.Take | common/src/pcap_source.cpp:500-520 | one slot: red, else blue, else a hole, and whether both legs are at their end |
| PcapSource.Digest | common/src/pcap_source.cpp:515-546 | what one slot does to the collection, the counters and the frames pushed; a stop inside a push leaves them as they were |
| PcapSource.Run | common/src/pcap_source.cpp:472-546 | wherever it is left: the frames pushed are those of whole passes followed by those of the pass in progress, and the books say so; a full restart is made only if a pass yields frames; not stopped and with turns for a pass, it gives up if and only if a pass runs to the end of the captures and yields none |
| PcapSource.FailingForEver | common/src/pcap_source.cpp:495-546 | two marker datagrams, no frame long enough and one failure tolerated: every pass ends early, so the run goes on for ever without a frame and without giving up |
| PcapSource.BooksBalance | common/src/pcap_source.cpp:419-546 | in every reachable state collections begun are those produced, rejected, abandoned by a restart, or in progress |
| PcapSource.LoopedFrames | common/src/pcap_source.cpp:427-437 | loop determinism: after any number of full or early restarts the frames pushed are one pass's frames over and over in order |
| FrameRing.Ring.Push | common/src/pcap_source.cpp:458-470 | a push waits while the ring is full, and otherwise appends the frame without touching the slot that is checked out |
| FrameRing.Ring.NextBegin | common/src/pcap_source.cpp:288-317 | the first locked section of `next`: nothing, a repeat of the frame held, the next frame, or the retirement of the frame held |
| FrameRing.Ring.NextFinish | common/src/pcap_source.cpp:288-317 | after the lock was dropped and taken again the consumer gets the oldest frame not retired, whatever the producer did meanwhile |
| FrameRing.Ring.Edit | common/src/replay_engine.cpp:523-535 | the transmitter writes over the frame it has out, and no frame that waits changes |
| FrameRing.Ring.ReleaseAll | common/src/pcap_source.cpp:319-328 | the frame held is given back and nothing else changes |
| FrameRing.PlaceIsMod | common/src/pcap_source.cpp:288-328 | head is tail plus count modulo the depth |
| FrameRing.Interleave | common/src/pcap_source.cpp:288-328 | under every interleaving of the producer's and the consumer's sections, with edits of the frame that is out in between: the frames pushed are those of the pushes taken, and the consumer is given them in order from the first, with repeats but no skip, each as it was pushed when first given and as it left it when repeated |
| Hbrmt.ReadWriteRtp | common/src/hbrmt.cpp:23-47 | an RTP header in range reads back as written |
| Hbrmt.ReadWriteHbrmt | common/src/hbrmt.cpp:64-104 | an HBRMT header in range reads back as written, with and without its video timestamp |
| Hbrmt.ParseBuild | common/src/hbrmt.cpp:108-134 | a datagram parses back to the headers and payload it was built from |
| Hbrmt.RtpOnWire | common/src/hbrmt.cpp:23-34 | where in the twelve bytes each RTP field stands, in network order (section 5.1 of RFC 3550) |
| Hbrmt.HbrmtOnWire | common/src/hbrmt.cpp:64-79 | where in the eight or twelve bytes each HBRMT field stands, and that the video timestamp is there exactly if the clock frequency is not 0 |
| Hbrmt.ParsesExactly | common/src/hbrmt.cpp:36-134 | a datagram is taken if and only if it is long enough for its headers as its own first bytes describe them and of version 2, and the payload is all that follows them |
| HbrmtBuffer.WriteRtpHeader | common/src/hbrmt.cpp:23-33 | twelve bytes of the buffer become the header and no others change |
| HbrmtBuffer.WriteHbrmtHeader | common/src/hbrmt.cpp:64-79 | eight or twelve bytes of the buffer become the header and no others change |
| HbrmtBuffer.BuildDatagram | common/src/hbrmt.cpp:108-119 | a datagram that fits is written and its length returned; one that does not leaves the buffer alone and returns zero |
| HbrmtBuffer.BuiltParses | common/src/hbrmt.cpp:108-134 | what was built into a buffer parses back from it wherever it lies, and its surroundings are untouched |
| Packetise.PacketiseAll | common/src/replay_engine.cpp:515-565 | however the credit comes, the batches built run together are the datagrams of the frames in order under consecutive sequence numbers, each batch as long as its credit |
| Packetise.BuildNext | common/src/replay_engine.cpp:539-564 | one datagram: its chunk, zero-padded at the end of a frame, the marker on the last, and both timestamps from the frame index |
| Packetise.DatagramSays | common/src/replay_engine.cpp:515-565 | any byte of any datagram parsed back: 1376 bytes of payload, the sequence number, both timestamps and the frame count cut to their widths, the marker on the last chunk only, the padding zero |
| Packetise.WireDecodes | common/src/replay_engine.cpp:515-565 | every datagram built is a usable one to the capture reader, with the sequence number of its place |
| Packetise.ChunksJoin | common/src/replay_engine.cpp:552-560 | the chunks of a frame joined begin with the frame |
| Packetise.LegOfCapture | common/src/pcap_source.cpp:92-126 | a capture that lost datagrams is numbered by the places in the stream of those it kept, counted from where the 16-bit sequence was last zero before red began, whatever the wraps |
| Packetise.NeverBad | common/src/pcap_source.cpp:419-437 | no prefix of a complete stream causes an early restart |
| Packetise.PacketiseThenCut | common/src/replay_engine.cpp:515-565 | frames packetised, then lost on each leg as one likes so long as the other leg has what is missing from where red begins, wherever in the stream that is, merged and cut: one pass ends with the captures and gives back exactly the frames after the one in which red begins, unless blue begins below red's number zero |
| Packetise.EndsWithCaptures | common/src/pcap_source.cpp:26-126 | such a pass ends with the captures if and only if blue does not begin below the number zero that red's sequence counts from |
| Packetise.LoopedReplay | common/src/pcap_source.cpp:427-546 | a replay of such a capture, wherever in the stream it begins, pushes those frames over and over for as long as it runs |
| RasterCheck.Check | common/src/pcap_source.cpp:390-414 | a frame passes if and only if every line is headed as the check wants it and, on SD, V falls as often as there are fields |
| RasterCheck.OwnHeadsPass | common/src/pcap_source.cpp:390-414 | a frame whose every line starts with that line's own EAV passes, on every format of the table |
| RasterCheck.PassingLine | common/src/pcap_source.cpp:390-407 | a line is passed for exactly these words of its head: on HD the doubled preamble and the line number in seven and four bits, on SD the preamble and a timing word with bits 9 and 6 set |
| RasterCheck.FallsAreFields | common/src/pcap_source.cpp:408-412 | on SD, for frames whose lines carry the heads of any lines in any order, the V flag read off the blocks falls once for each field that begins |
| RasterCheck.PassesExactly | common/src/pcap_source.cpp:390-414 | a frame whose blocks carry the heads of any lines in any order passes, on HD, if and only if each carries its own, and on SD if and only if two fields begin |
| RasterCheck.MovedFields | common/src/pcap_source.cpp:408-412 | how many fields begin in a frame moved by any number of lines |
| RasterCheck.MovedPasses | common/src/pcap_source.cpp:384-414 | no moved HD frame passes, and a moved SD frame passes if and only if it does not begin inside a field after its first line: the check does not pin the timing there |
| Impair.Draw | common/src/replay_engine.cpp:453-464 | whatever is drawn, the order is the one its fates spell out, the glitch left over is theirs, and the counters count them |
| Impair.SendRuns | common/src/replay_engine.cpp:470-477 | the runs of consecutive datagrams, one call each, put out exactly the order, datagram for datagram |
| Impair.Emit | common/src/replay_engine.cpp:451-478 | what goes out is the batch in the drawn order with at most one neighbouring pair swapped, and only if reordering is on |
| Impair.Ledger | common/src/replay_engine.cpp:451-478 | sent and dropped make up built and duplicated |
| Impair.EachAsFated | common/src/replay_engine.cpp:451-478 | each datagram goes out as often as its fate says, swap or no swap |
| Impair.Untouched | common/src/replay_engine.cpp:451-478 | with the impairments off and no glitch running a batch goes out as built |
| Impair.GlitchRunsOn | common/src/replay_engine.cpp:455-460 | a glitch takes at least four datagrams in a row, as many as it drew |
| Impair.FatedJoins | common/src/replay_engine.cpp:451-464 | a glitch runs on over the edge of a batch |
| TxRing.TransmitRing.Build | common/src/replay_engine.cpp:512-573 | a batch goes into the next slot, whole, disturbing no batch a leg has still to send |
| TxRing.TransmitRing.ForceOldest | common/src/replay_engine.cpp:492-510 | a full ring gives up its oldest slot only by sending it on every leg that still owes it, which the overrun counter counts |
| TxRing.TransmitRing.Release | common/src/replay_engine.cpp:582-595 | a leg sends every batch that is due and stops at the first that is not |
| TxRing.TransmitRing.Iterate | common/src/replay_engine.cpp:496-598 | one turn of the loop: no slot is overwritten before both legs have sent it, the oldest batch is forced out if and only if no slot is free, and each leg goes on from there to the first batch not yet due and holds it; each batch sent was forced or due at this reading and delay |
| TxRing.TransmitRing.RunHeld | common/src/replay_engine.cpp:492-598 | with delays that may move but grow no faster than the clock, which does not run backwards, no release is forced if and only if at every batch the last as many batches as there are slots took at least the longer delay of that moment to build |
| TxRing.TransmitRing.RunUnskewed | common/src/replay_engine.cpp:579-598 | with no skew and a clock that does not run backwards every batch leaves in the turn that built it, on both legs, and no release is forced |
| TxRing.CleanLegIsPrefix | common/src/replay_engine.cpp:568-598 | with the impairments off a leg has sent exactly the batches up to its cursor, byte for byte and each once, forced or not |
| TxRing.LegLedger | common/src/replay_engine.cpp:451-510 | on each leg what went out and what was dropped make up what was built and what was duplicated, over the whole run |
| TxRing.LegFates | common/src/replay_engine.cpp:451-510 | the fates of a leg over all its batches are those of one long batch |
| TxRing.BuildKeepsHeld | common/src/replay_engine.cpp:492-513 | once both legs are within the ring of the next slot, building into it leaves every waiting batch whole |
| Transmit.BurstOverruns | common/src/replay_engine.cpp:492-510 | more batches than slots, the first of them built faster than a leg is held, force a release; one batch more than there are slots forces just one |
| Transmit.OneSlotOverruns | common/src/replay_engine.cpp:492-510 | one slot, two batches at one reading and a held leg: one forced release |
| Transmit.DepthAndCatchUp | common/src/replay_engine.cpp:397-404 | at 1080i50 and 10 ms of skew the ring is 158 slots deep, and what the pacer may catch up fills 1466 batches |
| Transmit.CatchUpOverruns | common/src/replay_engine.cpp:482-510 | a ring of that depth overruns when 159 full batches are granted at one reading, as the pacer grants them after a stall |
| Transmit.Controlled | common/include/pcapreplay/skew.h:100-125 | the delays read off the controller at each reading of the clock are those of its specified run |
| Transmit.DelaysFollow | common/include/pcapreplay/skew.h:72-125 | over any run of the controller, whatever it draws, both delays grow no faster than the clock and neither is longer than the largest skew configured |
| Transmit.RunControlled | common/src/replay_engine.cpp:482-598 | a whole run under the controller, in fixed or window mode: no release is forced if and only if the ring outlasts the delay of every moment; none is if any as many batches as slots take as long as the largest skew, and at a fixed skew on two legs only then |
| Transmit.DepthSuffices | common/src/replay_engine.cpp:388-404 | at the depth the engine gives it the ring outlasts the largest skew so long as the batches never run more than 127 ahead of the rate |
| Transmit.RunSized | common/src/replay_engine.cpp:388-598 | so, at any accepted setting and however the skew moves, the engine forces no release while that is so |
| Transmit.SendStream | common/src/replay_engine.cpp:482-598 | a stream packetised as the credit comes and sent without skew and impairments is on both legs datagram for datagram, whatever its batches were |
| Skew.RunStaysInRange | common/include/pcapreplay/skew.h:88-117 | over any run the differential stays between the configured bounds |
| Skew.RunIsSlow | common/include/pcapreplay/skew.h:100-117 | between any two moments of a run the differential moves by at most the slew rate times the time between |
| Skew.OneLegIsHeld | common/include/pcapreplay/skew.h:119-125 | at most one leg is held, and never longer than the largest configured skew |
| Skew.DueStaysDue | common/include/pcapreplay/skew.h:72-125 | because the accepted slew is at most a second a second, a batch once due on a leg stays due on it |
| Skew.Slews | common/include/pcapreplay/skew.h:100-117 | while the target is out of reach the differential has moved toward it by exactly the slew times the time gone, whatever the readings between |
| Skew.Arrives | common/include/pcapreplay/skew.h:100-117 | the target is reached at the first reading at which the slew times the time gone covers the distance, exactly, and the dwell is drawn there |
| Skew.Dwells | common/include/pcapreplay/skew.h:100-117 | at its target the controller stands until the drawn dwell is over, and in fixed mode for ever |
| Skew.DrawsAgain | common/include/pcapreplay/skew.h:100-117 | the first reading after the dwell draws the next target, uniform in the window |
| Skew.HalfWay | common/include/pcapreplay/skew.h:100-117 | half a second at ten milliseconds a second moves the differential from 0 to 5 ms |
| Skew.Limits | common/include/pcapreplay/skew.h:72-84 | where the accepted settings end: a second of skew either way, a slew above 0 and up to 1000 ms a second, a dwell of 0 to 3600 seconds |
| Skew.SkewController.Start | common/include/pcapreplay/skew.h:88-98 | the controller opens at its target: the fixed skew, or the drawn point of the window, with no dwell left |
| Skew.SkewController.Advance | common/include/pcapreplay/skew.h:100-117 | one call moves the state as the specification of a step says |
| Pacer.SpinPacer.Start | common/src/pacer.cpp:118-142 | a started pacer has issued nothing and owes nothing |
| Pacer.SpinPacer.Reading | common/src/pacer.cpp:159-217 | one reading of the clock: the debt beyond the limit is forgiven, then up to a burst is granted if anything is due |
| Pacer.SpinPacer.Acquire | common/src/pacer.cpp:159-217 | spinning on any readings ends with the first that has something due, or with none |
| Pacer.GrantIsBounded | common/src/pacer.cpp:159-217 | a grant is 1 to the burst limit exactly when something is due, never runs ahead of the schedule, and forgives only what is beyond the limit |
| Pacer.Schedule | common/src/pacer.cpp:159-176 | what is due is the whole part of time times rate, and the debt kept is half a second of it |
| Pacer.KeepsUp | common/src/pacer.cpp:159-217 | polled often enough for what falls due between to fit a burst and the debt limit, the pacer has issued exactly what is due and forgives nothing |
| Pacer.FullBurst | common/src/pacer.cpp:159-217 | with a burst or more owed the grant is the full burst, and what is owed beyond the limit is forgiven |
| Pacer.RunBalances | common/src/pacer.cpp:159-217 | issued is granted plus forgiven in every reachable state |
| Pacer.CatchUpBurst | common/src/pacer.cpp:159-217 | after a stall the pacer grants full bursts at one reading until the catch-up limit is used up |
| Pacer.IssuedOutrunsGranted | common/src/pacer.cpp:159-217 | over any stretch of a run what is granted is at most what is issued |
| Pacer.TokenBucket | common/src/pacer.cpp:159-217 | between any two grants, whatever the clock did, the packets released are fewer than those scheduled plus the catch-up limit |
| Crc.Reflect18 | common/include/pcapreplay/crc.h:50-55 | the loop mirrors the eighteen bits of the register |
| Crc.FeedIsSpins | common/src/crc.cpp:50-62 | feeding bits is adding them mirrored at the top of the register and letting it spin |
| Crc.StepDivides | common/include/pcapreplay/crc.h:20-26 | one step of the register shifts it up by one and takes the register size and the polynomial off it exactly if the bit out and the bit in differ |
| Crc.CrcIsRegistered | common/src/crc.cpp:50-62 | the CRC of words is what the register holds after their bits, low bit of the first word first |
| Crc.CrcIsRemainder | common/src/crc.cpp:50-62 | the CRC of any words from any start is the one remainder below x^18 of dividing over GF(2), by x^18 + x^5 + x^4 + 1, the message times x^18 plus the start register shifted up by the length of the message |
| Crc.CarrierBits | common/src/crc.cpp:80-86 | which bit of the CRC each bit of the two carrier words is, with b9 the complement of b8 |
| Crc.SpinLinear | common/src/crc.cpp:50-62 | a step of the register is linear over GF(2) |
| Crc.SpinInjective | common/src/crc.cpp:50-62 | two states that step to the same state are the same |
| Crc.SpinOnto | common/src/crc.cpp:50-62 | every eighteen-bit state is stepped to, so a step is a bijection |
| Crc.TableStepCorrect | common/src/crc.cpp:16-46 | one table lookup is ten steps of the register, for every register and word |
| Crc.Tables.constructor | common/src/crc.cpp:16-34 | the loops build the tables the step needs |
| Crc.Crc18Bitwise | common/src/crc.cpp:50-62 | the bit loop computes the CRC, reduced to eighteen bits when there is nothing to feed |
| Crc.Crc18Table | common/src/crc.cpp:64-70 | the table loop computes the same CRC as the bit loop, for every word sequence and start state |
| Crc.Crc18Strided | common/src/crc.cpp:72-78 | the strided loop computes the CRC of the gathered words |
| Crc.CrcAppend | common/src/crc.cpp:50-70 | the CRC of a concatenation continues from the CRC of its first part |
| Crc.SingleWordError | common/src/crc.cpp:50-70 | two lines that differ in one word have the same CRC if and only if its ten bits are the same in both |
| Crc.SingleWordErrorOnWire | common/src/crc.cpp:80-86 | such an error always changes the carrier words |
| Crc.CarrierRoundTrip | common/src/crc.cpp:80-92 | a CRC is read back from its two carrier words |
| Crc.CarriersAreLegal | common/include/pcapreplay/crc.h:73-76 | a carrier word is never a timing-reference word |
| Crc.AncChecksum | common/src/crc.cpp:94-99 | the checksum is the nine-bit sum with b9 the complement of b8 |
| Crc.ChecksumIsSum | common/src/crc.cpp:94-99 | the checksum is the sum of the words to nine bits, under a tenth bit that is not the ninth |
| Bitpack.ScalarBytesCorrect | common/src/bitpack.cpp:14-27 | the five bytes of the scalar code are the 40-bit number of its four words |
| Bitpack.ScalarWordsCorrect | common/src/bitpack.cpp:29-39 | the four words of the scalar code are the 40-bit number of its five bytes |
| Bitpack.ScalarPack10 | common/src/bitpack.cpp:14-27 | whole groups are packed and nothing after them is touched |
| Bitpack.ScalarUnpack10 | common/src/bitpack.cpp:29-39 | whole groups are unpacked and nothing after them is touched |
| Bitpack.UnpackPack | common/src/bitpack.cpp:14-39 | unpacking undoes packing, up to the ten bits of a word |
| Bitpack.BitsInOrder | common/src/bitpack.cpp:14-39 | the bits of the packed bytes, from the top of each, are those of the words, from the top of each, in order |
| Bitpack.PackUnpack | common/src/bitpack.cpp:14-39 | packing undoes unpacking |
| Bitpack.FastPack10 | common/src/bitpack_avx2.cpp:25-55 | the packer with overlapping eight-byte stores, on any number of words, packs the whole groups as the scalar one does and stores nowhere outside its room; on whole groups that is exactly their bytes |
| Bitpack.PackBulk | common/src/bitpack_avx2.cpp:25-42 | the bulk loop, on any number of words: where its last store ends |
| Bitpack.FastUnpack10 | common/src/bitpack_avx2.cpp:57-82 | the unpacker with overlapping eight-byte loads, on any number of words, unpacks the whole groups as the scalar one does and reads nothing outside its room; on whole groups that is exactly their bytes |
| Bitpack.UnpackBulk | common/src/bitpack_avx2.cpp:57-71 | its bulk loop, on any number of words: where its last load ends |
| Bitpack.BulkFits | common/src/bitpack_avx2.cpp:25-71 | that end, of the last store or load, lies within the packed bytes if and only if there are whole groups, or too few words for a bulk one |
| Bitpack.PackAppend | common/src/bitpack.cpp:14-27 | packing two runs of whole groups is packing them one after the other |
| Uyvy.ScalarToWords | common/src/bitpack.cpp:41-45 | each sample becomes its word and nothing after them is touched |
| Uyvy.ScalarToSamples | common/src/bitpack.cpp:47-51 | each word becomes its sample and nothing after them is touched |
| Uyvy.FastToWords | common/src/bitpack_avx2.cpp:84-96 | sixteen samples at a time, the widening form writes what the scalar one does, for every length |
| Uyvy.VectorNarrows | common/src/bitpack_avx2.cpp:104-111 | the permutation undoes the interleaving of lanes and the saturation never bites |
| Uyvy.FastToSamples | common/src/bitpack_avx2.cpp:98-115 | thirty-two words at a time, the narrowing form writes what the scalar one does, for every length and every 16-bit word |
| Uyvy.WordsOfSamples | common/src/bitpack.cpp:41-51 | going to samples and back gives a word if and only if it has ten bits and its two lowest are clear |
| FrameBuilder.PackChunks | common/src/sdi_raster.cpp:200-216 | packing chunks in any order packs the whole, no byte shared between two of them |
| SdiFormat.TableIsWellFormed | common/src/sdi_format.cpp:50-160 | every format of the table meets what the rasters rely on |
| SdiFormat.SampleClocks | common/src/sdi_format.cpp:50-160 | every SD format runs at 13.5 million samples a second, every HD one at 74.25 or 148.5 million when its rate is whole |
| SdiFormat.PictureLines | common/src/sdi_format.cpp:50-160 | the lines each raster has, and where its fields or its picture begin and how long they are |
| SdiFormat.RowsInOrder | common/src/sdi_format.cpp:219-261 | the lines of a field carry its rows in order, the first field the even rows and the second the odd ones |
| SdiFormat.RowsAndLines | common/src/sdi_format.cpp:219-261 | rows and the lines that carry them correspond one to one, the V flag marks exactly the lines without a row |
| SdiLine.XyzReads | common/src/sdi_raster.cpp:27-40 | the flags of a timing word read back |
| SdiLine.BitsAreXyz | common/src/sdi_raster.cpp:27-40 | the timing word is its bits, four of them protection |
| SdiLine.FlagBits | common/src/sdi_raster.cpp:343-388 | which bits of any word the flags are |
| SdiLine.TimingWords | common/src/sdi_raster.cpp:27-40 | the eight timing words |
| SdiLine.TimingWordsFarApart | common/src/sdi_raster.cpp:27-40 | two different timing words differ in at least four bits |
| SdiLine.LineNumberRoundTrip | common/src/sdi_raster.cpp:42-54 | a line number of up to eleven bits reads back from its two words |
| SdiLine.EavIs | common/src/sdi_raster.cpp:308-341 | what words are taken for an EAV |
| SdiLine.EavOnlyAfterActive | common/src/sdi_raster.cpp:308-341 | the parser sees an EAV in a line exactly where the active words end, whatever the picture |
| StreamParser.SdiStreamParser.FindBytePhase | common/src/sdi_raster.cpp:259-299 | the phase taken is the first at which an EAV is seen in the bytes scanned |
| StreamParser.ScanIsTwoLines | common/src/sdi_raster.cpp:263-266 | the phase is looked for in two lines and sixty-four words, and not before five more bytes than those are there |
| StreamParser.SdiStreamParser.FindLineLock | common/src/sdi_raster.cpp:308-341 | the words before the first EAV are dropped; if there is none, what could still begin one is kept |
| StreamParser.SdiStreamParser.ConsumeLine | common/src/sdi_raster.cpp:343-413 | one unit counts the line, places its row and hands on the frame it completes |
| StreamParser.SdiStreamParser.Feed | common/src/sdi_raster.cpp:415-468 | on any bytes, one call does what its specification says, and says whether the stream is being followed |
| StreamParser.SdiStreamParser.DrainLines | common/src/sdi_raster.cpp:440-468 | every whole unit is consumed and one that does not start as it should loses the lock |
| StreamParser.Resyncs | common/src/sdi_raster.cpp:440-468 | from words that are no line the parser goes on at the first EAV after them, with one error counted and the line count to be found again |
| RasterRoundTrip.CountStep | common/src/sdi_raster.cpp:357-388 | on SD the counted line is the true raster line in every state the stream leads to |
| RasterRoundTrip.FirstEavIsTrue | common/src/sdi_raster.cpp:259-341 | in any stream of pictures the first EAV seen is a true one |
| RasterRoundTrip.UnitStep | common/src/sdi_raster.cpp:343-413 | consuming the unit between two lines takes the assembled picture from one to the next |
| RasterRoundTrip.AnySplitting | common/src/sdi_raster.cpp:415-468 | after any bytes of a stream in any splitting the parser is waiting, or in step with every completed frame handed on right and no others |
| RasterRoundTrip.BuildPackParse | common/src/sdi_raster.cpp:103-217 | however the bytes of a stream are split up, the parser locks, makes no line error and hands on one frame a picture, in order |
| RasterRoundTrip.ShownIsExact | common/src/sdi_raster.cpp:343-413 | each frame is its picture exactly, but for the top row of the first on SD, which is blank |
| FrameBuilder.SdiFrameBuilder.BuildSkeleton | common/src/sdi_raster.cpp:103-164 | every line has its timing references, line number and blanking |
| RasterWords.TimingFlags | common/src/sdi_raster.cpp:103-164 | in the lines of a frame put out, the EAV of a line carries the F and V of that line and the SAV at its end those of the next, V clear in it exactly if the next line carries a row: the active portion lies between two timing words with the same flags |
| RasterWords.LinesAreMarked | common/src/sdi_raster.cpp:85-130 | every line begins with the EAV preamble and, on HD, its number, holds a SAV preamble where the blanking ends, and its timing words have H set and clear |
| RasterWords.LinesShowRows | common/src/sdi_raster.cpp:166-174 | the active words of a line that carries a row are the samples of that row, times four; those of any other are black |
| RasterWords.LinesAreBlankBetween | common/src/sdi_raster.cpp:85-130 | the words between the timing words are black level, 0x200 for chroma and 0x040 for luma |
| RasterWords.LineCarriesRemainder | common/src/sdi_raster.cpp:190-200 | on HD each line carries, for either stream, what remains of its words on division by x^18 + x^5 + x^4 + 1 |
| RasterWords.RewriterConfirms | common/src/sdi_raster.cpp:190-200 | the rewriter finds both CRCs right in the block of any line but the last of a frame put out |
| FrameBuilder.SdiFrameBuilder.WriteActiveUyvy8 | common/src/sdi_raster.cpp:166-174 | the lines that carry a row carry that row of the picture, the others are as they were |
| FrameBuilder.SdiFrameBuilder.FillCrcs | common/src/sdi_raster.cpp:190-200 | each line gets the CRCs of both its streams, in whatever order the lines are taken |
| FrameBuilder.SdiFrameBuilder.Finish | common/src/sdi_raster.cpp:190-218 | the packed frame depends on the picture shown and on nothing else, whatever order the work is done in |
| FrameBuilder.FramesAreWire | common/src/sdi_raster.cpp:147-218 | the frames the builder puts out one after another are the wire of their pictures |
| FrameBuilder.PicturesComeBack | common/src/sdi_raster.cpp:103-217 | build, pack, split anyhow, parse: every picture of a run comes back in order |
| Timecode.WriteAtc | common/src/replay_engine.cpp:61-70 | frames, seconds, minutes and hours go as units and tens into user words 0 and 2, 4 and 6, 8 and 10, 12 and 14; the frames read as such exactly if below forty; nothing else of the words changes |
| Timecode.DigitsWritten | common/src/replay_engine.cpp:61-70 | the same of the words written |
| Timecode.DigitsRead | common/src/replay_engine.cpp:72-76 | words with those digits, however they came about, read as ((h*60 + m)*60 + s)*fps + f |
| Timecode.ReadsBack | common/src/replay_engine.cpp:61-76 | what is read is what was written, but for the forties that two tens bits cannot hold |
| Timecode.FieldsAreFrames | common/src/replay_engine.cpp:47-57 | hours, minutes, seconds and frames of a count are that count within a day |
| Timecode.TimeReadsBack | common/src/replay_engine.cpp:47-76 | a time written reads back within a day if and only if its frame field is below forty |
| Timecode.AllTimesReadBack | common/src/replay_engine.cpp:47-76 | every time of day reads back if and only if the format has at most forty frames a second |
| Timecode.ParityIsNotWritten | common/src/replay_engine.cpp:28-70 | b8 is even parity exactly for the words whose data bits are even in number, since it is always clear |
| Timecode.ParityFails | common/src/replay_engine.cpp:28-70 | one written word with odd parity |
| Atc.PatchedPacket | common/src/replay_engine.cpp:170-200 | the patched packet has the new time and a right checksum |
| Atc.PatchedDigits | common/src/replay_engine.cpp:177-217 | in the patched frame the digits of the time stand in every fourth word from six behind the packet's DID, units and tens of frames, seconds, minutes and hours, and the checksum word is the nine-bit sum of the packet's words |
| Atc.OthersStay | common/src/replay_engine.cpp:188-192 | a site that no longer holds a timecode packet is left as it is |
| Atc.PatchLeaves | common/src/replay_engine.cpp:170-223 | a patch changes nothing but eight user words, the checksum and the four CRC words |
| Atc.PatchedCrc | common/src/replay_engine.cpp:200-215 | the CRCs of the patched line hold if the CRC model was confirmed, and otherwise if they held and the packet is in the blanking |
| Atc.PatchKeepsLineCrcs | common/src/replay_engine.cpp:170-223 | every line whose CRCs held before a patch holds after it, though a line's CRC lies in the next line's header |
| Atc.AllLineCrcsKept | common/src/replay_engine.cpp:170-223 | the same over all the sites of a frame: the frame stays valid |
| Atc.OnlySitesChange | common/src/replay_engine.cpp:170-223 | no word of the frame changes but those its sites may touch |
| Atc.EveryPacketIsPatched | common/src/replay_engine.cpp:170-223 | each packet among non-overlapping ones ends up with its own time and a right checksum, whatever was patched before and after it |
| Atc.PatchedTimeReadsBack | common/src/replay_engine.cpp:160-223 | read from the patched frame, a packet gives the time asked for within a day if and only if its frame field is below forty |
| AtcRewriter.PackSplices | common/src/replay_engine.cpp:205-220 | packing words back over a stretch of groups changes just those words of the frame |
| AtcRewriter.SiteFitsExactly | common/src/replay_engine.cpp:123-134 | a packet found fits the block it will be unpacked in if and only if its checksum lies before the block's end |
| AtcRewriter.LateInLine | common/src/replay_engine.cpp:123-134 | the shortest packet, in the last 28 words of a line, is found and does not fit |
| AtcRewriter.FoundFit | common/src/replay_engine.cpp:123-134 | all sites found in a frame fit if and only if all its packets end in their blocks |
| AtcRewriter.FoundSites | common/src/replay_engine.cpp:123-134 | the digits of every site found lie in the frame, its packet begins in its line, and none counts down yet |
| AtcRewriter.SitesAre | common/src/replay_engine.cpp:119-134 | a site is found at a word if and only if the preamble, DID and SDID of a timecode packet stand there and its count is 16 to 64, and it holds that count, the line of the word and the time read there |
| AtcRewriter.DigitsAreRead | common/src/replay_engine.cpp:72-76 | the time found at a site is the one its digits spell |
| AtcRewriter.Rewriter.Discover | common/src/replay_engine.cpp:112-156 | every packet of the frame is found with its line and count, and the CRC model is confirmed if and only if at least one line could be checked and every one of them holds |
| AtcRewriter.Rewriter.Classify | common/src/replay_engine.cpp:160-167 | a site is the countdown if and only if it reads less than at discovery |
| AtcRewriter.Rewriter.PatchOne | common/src/replay_engine.cpp:177-217 | one site of the live frame is patched in place as specified if a packet is still there, and else left alone; the one demand is that a packet that is there fits its block |
| AtcRewriter.Rewriter.Patch | common/src/replay_engine.cpp:170-223 | the frame afterwards is the one with all sites patched in turn; after 25 frames without a packet the sites are looked for again |
| AtcRewriter.Rewriter.RewriteStream | common/src/replay_engine.cpp:112-223 | discover, classify and patch over a whole stream whose packets end in their blocks: every frame goes out with the sites last found patched, found again in the frame that is the 25th in a row without any of them, and no packet is written past its block; a frame's sites have been told apart if and only if it is not the first and they are those of the first |
| AtcRewriter.RewrittenKeepsCrcs | common/src/replay_engine.cpp:112-223 | every line CRC that held in a frame of the stream holds in what goes out for it |
| AtcRewriter.NeverToldAgain | common/src/replay_engine.cpp:529 | a site gets the countdown if and only if it runs backwards, the frame is not the first, and the sites are still those of the first frame |
| AtcRewriter.LooksAgain | common/src/replay_engine.cpp:219-222 | the packets are looked for in a frame after the first if and only if it is the 25th in a row, since they were last found, to hold none of them |
| AtcRewriter.LayoutMoves | common/src/replay_engine.cpp:219-222 | packets where they were in the first frame and in none of the next 25: they are looked for in frame 25, and the sites found there are not told apart |
| AtcRewriter.StopsForGood | common/src/replay_engine.cpp:170-222 | once a search has found no packet none is ever made again |
| AtcRewriter.LostInAGap | common/src/replay_engine.cpp:219-222 | 25 frames without packets after the first end the rewriting: every later frame goes out as it is |
| AtcRewriter.GappedIsLost | common/src/replay_engine.cpp:112-223 | frames of one packet each, but for 25 of zeros after the first: that packet is there in each later frame and is not patched |
| AtcRewriter.Rewriter.LineHolds | common/src/replay_engine.cpp:136-154 | both CRCs of a line are recomputed and compared with the ones the frame carries |
| Json.SetReads | nmos/src/json.cpp:69-81 | after a member is set it reads as set, and every other key as before |
| Json.SetAppends | nmos/src/json.cpp:69-75 | a new key goes behind the others |
| JsonText.EscapeText | nmos/src/json.cpp:21-44 | the loop escapes a string byte by byte |
| JsonText.Append | nmos/src/json.cpp:95-135 | the writer appends the printed value, a real as its conversion has it, to what is there |
| JsonText.PutMember | nmos/src/json.cpp:69-75 | the loop overwrites the member with the key, or appends one |
| JsonText.Parser.ReadUnicode | nmos/src/json.cpp:205-245 | a `\u` escape: one code unit, a surrogate pair, or two that do not pair |
| JsonText.Parser.ReadQuoted | nmos/src/json.cpp:205-245 | the string at the cursor, or why there is none and where |
| JsonText.Parser.ReadNumeral | nmos/src/json.cpp:295-313 | the number at the cursor, an integer if its digits are, saturated to 64 bits |
| JsonText.Parser.ReadJson | nmos/src/json.cpp:247-315 | the value at the cursor, with the cursor behind it, or why there is none |
| JsonText.ParseText | nmos/src/json.cpp:320-334 | a whole text: its value, or null with the reason and the place |
| JsonFacts.Characters | nmos/src/json.cpp:21-44 | the characters and words of the language are the ASCII ones |
| JsonFacts.ShortEscapes | nmos/src/json.cpp:215-223 | what each of the eight short escapes stands for |
| JsonFacts.OtherEscapes | nmos/src/json.cpp:241 | any other letter behind a backslash is refused |
| JsonFacts.EscapedIsClean | nmos/src/json.cpp:21-44 | a printed string holds no control character and no quote without a backslash before it |
| JsonFacts.PlainByte | nmos/src/json.cpp:21-44 | a byte is printed as itself if and only if it is no control character, quote or backslash |
| JsonFacts.Hex4Reads | nmos/src/json.cpp:173-186 | four hexadecimal digits of either case are the number they spell |
| JsonFacts.Utf8Shape | nmos/src/json.cpp:188-203 | a code point is written in the one to four bytes its size asks for, with their leading and following bit patterns (section 3 of RFC 3629) |
| JsonFacts.UnitReads | nmos/src/json.cpp:205-245 | a code unit that does not begin a pair reads as itself, a lone surrogate too |
| JsonFacts.PairReads | nmos/src/json.cpp:205-245 | two escaped surrogates read as the code point above 0xFFFF they stand for |
| JsonFacts.LongIntegers | nmos/src/json.cpp:295-313 | a whole number reads as an integer if and only if it fits 64 bits, else as a real |
| JsonFacts.SixtyFourDeep | nmos/src/json.cpp:247-250 | arrays in arrays read back if and only if they are at most 64 deep |
| JsonFacts.SampleOnOneLine | nmos/src/json.cpp:95-135 | an object printed on one line, character by character |
| JsonFacts.Refusals | nmos/src/json.cpp:247-334 | five texts that are refused, and with which of the reasons and where |
| JsonRoundTrip.StringReadsBack | nmos/src/json.cpp:21-44 | any byte string survives escaping and reading |
| JsonRoundTrip.IntReadsBack | nmos/src/json.cpp:95-135 | any 64-bit integer survives printing and reading |
| JsonRoundTrip.ValueReadsBack | nmos/src/json.cpp:247-315 | any printed value without reals reads back at any depth, with its repeated keys merged, or is refused as too deep |
| JsonRoundTrip.WithinIsNesting | nmos/src/json.cpp:247-250 | a value is readable if and only if its nesting stays within 64 levels |
| JsonRoundTrip.ParseDump | nmos/src/json.cpp:137-334 | printing and reading at any indent: within 64 levels the value comes back with repeated keys merged, and any other is refused |
| JsonRoundTrip.RoundTrip | nmos/src/json.cpp:137-334 | the value itself comes back if and only if it is nested within 64 levels and no object repeats a key |
| JsonRoundTrip.RepeatedKey | nmos/src/json.cpp:69-75 | an object that prints a key twice reads back as another object |
| Mdns.NameAt | nmos/src/mdns_posix.cpp:256-286 | reading a name ends on any bytes, by hops left and then bytes left, and what it returns lies inside the message |
| Mdns.NameReadsBack | nmos/src/mdns_posix.cpp:165-286 | a written name reads back as its labels, cut to 63 bytes, joined by dots |
| Mdns.PointerExpands | nmos/src/mdns_posix.cpp:266-276 | labels and a pointer read as the labels and the name pointed at |
| Mdns.SelfPointerRefused | nmos/src/mdns_posix.cpp:266-276 | a name that points at itself is refused |
| Mdns.NameStays | nmos/src/mdns_posix.cpp:256-286 | a name that can be read is read the same when more bytes follow the message |
| Mdns.DottedNameReadsBack | nmos/src/mdns_posix.cpp:175-286 | a dotted name without empty or overlong labels is written and read back as itself |
| Mdns.RecordReadsBack | nmos/src/mdns_posix.cpp:194-327 | a written record is found with its fields, and its data where the record says |
| Mdns.RecordsReadBack | nmos/src/mdns_posix.cpp:299-327 | a run of records is found in order, each where it was written |
| Mdns.DataIsThere | nmos/src/mdns_posix.cpp:316-324 | the data of every record of a run is found where the record says |
| MdnsWire.RecordOnWire | nmos/src/mdns_posix.cpp:194-209 | the bytes of a record: its name, type, class, time to live, the length of its data and the data, in network order (section 4.1.3 of RFC 1035) |
| MdnsWire.RecordsOnWire | nmos/src/mdns_posix.cpp:194-209 | the same of each record in a run of records |
| MdnsWire.LabelOnWire | nmos/src/mdns_posix.cpp:165-172 | a label is written as its length and its bytes |
| MdnsWire.SplitsAtDot | nmos/src/mdns_posix.cpp:175-184 | a name is split at its dots |
| MdnsWire.DotsBetween | nmos/src/mdns_posix.cpp:278-281 | labels read are joined with dots between |
| MdnsWire.PointerOnWire | nmos/src/mdns_posix.cpp:262-272 | a pointer is 0xC000 and its target, in two bytes |
| MdnsWire.SixteenPointers | nmos/src/mdns_posix.cpp:262-272 | a name is followed through at most sixteen pointers |
| MdnsWire.QuestionReads | nmos/src/mdns_posix.cpp:306-311 | a question reads as the name, the type and the class in that order |
| MdnsService.TxtReadsBack | nmos/src/mdns_posix.cpp:333-347 | a TXT map comes back if and only if every pair fits: no equals sign in the key and at most 255 bytes, or a valueless key of just 255 |
| MdnsService.EqualsInKey | nmos/src/mdns_posix.cpp:333-347 | a key that is an equals sign, with no value, reads back as the value of an empty key |
| MdnsService.ReadPairsSurvive | nmos/src/mdns_posix.cpp:333-347 | whatever bytes are read as TXT data, each pair that comes out is one that fits |
| MdnsService.ResponseReadsBack | nmos/src/mdns_posix.cpp:299-327 | any response parses to exactly the records appended |
| MdnsService.GoodbyeWithdrawsAll | nmos/src/mdns_posix.cpp:877-891 | a goodbye is the announcement with every time to live zero |
| MdnsService.AnnouncementParses | nmos/src/mdns_posix.cpp:795-891 | parsing any announcement succeeds and shows exactly the records of the service |
| MdnsWire.AnnouncementOnWire | nmos/src/mdns_posix.cpp:795-891 | the bytes of an announcement: the header, then the four or five records with their types, classes and cache-flush bits, names, times to live and data |
| MdnsWire.PlaceOnWire | nmos/src/mdns_posix.cpp:840-848 | the data of the service record: priority, weight and port, then the host |
| MdnsWire.EnumerationOnWire | nmos/src/mdns_posix.cpp:832-837 | the name of the service enumeration, byte by byte |
| MdnsWire.PairOnWire | nmos/src/mdns_posix.cpp:850-866 | a TXT pair is its length, the key, an equals sign and the value, and no pairs are one empty string |
| MdnsService.ServiceIsLearnt | nmos/src/mdns_posix.cpp:795-891 | from an announcement a reader learns the instance, its port, host, address and TXT map |
| MdnsService.NameIsItself | nmos/src/mdns_posix.cpp:175-184 | the labels a clean dotted name splits into join to it again |
| MdnsService.InstanceNameIs | nmos/src/mdns_posix.cpp:798-813 | the instance reads as its one label, which may hold dots, a dot and the type |
| MdnsCodec.SplitName | nmos/src/mdns_posix.cpp:175-184 | the loop splits a dotted name at its dots and drops empty labels |
| MdnsCodec.Writer.PutLabels | nmos/src/mdns_posix.cpp:165-172 | a name is written in full, each label cut to 63 bytes |
| MdnsCodec.Writer.RecordHead | nmos/src/mdns_posix.cpp:194-204 | a record's head is written with room for its length |
| MdnsCodec.Writer.PatchLength | nmos/src/mdns_posix.cpp:205-209 | the length of what follows is filled in and nothing else changes |
| MdnsCodec.AppendRecords | nmos/src/mdns_posix.cpp:795-875 | the records wanted are written behind what is there, and counted |
| MdnsCodec.BuildAnnouncement | nmos/src/mdns_posix.cpp:877-891 | the bytes built are the announcement of the service, its count filled in last |
| MdnsCodec.Parser.ReadNameAt | nmos/src/mdns_posix.cpp:256-286 | the loop reads the name the specification reads, and where it ends |
| MdnsCodec.Parser.ReadOneRecord | nmos/src/mdns_posix.cpp:312-325 | one record is read at the cursor, which moves behind its data |
| MdnsCodec.ReadMessage | nmos/src/mdns_posix.cpp:299-327 | a whole message, whatever bytes it is |
| MdnsCodec.ReadTxt | nmos/src/mdns_posix.cpp:333-347 | the TXT map of a stretch of bytes, a cut-off string ending it |
| Is05.RefusedChangesNothing | nmos/src/nmos_node.cpp:795-934 | a request answered 400, 500 or 501 changes nothing staged or active, one that only stages changes nothing active, and only an activation reaches the engine |
| Is05.OnlyNamedPartsChange | nmos/src/nmos_node.cpp:838-867 | no request changes the source addresses, the number of legs, or a leg it has no parameters for |
| Is05.OmittedEnableNeverFlips | nmos/src/nmos_node.cpp:816-825 | with nothing staged a request without `master_enable` cannot turn a running sender off |
| Is05.RtpHasNoSay | nmos/src/nmos_node.cpp:854-891 | `rtp_enabled` has no say in an activation |
| Is05.ApplyMerged | nmos/src/nmos_node.cpp:803-867 | one request after another does what the two merged do, field by field |
| Is05.MergeKeepsRtp | nmos/src/nmos_node.cpp:838-867 | the merge of two requests leaves the staged transport as the two do one after the other, active flag and all, if and only if the later does not contradict for leg A alone what the earlier said for leg B |
| Is05.RequestReadsBack | nmos/src/nmos_node.cpp:795-873 | any merge of requests can be sent as one JSON body that is read as what it says |
| Is05.RunIsOneRequest | nmos/src/nmos_node.cpp:795-934 | any run of staging requests, the replay started and stopped by hand in between, then an activation: the engine gets the same transport and enable, and the answer and state are the same, as from one request at the first with the fields merged, later overriding earlier |
| Is05.RtpIsNotPerLeg | nmos/src/nmos_node.cpp:854-855 | two requests that contradict so: the order stages an active transport, their merge an inactive one |
| Is05.PortIsCut | nmos/src/nmos_node.cpp:850-853 | a port is taken as sent if and only if it has sixteen bits; 70000 is taken as 4464 |
| Is05.StaysClean | nmos/src/nmos_node.cpp:110-118 | in every reachable state with nothing staged the staged side is as at the start, and the two enables agree |
| Is05.ReceiverMustBeNamedAgain | nmos/src/nmos_node.cpp:827-918 | with nothing staged an activation keeps the active receiver if and only if it names it again, or there is none and it names none |
| Is05.ShownCanBeSentBack | nmos/src/nmos_node.cpp:530-597 | the staged object sent back as a PATCH is taken and stages just what was shown |
| Is05Answers.Names | nmos/src/nmos_node.cpp:803-838 | the names of a request's members |
| Is05Answers.LegNames | nmos/src/nmos_node.cpp:838-867 | the names of the members of a leg |
| Is05Answers.Defaults | nmos/include/pcapreplay/nmos/nmos_node.h:46-58 | the transport a sender starts with |
| Is05Answers.Answers | nmos/src/nmos_node.cpp:795-934 | the answer to any text: 400 if it is no JSON object, if `transport_params` is no array or has more elements than there are legs, if a leg names a source address that is not the one there is; 501 for a mode of activation other than `activate_immediate`; 500 if the activation fails; else 200 |
| Is05Answers.ActivationHands | nmos/src/nmos_node.cpp:838-891 | whatever is handed on at an activation: each address and port of each leg is the one the request names, else the one it was before, and so is the enable |
| Is05Answers.OtherSourceRefused | nmos/src/nmos_node.cpp:838-867 | another source address than the one there is gets 400 and changes nothing |
| Is05.EditLegs | nmos/src/nmos_node.cpp:838-867 | the loop over the parameters patches each leg, or refuses at a source address that is not the one there is |
| Is05.ConnectionApi.SyncEnableFromEngine | nmos/src/nmos_node.cpp:110-118 | both enables follow the engine, the staged one only if nothing is staged |
| Is05.ConnectionApi.HandleStagedPatch | nmos/src/nmos_node.cpp:795-934 | the answer, the transport handed on and the new state are those of the specification, on any text |
| Is05.ConnectionApi.StagedObject | nmos/src/nmos_node.cpp:571-597 | the staged side as a controller reads it |

## Left out

- Impair.Draw: how likely each draw is; draws are arbitrary choices in their range.
- PcapSource.Run: the wrap of the 64-bit cursor, the throughput and progress figures, and messages; the counters published after a stop inside a push.
- PcapSource.MergeLeg.Fill: the window is any positive size and slots are remainders, of which the original's power of two and mask are a case; its rounding of the configured size is not modelled.
- PcapSource.MergeLeg.ReadOne: link-layer dissection and the capture file format; a capture is a sequence of records with a destination, and 0.0.0.0 is not one.
- FrameRing.Interleave: waiting and waking; a push or a `next` that has to wait is one that is called again.
- Hbrmt.ParseBuild: header fields out of their range, and a CSRC count that is not zero, for which the builder writes no list.
- Packetise.PacketiseAll: the sequence-jump impairment, and a source that misses and repeats a frame in place of the next one; the credit is that for a given number of frames.
- Packetise.PacketiseThenCut: which frames come out when blue begins below red's number zero; `Packetise.EndsWithCaptures` says that the pass then does not end with the captures.
- TxRing.TransmitRing.Iterate: the sockets and segmentation offload behind a send; a send is the datagrams it is given, in order.
- Skew.RunIsSlow: rounding; delays and times are real numbers.
- Pacer.SpinPacer.Acquire: sleeping, spinning and the counters for display; the schedule is read as a number of packets due, rounded as the code rounds it.
- StreamParser.SdiStreamParser.Feed: the vector the caller passes is kept as a field, and P216 output is not modelled; P216 pictures can hold timing words and do not take part in the round trip.
- FrameBuilder.SdiFrameBuilder.Finish: the parallel loops are loops over an arbitrary order, and the word buffer is held line by line.
- Atc.AllLineCrcsKept: every packet lies wholly in the blanking or wholly in the active words of one line, within the block the rewriter unpacks; nothing is claimed for a packet across that edge.
- Atc.EveryPacketIsPatched: packets do not overlap.
- AtcRewriter.Rewriter.Patch: what becomes of a packet that is there and ends past the block it is unpacked in, for which the original has no defined behaviour.
- AtcRewriter.Rewriter.RewriteStream: frames come in buffers of their own; that a frame repeated was patched before is `FrameRing.Interleave`'s.
- JsonRoundTrip.RoundTrip: reals, which are printed with seventeen digits and may read back as integers; their conversion to text is an arbitrary function here.
- MdnsService.ServiceIsLearnt: record data of 65536 bytes and more, whose length would wrap, and empty instance labels.
- MdnsCodec.ReadMessage: what the browser does with a message, which records an answer selects, and the timers of both.
- Is05.ConnectionApi.HandleStagedPatch: two requests handled at the same moment, which the original lets run side by side between its locked sections; response bodies beyond the status; the conversion of a real port number to an integer, which is an arbitrary function here.
- Sockets, HTTP, statistics, settings, status and SDP text, IS-04 resources and registration, the dialog and the command line: input, output and string assembly.
- Thread priorities, sleeping and the CPU probe; the vector instructions beyond what they do to bytes and lanes.
- Identifiers (UUID, SHA-1), number formatting and URL decoding: isolated and easy.
