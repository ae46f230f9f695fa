# DEVFUZZ engine: a verified model

DEVFUZZ fuzzes device drivers by running a guest under QEMU.  A library inside QEMU (`aplib`) feeds the
driver with fuzz data, a proxy process (`ap`) started by AFL hands over the input file and collects
Intel PT coverage, and a hardware model decides which values a driver is likely to react to.  This project
models that engine in Dafny and proves what it promises, in four parts.

**Packet decoder.**  `IpCompression`, `PtDecoder`, `PtTheorems`, `PtPackets`, `PtStreams`, `PtSenders`,
`PtUnique`, `PtParse`, `PtCuts`, `PtQuirks`: the Intel PT decoder as nested loops over a byte buffer, its
specification as functions, the encoding of packets, and the theorems that connect them: what one turn does
with any bytes, what arrives of any sender's streams with garbage in between and when it is what was sent,
resynchronisation, bounds and progress on every buffer, unique decodability, windows that end inside a
packet, and the two packet kinds whose length the decoder gets wrong.

**Trace pipeline.**  `AuxRing`, `TracePipeline`, `TraceReader`, `Coverage`, `EndToEnd`: wrapping rings, a
producer/consumer state machine with every interleaving, `check_buffer` as a method on real buffers, the
AFL map as a histogram, and the composition from trace bytes to map counters.

**Session protocol.**  `Session`, `SessionRuns`, `ForkServer`: shared-memory generations, ready flag and
semaphore handshake between client and proxy; the fork server that runs proxies one after the other.

**Input model.**  `Subsets`, `Dictionary`, `Overlay`, `DmaFill`, `UsbOverlay`, `DmaRegistry`,
`ProbeReplay`: subset enumeration, dictionaries, filling of DMA regions and USB buffers, the DMA registry
and the replay of probe reads.

`Prelude` holds shared notions, `Words` bytes and little-endian words.  Calls of `rand()`, guest memory,
bytes behind a buffer and the environment's scheduling are parameters or steps with arbitrary outcomes.

## Findings

- A PSB clears the last IP of a sender that follows the Intel SDM (volume 3C, section 33.4.2), but not that
  of the decoder.  Of such a sender's streams every packet is found and every IP packet logs one IP, and the
  IPs are the ones sent if and only if the IP lengths also suit a last IP that is never cleared
  (`PtSenders.SdmStream`).  `PtSenders.SdmWrongIp` is a stream of which a wrong address is logged.
- OVF packets are two bytes long in the Intel SDM but the decoder skips eight.  If packets follow up to the
  end of the buffer, the first of them is found if and only if fewer than six bytes are left in the buffer
  (`PtQuirks.OvfExactly`).  Otherwise decoding resumes behind six lost bytes, with the last IP from before
  the OVF.  Where packets fill these bytes exactly, all later packets are found, and the IPs logged for them
  are the ones sent if and only if their IP lengths suit that last IP (`PtQuirks.OvfLosesExactly`).
  `PtQuirks.OvfLosesTip` is a stream whose only TIP is not logged, `PtQuirks.OvfWrongIp` one of which a wrong
  address is logged.
- MNT packets are eleven bytes long but the decoder skips ten and decodes the last payload byte as a packet.
  The packets behind the MNT are decoded as if it had been skipped if and only if that byte reads as a silent
  one-byte packet (`PtQuirks.MntExactly`).  `PtQuirks.MntLogsZero` is a stream of which a 0 is logged.
- A window that ends inside an IP packet logs an IP of 0 and then whatever its payload bytes look like
  (`PtCuts.CutWindow`).  `PtCuts.CutSilentExactly` says for which cuts nothing is logged.
- The comment on `get_ip_val` lists IP lengths 4 and 6 as full addresses; the code also treats 5 and 7 so,
  and the model follows the code.
- The index into the AFL map stays in range if and only if `prev_loc` does (`Coverage.IndexRange`);
  `AFLClient` does not initialise `prev_loc`, so the class model takes that as part of `Valid`.
- When `check_buffer` stores `data_tail` it reads `data_head` a second time.  Records published since the
  first read are passed over (`TracePipeline.RoundAccounting`) and stay undecoded in every later state
  (`TracePipeline.FatesAreFinal`); `TracePipeline.LosingRun` is such a run.  `aux_tail` never catches up with
  their bytes, so the ring shrinks by them for good (`TracePipeline.RingSpaceIsLost`), and once a ring's worth
  has been lost tracing stops (`TracePipeline.StarvedForever`).
- A proxy that was given an empty input path can be asked for data, and only such a proxy
  (`SessionRuns.PathIsSafe`, `Session.EmptyPathAborts`).  In every run the request is never answered
  and brings the proxy into the unhandled-type branch, where everything stops (`Session.DataRequestAborts`).
- DMA filling passes a single fuzz byte to `feedData`.  A field that the model decides to keep therefore
  keeps its raw bytes if and only if all but the first are zero (`DmaFill.KeptFieldExactly`);
  `DmaFill.KeptFieldLost` is a call that changes one.  In dictionary mode only the first 256 entries can be
  selected (`Dictionary.ByteSelects`).  USB filling passes the whole field and keeps it
  (`UsbOverlay.KeptFieldUnchanged`).
- USB filling writes zeros for a kept field that starts behind the fuzz data, where other bytes keep what was
  there (`UsbOverlay.KeptFieldBytes`).  It reads behind the fuzz data for a field if and only if the field
  straddles their end (`UsbOverlay.OverreadsExactly`).
- DMA writes of a model leave their region if and only if the field does not fit the struct, or the region
  where it is not an array of structs (`DmaFill.StaysInRegionExactly`, `DmaFill.StraysExactly`).  What memory
  then holds is `DmaFill.FillAnywhere`.
- Pointers to secondary DMA buffers are read as four bytes, so only buffers below 4 GiB are found
  (`DmaRegistry.ScanMeaning`).

## Model

| member | source | states |
|---|---|---|
| IpCompression.MergeWords | afl-proxy/proxy/PTDecoder.h:251-254 | the loop replaces exactly the low 16-bit lanes of the last IP by the half-words read |
| IpCompression.GetIpVal | afl-proxy/proxy/PTDecoder.h:236-268 | in-place reading agrees with the specification; a truncated payload yields 0 and consumes nothing |
| IpCompression.IpRoundTrip | afl-proxy/proxy/PTDecoder.h:229-268 | for every last IP, target and length, the decoder recovers the target and consumes exactly the payload if and only if the length was a legal choice |
| IpCompression.ReadPayload | afl-proxy/proxy/PTDecoder.h:236-268 | a complete payload is consumed exactly and nothing behind it matters, whatever the last IP is |
| PtDecoder.FindPsb | afl-proxy/proxy/PTDecoder.h:37 | the first PSB occurrence, or none at all |
| PtDecoder.PsbExactly | afl-proxy/proxy/PTDecoder.h:227-228 | a PSB is sixteen bytes, 0x02 and 0x82 in turn, and nothing else |
| PtDecoder.FirstAlternating | afl-proxy/proxy/PTDecoder.h:37-52 | the search finds the first such sixteen bytes and the inner loop passes over them |
| PtDecoder.NextBounds | afl-proxy/proxy/PTDecoder.h:53-208 | each turn consumes at least one byte and at most one past the end, the latter exactly for a truncated CYC; at most one IP is logged |
| PtDecoder.WalkPassesPsb | afl-proxy/proxy/PTDecoder.h:86-90 | a walk that starts at a PSB consumes its 16 bytes |
| PtDecoder.ScanRound | afl-proxy/proxy/PTDecoder.h:34-52 | each outer round ends the scan or moves the cursor by at least 16 |
| PtDecoder.Decoder.DecodeOne | afl-proxy/proxy/PTDecoder.h:56-214 | one packet, branch for branch, agrees with the specification of a turn |
| PtDecoder.Decoder.ExtendedAt | afl-proxy/proxy/PTDecoder.h:56-122 | the tests on packets that start with the byte 2, in source order |
| PtDecoder.Decoder.SkipCyc | afl-proxy/proxy/PTDecoder.h:195-208 | the do-while loop consumes the CYC chain, looking one byte past the end if it is cut off |
| PtDecoder.Decoder.WalkBuffer | afl-proxy/proxy/PTDecoder.h:53-215 | the inner loop feeds the client exactly the walk's IPs and ends at its cursor and last IP |
| PtDecoder.Decoder.DecodeBuffer | afl-proxy/proxy/PTDecoder.h:27-224 | the coverage client ends as if fed the decoded IPs in order; both counters grow by what was found |
| PtTheorems.WalkShape | afl-proxy/proxy/PTDecoder.h:53-215 | packet offsets of every walk increase strictly inside the buffer |
| PtTheorems.ScanShape | afl-proxy/proxy/PTDecoder.h:34-216 | every successful PSB search accounts for 16 bytes of the buffer |
| PtTheorems.DecodeBounds | afl-proxy/proxy/PTDecoder.h:34-216 | for every buffer: final cursor, the exact condition for ending one past the end, and bounds on PSBs, packets and IPs |
| PtTheorems.PastByteIrrelevant | afl-proxy/proxy/PTDecoder.h:198-206 | the byte behind the buffer never influences the result |
| PtTheorems.Resync | afl-proxy/proxy/PTDecoder.h:34-53 | bytes in which no PSB begins contribute nothing; decoding resumes at the next PSB with the last IP kept |
| PtTheorems.WalkShift | afl-proxy/proxy/PTDecoder.h:53-215 | a walk does not depend on what precedes it |
| PtTheorems.ScanShift | afl-proxy/proxy/PTDecoder.h:34-216 | a scan of a suffix of a buffer is the scan of those bytes alone, shifted |
| PtTheorems.GarbagePrefix | afl-proxy/proxy/PTDecoder.h:34-53 | garbage without a PSB in front of a stream only shifts the offsets |
| PtPackets.CycNext | afl-proxy/proxy/PTDecoder.h:195-208 | a legal CYC chain is consumed exactly |
| PtPackets.GotExactly | afl-proxy/proxy/PTDecoder.h:229-268 | a decoder reads an IP packet as it was sent if and only if its IP length suits the decoder's last IP |
| PtPackets.IpNext | afl-proxy/proxy/PTDecoder.h:137-163 | a TIP, PGE, PGD or FUP packet of any IP length is consumed exactly and its IP, completed by the last IP, logged |
| PtPackets.ExtendedNext | afl-proxy/proxy/PTDecoder.h:56-122 | every well-formed packet that starts with the byte 2 is consumed exactly |
| PtPackets.ShortNext | afl-proxy/proxy/PTDecoder.h:124-194 | PAD, short TNT, MODE, TSC and MTC are consumed exactly |
| PtPackets.FormedNext | afl-proxy/proxy/PTDecoder.h:53-208 | whatever follows a well-formed packet and whatever the last IP is, one turn consumes exactly the packet |
| PtPackets.PacketNext | afl-proxy/proxy/PTDecoder.h:53-208 | whatever follows a legal packet, one turn consumes exactly it and logs the IP it reports |
| PtPackets.GotAllExactly | afl-proxy/proxy/PTDecoder.h:229-268 | of any packets a decoder gets one IP per IP packet, and the IPs that were sent if and only if every IP length suited its last IP at that point |
| PtPackets.WalkFormed | afl-proxy/proxy/PTDecoder.h:53-208 | walking over any well-formed packets with any last IP visits exactly their offsets and then continues behind them |
| PtPackets.WalkPackets | afl-proxy/proxy/PTDecoder.h:53-208 | walking over legal packets also logs exactly the IPs they report |
| PtStreams.StuckExactly | afl-proxy/proxy/PTDecoder.h:124-214 | exactly the undecodable first bytes stop the inner loop, in every decoder state |
| PtStreams.SegmentRound | afl-proxy/proxy/PTDecoder.h:34-215 | an outer round that starts at a segment walks its packets and then what follows them |
| PtStreams.WalkSegment | afl-proxy/proxy/PTDecoder.h:53-215 | from a PSB the walk covers the packets up to the garbage behind them |
| PtStreams.ScanStream | afl-proxy/proxy/PTDecoder.h:34-216 | scanning any stream of well-formed packets, from any offset and with any last IP, gives what arrives of its packets and then what the bytes behind the last packet give |
| PtStreams.AnySender | afl-proxy/proxy/PTDecoder.h:27-216 | of every stream of well-formed packets decoding visits exactly the packet offsets and logs one IP per IP packet; these are the IPs sent if and only if the stream is legal for a last IP carried across PSBs |
| PtStreams.StreamRoundTrip | afl-proxy/proxy/PTDecoder.h:27-216 | for every list of packet segments with garbage between, decoding the bytes visits exactly the packet offsets and logs exactly the reported IPs, the last IP being carried across PSBs and garbage |
| PtStreams.OpenWindow | afl-proxy/proxy/PTDecoder.h:27-216 | bytes behind the last packet are decoded as packets, with the last IP carried over |
| PtStreams.RoundTrip | afl-proxy/proxy/PTDecoder.h:27-216 | the same for one packet list that starts with a PSB |
| PtSenders.SdmWalk | afl-proxy/proxy/PTDecoder.h:53-208 | of a sender that clears its last IP at PSBs every packet is found, and the IPs logged are the ones sent if and only if their lengths suit the decoder's own last IP, for all last IPs of both |
| PtSenders.SdmStream | afl-proxy/proxy/PTDecoder.h:27-216 | the same for decoding whole streams with garbage |
| PtSenders.OnePsbSuffices | afl-proxy/proxy/PTDecoder.h:27-31 | with a single PSB at the start such a stream is legal for the decoder |
| PtSenders.SdmWrongIp | afl-proxy/proxy/PTDecoder.h:27-216 | a stream with two PSBs of which a wrong address is logged |
| PtUnique.KindIsRead | afl-proxy/proxy/PTDecoder.h:53-208 | the first two bytes of a legal packet show its kind |
| PtUnique.FirstPacket | afl-proxy/proxy/PTDecoder.h:53-208 | if equal bytes start with legal packets for the same last IP, these are the same packet and the same bytes follow |
| PtUnique.UniquelyDecodable | afl-proxy/proxy/PTDecoder.h:53-208 | two legal packet lists with the same bytes, received with the same last IP, are the same list |
| PtParse.NoPacket | afl-proxy/proxy/PTDecoder.h:53-214 | on bytes that start with no well-formed packet a turn skips an OVF or MNT, passes over a stray byte 2 or a cut CYC, logs a 0 for a cut IP packet, or gives up |
| PtParse.EveryTurn | afl-proxy/proxy/PTDecoder.h:53-214 | for all bytes: a turn consumes exactly the well-formed packet they start with, and does the above if there is none |
| PtCuts.CutIp | afl-proxy/proxy/PTDecoder.h:236-268 | the header of an IP packet without all of its payload logs a 0 and resets the last IP |
| PtCuts.CutHeader | afl-proxy/proxy/PTDecoder.h:56-127 | header bytes in front of an incomplete payload are read as one packet each |
| PtCuts.CutCyc | afl-proxy/proxy/PTDecoder.h:195-208 | a CYC packet cut off by the end is passed over, the cursor ending one past the end |
| PtCuts.WalkCut | afl-proxy/proxy/PTDecoder.h:53-215 | for every packet and every cut, exactly which IPs are logged for the bytes in front of the cut |
| PtCuts.CutWindow | afl-proxy/proxy/PTDecoder.h:27-216 | any stream that ends inside a packet is decoded as if it ended before it, and for the cut packet exactly those IPs are logged in addition |
| PtCuts.CutLegalWindow | afl-proxy/proxy/PTDecoder.h:27-216 | if the stream is legal for the decoder, the IPs in front are those reported |
| PtCuts.CutList | afl-proxy/proxy/PTDecoder.h:27-216 | the same for one packet list that starts with a PSB |
| PtCuts.SilentExactly | afl-proxy/proxy/PTDecoder.h:53-215 | a walk logs nothing if and only if no packet it decodes has an IP header |
| PtCuts.CutSilentExactly | afl-proxy/proxy/PTDecoder.h:53-215 | a cut logs nothing if and only if it is not inside an IP packet and no IP header is met in its payload |
| PtCuts.QuietPayload | afl-proxy/proxy/PTDecoder.h:53-215 | a cut outside IP packets logs nothing if no payload byte looks like an IP header, in particular if all are even |
| PtQuirks.OvfExactly | afl-proxy/proxy/PTDecoder.h:80-85 | the packet behind a two-byte OVF is found at its offset if and only if fewer than six bytes are left in the buffer |
| PtQuirks.OvfResumes | afl-proxy/proxy/PTDecoder.h:80-85 | otherwise decoding resumes behind six bytes, whatever they are, and decodes all packets from there |
| PtQuirks.OvfLosesExactly | afl-proxy/proxy/PTDecoder.h:80-85 | packets that fill those six bytes are lost, all later ones are found, and the IPs logged for these are the ones sent if and only if their lengths suit the last IP from before the OVF |
| PtQuirks.OvfLosesTip | afl-proxy/proxy/PTDecoder.h:80-85 | a stream of PSB, OVF and TIP whose IP is not logged |
| PtQuirks.OvfWrongIp | afl-proxy/proxy/PTDecoder.h:80-85 | a legal stream in which a lost TIP makes the decoder log a wrong address for the next |
| PtQuirks.MntExactly | afl-proxy/proxy/PTDecoder.h:96-105 | the walk over an MNT and any packets behind it goes on with these packets if and only if the byte that MNT leaves behind reads as a silent one-byte packet |
| PtQuirks.MntLogsZero | afl-proxy/proxy/PTDecoder.h:96-105 | a stream in which that byte is taken for a TIP and a 0 is logged |
| AuxRing.WrapIndex | afl-proxy/proxy/PerfAuxBuffer.h:16-24 | ring index of the k-th byte of a record, wrap included |
| AuxRing.CopyWrapped | afl-proxy/proxy/PerfAuxBuffer.h:21-24 | the two copies put every byte of a wrapped record in its place |
| AuxRing.Linearise | afl-proxy/proxy/PerfAuxBuffer.h:12-25 | the buffer holds the record's bytes in stream order, wrap included |
| AuxRing.GetEvent | afl-proxy/proxy/pt-runner.cpp:116-129 | the returned bytes are the record's, wrap included |
| TracePipeline.WriteKeeps | afl-proxy/proxy/pt-runner.cpp:131-221 | a producer that respects the free space never overwrites unread bytes |
| TracePipeline.CopyByteKeeps | afl-proxy/proxy/PerfAuxBuffer.h:12-25 | every byte copied out is the stream's byte, whatever the producer does meanwhile |
| TracePipeline.AssertPasses | afl-proxy/proxy/pt-runner.cpp:176-181 | whenever a buffer is consumed the assertion on aux_tail holds |
| TracePipeline.DeliverKeeps | afl-proxy/proxy/pt-runner.cpp:172-181 | the assertion on aux_tail holds and all accounting is kept when a buffer is consumed |
| TracePipeline.StoreKeeps | afl-proxy/proxy/pt-runner.cpp:217-219 | storing data_tail passes over exactly the records in the gap |
| TracePipeline.NextKeeps | afl-proxy/proxy/pt-runner.cpp:131-221 | every step of producer and consumer keeps the invariant |
| TracePipeline.WindowIsStream | afl-proxy/proxy/pt-runner.cpp:172-176 | two copies always suffice for an announced record and yield the stream's bytes |
| TracePipeline.PipelineSafety | afl-proxy/proxy/pt-runner.cpp:131-221 | in every state of every run: the assertion has not fired, aux_tail is the byte count of processed records, decoded buffers are the announced stream windows, coverage follows from them |
| TracePipeline.RefinesFifo | afl-proxy/proxy/pt-runner.cpp:131-221 | while nothing has been passed over, the decoder got exactly the first aux_tail bytes of the stream |
| TracePipeline.RoundAccounting | afl-proxy/proxy/pt-runner.cpp:136-219 | a round processes every record of its snapshot once and in order, and passes over exactly the records published before the second read of data_head |
| TracePipeline.FatesAreFinal | afl-proxy/proxy/pt-runner.cpp:217-219 | a record passed over is never decoded: its fate is the same in every later state of every run |
| TracePipeline.RingSpaceIsLost | afl-proxy/proxy/pt-runner.cpp:172-219 | in every state of every run the producer's room is smaller than the ring by all bytes passed over so far |
| TracePipeline.StarvedForever | afl-proxy/proxy/pt-runner.cpp:172-219 | once a ring's worth of bytes has been passed over, no byte is ever written again |
| TracePipeline.LosingRun | afl-proxy/proxy/pt-runner.cpp:136-219 | a run in which a record is passed over, for any client and any bytes |
| TraceReader.CopyAtOnce | afl-proxy/proxy/pt-runner.cpp:173 | linearising a record in one go keeps the invariant |
| TraceReader.AssertHolds | afl-proxy/proxy/pt-runner.cpp:179 | the assertion on aux_tail, at the point where it stands |
| TraceReader.Reader.ProcessAux | afl-proxy/proxy/pt-runner.cpp:150-182 | one AUX record: linearise, decode into the client, move aux_tail |
| TraceReader.Reader.CheckBuffer | afl-proxy/proxy/pt-runner.cpp:131-221 | an uninterrupted call finishes exactly when no new record is of an unhandled type, and then has processed every new record once, in order |
| Coverage.IndexRange | afl-proxy/proxy/aflclient.h:43-51 | the range check never fires; the cell index is in range if and only if prev_loc is |
| Coverage.HashBits | afl-proxy/proxy/aflclient.h:43-44 | the hash in terms of address bits; addresses equal in their low 20 bits are one location |
| Coverage.EdgesAre | afl-proxy/proxy/aflclient.h:43-53 | the cell of each transition in terms of address bits: the location of the new address, xor that of the one before shifted right by one |
| Coverage.NumberIsValue | afl-proxy/proxy/aflclient.h:51 | the cell number is the word's value |
| Coverage.DirectionMatters | afl-proxy/proxy/aflclient.h:48-53 | for all addresses, going there and back bumps the same cell if and only if both are the same location |
| Coverage.LastLocation | afl-proxy/proxy/aflclient.h:53 | prev_loc after any sequence is the shifted location of its last address |
| Coverage.MapIsHistogram | afl-proxy/proxy/aflclient.h:38-54 | for every IP sequence each cell ends at its start value plus the number of transitions hashed to it, modulo 256 |
| Coverage.FeedConcat | afl-proxy/proxy/aflclient.h:38-54 | logging in portions is logging the whole, also when AFL is not attached |
| Coverage.AflClient.MaybeLog | afl-proxy/proxy/aflclient.h:38-54 | one call bumps one cell of a live map and sets prev_loc to the shifted location; nothing happens when AFL is not attached |
| Coverage.AflClient.HandleCov | afl-proxy/proxy/ap.cpp:43-51 | the address logged is the one the client wrote into the message |
| EndToEnd.TraceToHistogram | afl-proxy/proxy/pt-runner.cpp:131-221 | in every state of every run the map is the histogram of the IPs in the processed stream windows |
| EndToEnd.WindowsToHistogram | afl-proxy/proxy/pt-runner.cpp:131-221 | if those windows hold streams of any sender, ending in garbage or inside a packet, it is the histogram of the IPs that arrive |
| EndToEnd.PacketsToHistogram | afl-proxy/proxy/pt-runner.cpp:131-221 | if their packets are legal for the decoder, it is the histogram of the IPs the packets report |
| Session.SetupKeeps | afl-proxy/shm.h:68-96 | creating, zeroing, renaming and setting up a generation keeps the invariant |
| Session.LoopKeeps | afl-proxy/proxy/ap.cpp:116-141 | every step of the event loop and the tear-down keeps the invariant |
| Session.ClientKeeps | afl-proxy/aplib/aplib.cpp:80-124 | every step of connecting, messaging and exiting keeps the invariant |
| Session.RunInv | afl-proxy/proxy/ap.cpp:98-141 | the invariant holds in every state of every interleaving |
| Session.SessionSafety | afl-proxy/aplib/aplib.cpp:80-124 | a client holds only the newest generation, initialised, in its event loop and not told to exit; no generation is told to exit twice and older ones never look ready again |
| Session.AttachOnlyWhenReady | afl-proxy/aplib/aplib.cpp:90-104 | a successful ready test finds a fully set-up, unused, live generation whose proxy waits for requests |
| Session.HandshakeToken | afl-proxy/aplib/aplib.cpp:511-525 | there is one token in semw, semr or with the proxy exactly while the client waits |
| Session.HandledExactlyOnce | afl-proxy/proxy/ap.cpp:117-139 | every message is handled once, in order, with the type and data the client wrote |
| Session.UnhandledNeedsEmptyPath | afl-proxy/proxy/ap.cpp:132-134 | the unhandled-type branch is reached only with an empty input path |
| Session.DataRequestAborts | afl-proxy/proxy/ap.cpp:116-141 | in every run, from the posting of a data request on the client waits for ever; three steps later, and only then, the proxy is in the unhandled-type branch, and no step follows |
| Session.EmptyPathAborts | afl-proxy/aplib/aplib.cpp:734-770 | every run that ends with an idle client and an empty path extends to one that posts a data request |
| Session.OnlyStepWhileWaiting | afl-proxy/proxy/ap.cpp:117-139 | while a client waits for the reply to a known message only the proxy can move, and every step brings the reply nearer |
| Session.StepWhileWaiting | afl-proxy/proxy/ap.cpp:117-139 | and it can move: a waiting client is never deadlocked |
| Session.ReplyComes | afl-proxy/proxy/ap.cpp:117-139 | in every run the at most four steps after any point of a wait are the proxy's, the next takes the reply, and by then every message sent has been handled |
| SessionRuns.PathIsGiven | afl-proxy/proxy/ap.cpp:112 | in every run a generation has the path its proxy was given, from then on for ever |
| SessionRuns.PathIsSafe | afl-proxy/proxy/ap.cpp:112-134 | a proxy that was given a path never reaches the unhandled-type branch, in any run |
| SessionRuns.TypesKnown | afl-proxy/proxy/ap.cpp:122-135 | types 1 and 2 are handled, 0xff ends the loop, any other is unhandled |
| SessionRuns.AttachesFirst | afl-proxy/aplib/aplib.cpp:120 | in every run the first message on every generation is the one that attaches tracing |
| SessionRuns.OpenFindsNewest | afl-proxy/aplib/aplib.cpp:85-95 | connecting succeeds exactly while a proxy has published and not unlinked its segment, and finds the newest |
| SessionRuns.ReadyExactly | afl-proxy/aplib/aplib.cpp:97-120 | the ready test succeeds exactly on the newest generation while its proxy waits and has not been told to exit |
| SessionRuns.StartUp | afl-proxy/proxy/ap.cpp:98-115 | from between sessions a proxy can always start up with any path |
| SessionRuns.Exchange | afl-proxy/proxy/ap.cpp:117-139 | any known message can be sent, handled and answered |
| SessionRuns.Leave | afl-proxy/proxy/ap.cpp:129-142 | a client can always end the session and the proxy leaves |
| SessionRuns.OneMoreSession | afl-proxy/proxy/ap.cpp:98-142 | every run that ends between sessions extends by a session with any path, thread and messages, all of them sent and handled in order on a new generation, and ends between sessions again |
| ForkServer.NextKeeps | afl-proxy/proxy/aflclient.h:85-131 | every step of server, system and child keeps the invariant |
| ForkServer.RunInv | afl-proxy/proxy/aflclient.h:77-132 | the invariant holds in every state of every run |
| ForkServer.ForkServerSafety | afl-proxy/proxy/aflclient.h:77-132 | at most one unreaped child; at the loop head child_stopped holds exactly when one exists, which is then stopped or killed while stopped; one hello, then alternating pid and status words |
| ForkServer.NeverStoppedUnlessPersistent | afl-proxy/proxy/aflclient.h:120-126 | without persistent mode child_stopped is never set |
| ForkServer.ChildrenAreSequential | afl-proxy/proxy/aflclient.h:94-110 | a child is forked only when no other is unreaped |
| ForkServer.PidWords | afl-proxy/proxy/aflclient.h:88-114 | after the status of a stopped child that was not killed the next pid word names the same child and none is forked; any other pid word names a child forked since the control word |
| ForkServer.StopIsFresh | afl-proxy/proxy/aflclient.h:110-126 | in every run a reported stop is one the child made since it was last forked or resumed |
| ForkServer.WriteOff | afl-proxy/proxy/aflclient.h:94-98 | a child killed while stopped can always be written off |
| ForkServer.ForkRound | afl-proxy/proxy/aflclient.h:99-116 | with no child, or one killed while stopped, a child is forked and named |
| ForkServer.ResumeRound | afl-proxy/proxy/aflclient.h:107-116 | a stopped child that was not killed is resumed and named again |
| ForkServer.DeathRound | afl-proxy/proxy/aflclient.h:118-130 | a child that dies is reaped and its death reported |
| ForkServer.StopRound | afl-proxy/proxy/aflclient.h:118-130 | a child that stops in persistent mode is kept and its stop reported |
| ForkServer.PersistentRounds | afl-proxy/proxy/aflclient.h:85-131 | a persistent child can serve any number of rounds without another being forked |
| Subsets.EnumMembers | afl-proxy/aplib/HWModel.h:311-324 | the enumeration yields exactly the increasing completions of the path |
| Subsets.PruningIsSound | afl-proxy/aplib/HWModel.h:316-318 | the pruning test drops no solution |
| Subsets.EnumOrdered | afl-proxy/aplib/HWModel.h:319-323 | completions come in lexicographic order |
| Subsets.PowerSetMeaning | afl-proxy/aplib/HWModel.h:326-331 | for every n, every non-empty subset exactly once, as an increasing list, by size and then lexicographically |
| Subsets.Enumerator.SelectN | afl-proxy/aplib/HWModel.h:311-324 | appends exactly the completions and restores the path |
| Subsets.Enumerator.FillPowerSet | afl-proxy/aplib/HWModel.h:326-331 | appends the power set without the empty set |
| Dictionary.InsertSorted | afl-proxy/aplib/HWModel.h:361-367 | the set's iteration order is strictly ascending |
| Dictionary.OrOfIsJoin | afl-proxy/aplib/HWModel.h:357-360 | the value of a combination has all bits of its masks and no bit more than it must |
| Dictionary.UnionIsUnion | afl-proxy/aplib/HWModel.h:340-342 | important_bits has exactly the bits of all masks |
| Dictionary.ComplementBits | afl-proxy/aplib/HWModel.h:364 | the complement has no bit in common with the union, and both together have all |
| Dictionary.PickValuesMeaning | afl-proxy/aplib/HWModel.h:354-363 | the inserted values and 0 are exactly the joins of all subsets of the masks |
| Dictionary.FirstBuild | afl-proxy/aplib/HWModel.h:333-381 | with 1 to 4 masks: exactly the joins of all subsets and the complement of the union, strictly ascending; with more: union, masks, 0 and complement, in this order; the dictionary is magic values, combinations and special values |
| Dictionary.RebuildKeepsValues | afl-proxy/aplib/HWModel.h:712-717 | building again appends everything once more and leaves the dictionary's value set unchanged |
| Dictionary.AnyNumberOfBuilds | afl-proxy/aplib/HWModel.h:712-717 | so does any number of builds |
| Dictionary.CombsAreSubmasks | afl-proxy/aplib/HWModel.h:333-368 | every combination is a submask of the union or its complement |
| Dictionary.DictNonEmpty | afl-proxy/aplib/HWModel.h:370-381 | the divisor in feedData is non-zero exactly when the model has masks, magic values or special values |
| Dictionary.Hybrid | afl-proxy/aplib/HWModel.h:392-400 | all bits of the original survive |
| Dictionary.FeedData | afl-proxy/aplib/HWModel.h:402-427 | a dictionary value, or in random mode possibly a word that keeps all bits of the original; an empty dictionary is allowed unless it is picked from |
| Dictionary.EntryPicked | afl-proxy/aplib/HWModel.h:387-425 | originals, or random numbers, that differ by a multiple of the dictionary's size pick the same entry, and those below the size the entry of that number |
| Dictionary.ByteSelects | afl-proxy/aplib/HWModel.h:424-425 | a fuzz byte selects exactly among the first 256 entries |
| Dictionary.RandomModeOutcomes | afl-proxy/aplib/HWModel.h:411-422 | the exact set of results that the random choices can produce, with and without a dictionary |
| Dictionary.HwInput.constructor | afl-proxy/aplib/HWModel.h:299-307 | a new input holds the first build |
| Dictionary.HwInput.GenerateBitCombs | afl-proxy/aplib/HWModel.h:333-368 | the in-place loops compute the specified combinations |
| Dictionary.HwInput.GenDictInPlace | afl-proxy/aplib/HWModel.h:370-381 | appends magic values, combinations and special values |
| DmaFill.PhysMem.FeedSlot | afl-proxy/aplib/HWModel.h:675-677 | one value for one field of one struct |
| DmaFill.PhysMem.FeedField | afl-proxy/aplib/HWModel.h:665-679 | one write per struct of the region |
| DmaFill.PhysMem.FeedRegion | afl-proxy/aplib/HWModel.h:643-683 | raw window, model writes and new cursor of one region |
| DmaFill.PhysMem.FeedFuzzDmaData | afl-proxy/aplib/HWModel.h:639-685 | the writes to guest memory are those of the specification, in order |
| DmaFill.RawCopyInBounds | afl-proxy/aplib/HWModel.h:647-655 | every raw copy reads inside the fuzz data and exactly the oversized regions get none |
| DmaFill.ConsecutiveWindows | afl-proxy/aplib/HWModel.h:647-649 | regions get consecutive windows while the data lasts, then start over |
| DmaFill.NextWindow | afl-proxy/aplib/HWModel.h:643-682 | for any regions: a window starts where the one before ends if the region fits there, and otherwise at the beginning of the fuzz data |
| DmaFill.LoopCounts | afl-proxy/aplib/HWModel.h:668-672 | a region of exactly n structs is walked as n structs, any other as one |
| DmaFill.StaysInRegionExactly | afl-proxy/aplib/HWModel.h:668-678 | exactly when the writes for a field stay inside a region, for every region length |
| DmaFill.TouchesExactly | afl-proxy/aplib/HWModel.h:643-683 | which addresses the writes for a region cover |
| DmaFill.WritesStayInRegion | afl-proxy/aplib/HWModel.h:639-685 | with fitting fields every write for a region stays inside it |
| DmaFill.StraysExactly | afl-proxy/aplib/HWModel.h:668-678 | a region writes outside itself if and only if a field with at least one byte does not fit it |
| DmaFill.OutsideUntouched | afl-proxy/aplib/HWModel.h:639-685 | memory that no region writes is untouched |
| DmaFill.ContainingSettles | afl-proxy/aplib/HWModel.h:643-683 | with fitting fields no region after the last one containing an address writes it |
| DmaFill.OwnerDecides | afl-proxy/aplib/HWModel.h:643-683 | the last region that writes an address decides its contents, also where regions overlap or fields do not fit |
| DmaFill.FinalContents | afl-proxy/aplib/HWModel.h:639-685 | the final byte is the raw fuzz byte of that region, or what earlier regions left where it has none, overlaid by its model writes |
| DmaFill.FillAnywhere | afl-proxy/aplib/HWModel.h:639-685 | for every address, regions and fields: untouched, or as the last region that writes it leaves it |
| DmaFill.LastSlotExists | afl-proxy/aplib/HWModel.h:662-679 | a byte that some field covers is covered by a last struct and field |
| DmaFill.LastSlotWins | afl-proxy/aplib/HWModel.h:662-679 | among overlapping fields the last struct and field covering a byte determines it |
| DmaFill.FillMeaning | afl-proxy/aplib/HWModel.h:639-685 | for any regions, struct lengths and fields: every byte ends as that of the value chosen for the last struct and field covering it, else as the raw fuzz byte |
| DmaFill.EveryStructFilled | afl-proxy/aplib/HWModel.h:665-679 | in a region of n structs every byte of every field of every struct ends as that byte of the value chosen for it |
| DmaFill.StructFieldsApart | afl-proxy/aplib/HWModel.h:665-679 | fields that do not overlap in their struct do not overlap in a region of any length |
| DmaFill.ModelWritesApart | afl-proxy/aplib/HWModel.h:665-679 | slots that do not overlap give model writes that do not |
| DmaFill.DictFillAnyOrder | afl-proxy/aplib/HWModel.h:662-665 | in dictionary mode the result does not depend on map iteration order where slots do not overlap |
| DmaFill.KeptBytes | afl-proxy/aplib/HWModel.h:676-677 | a kept field is written as the one byte found at its place in the fuzz data and zeros, in an oversized region as a random value |
| DmaFill.KeptFieldExactly | afl-proxy/aplib/HWModel.h:676 | a kept field keeps its raw bytes if and only if all but the first are zero |
| DmaFill.KeptFieldLost | afl-proxy/aplib/HWModel.h:676 | a call that turns the kept field 1, 2, 3, 4 into 1, 0, 0, 0 |
| UsbOverlay.FeedFuzzUsbData | afl-proxy/aplib/HWModel.h:723-749 | a byte in no field is the fuzz byte, or what was there where the fuzz data have ended; fields overlay that; nothing at or behind size is touched |
| UsbOverlay.OutsideFieldsUntouched | afl-proxy/aplib/HWModel.h:729-748 | bytes outside every field are not overlaid |
| UsbOverlay.FieldBytesChosen | afl-proxy/aplib/HWModel.h:736-747 | bytes of a field are those of the value chosen for it, cut at the buffer's end |
| UsbOverlay.AnyOrder | afl-proxy/aplib/HWModel.h:729-748 | in dictionary mode with disjoint fields the iteration order is irrelevant |
| UsbOverlay.ReadBehindExactly | afl-proxy/aplib/HWModel.h:740-743 | which bytes behind the fuzz data the value read for a field depends on |
| UsbOverlay.OverreadsExactly | afl-proxy/aplib/HWModel.h:736-743 | some byte behind the fuzz data is read if and only if the field straddles their end |
| UsbOverlay.BeyondIrrelevant | afl-proxy/aplib/HWModel.h:740-743 | if no field straddles the end of the fuzz data, nothing behind it matters |
| UsbOverlay.OriginalBytes | afl-proxy/aplib/HWModel.h:736-743 | the original handed to the model byte for byte: the bytes of the field inside the buffer, then zeros; zeros only for a field behind the fuzz data |
| UsbOverlay.KeptFieldBytes | afl-proxy/aplib/HWModel.h:740-747 | what a kept field is written as, behind the end of the fuzz data too |
| UsbOverlay.KeptFieldUnchanged | afl-proxy/aplib/HWModel.h:740-747 | a kept field keeps its fuzz bytes |
| DmaRegistry.CaptureKeeps | afl-proxy/aplib/HWModel.h:575-595 | capturing keeps the invariant and only appends |
| DmaRegistry.CaptureRegisters | afl-proxy/aplib/HWModel.h:575-595 | the page written is registered once, with the size configured for the register, or 4096 for 0 |
| DmaRegistry.ScanMeaning | afl-proxy/aplib/HWModel.h:522-549 | the assertion fails exactly for a size that does not divide a region; otherwise exactly the non-zero pages that descriptors point to are added, each with the size configured for a descriptor that points to it, all below 4 GiB |
| DmaRegistry.RegistryRuns | afl-proxy/aplib/HWModel.h:522-595 | over any sequence of captures and scans: distinct, aligned starts equal to dma_starts, level-1 list a subsequence, flag set exactly when it is non-empty |
| DmaRegistry.OnlyGrows | afl-proxy/aplib/HWModel.h:522-595 | the lists only grow at their end |
| DmaRegistry.SmallRegionsDisjoint | afl-proxy/aplib/HWModel.h:575-595 | registered regions of at most a page are disjoint |
| DmaRegistry.RegisteredSizes | afl-proxy/aplib/HWModel.h:522-595 | after any captures and scans every region has a configured size |
| DmaRegistry.RegisteredRegionsFit | afl-proxy/aplib/HWModel.h:522-679 | fields that fit the configured sizes fit every region that is ever registered |
| DmaRegistry.PageOwner | afl-proxy/aplib/HWModel.h:575-595 | with configured sizes of at most a page, a region containing an address is the last that does |
| DmaRegistry.RegisteredFill | afl-proxy/aplib/HWModel.h:522-685 | filling after any captures and scans: memory outside the registered regions is untouched, the rest is the raw fuzz byte of the last region containing it overlaid by its model writes |
| DmaRegistry.Stage2Registry.CaptureDmaRegistration | afl-proxy/aplib/HWModel.h:575-595 | the in-place update is the specified one |
| DmaRegistry.Stage2Registry.ScanSecondaryDmaBuffer | afl-proxy/aplib/HWModel.h:522-549 | the nested loops over the regions present at entry compute the specified scan, abort included |
| ProbeReplay.ReadSimulates | afl-proxy/aplib/HWModel.h:38-43 | one read of the lazy machine is one read of the eager machine |
| ProbeReplay.LazyRefinesEager | afl-proxy/aplib/pci/HWModel_de2104x.h:16-81 | under every interleaving of reads and restarts, same return values and same bytes stored as a machine that zeroes all counters at restart |
| ProbeReplay.ProbeRepeats | afl-proxy/aplib/pci/HWModel_de2104x.h:16-81 | every probe after a restart repeats the first one |
| ProbeReplay.SilentAfterSeventeen | afl-proxy/aplib/pci/HWModel_de2104x.h:18-19 | in the first probe and after any restart, the first 17 reads are answered, later ones return 0 and store nothing |
| ProbeReplay.NthReadGetsNthValue | afl-proxy/aplib/pci/HWModel_de2104x.h:20-77 | in the first probe and after any restart, a read stores the four bytes of the next recorded value of its register, counting only that register's reads since; without a table it stores zeros |
| ProbeReplay.De2104xProbe | afl-proxy/aplib/pci/HWModel_de2104x.h:20-77 | the bytes this device stores, read for read, in every probe |
| ProbeReplay.StoredLittleEndian | afl-proxy/aplib/pci/HWModel_de2104x.h:24 | table values are stored little-endian |
| ProbeReplay.De2104x.RestartDevice | afl-proxy/aplib/pci/HWModel_de2104x.h:16 | restart resets the probe length and bumps the restart count |
| ProbeReplay.De2104x.CheckReset | afl-proxy/aplib/HWModel.h:38-43 | the counter becomes the effective one and the stamp current |
| ProbeReplay.De2104x.ReadReg | afl-proxy/aplib/pci/HWModel_de2104x.h:17-81 | the in-place read is the lazy machine's, and leaves the rest of the destination alone |

## Left out

- Operating-system calls: mmap, shm_open, perf_event_open, fork, waitpid and sem_* appear as protocol steps only; signals, EINTR, crashes, the watchdog and the IRQ thread are not modelled.
- Session and ForkServer are step relations instead of objects with methods, because their properties are about interleavings of several processes.
- TracePipeline models the records of the regular ring as values; `AuxRing.GetEvent` covers how their bytes are read, but parsing of header fields is not modelled.
- Epoch expiry: clocks and the read counter that end an epoch become the client's free choice to exit whenever it is idle.
- Paths of 128 bytes or more: `strncpy` cuts them off without a terminator; the model keeps a path whole.
- Integer widths: packet, PSB, record and restart counters, ring offsets and addresses are unbounded; `get_event` offsets at or above 2^31 are outside the model.
- `get_val`: the values of PIP and TSC packets and of CYC are discarded by the decoder, so only their lengths are modelled; logging is left out.
- DmaRegistry.ScanMeaning: iterates over the regions present at entry; appending to the vector during iteration is assumed not to reallocate it.
- `feedFuzzMMIOData` calls `feedData` once for a value of given size, `fuzzQEMU_DMABuffer` repeats the field loop of the DMA fill on a local buffer, wrapping the index of the fuzz byte and making each write with a probability, `Bar` and the PCI and USB identification are constants, and the other device headers are tables of the kind modelled for de2104x; none has behaviour beyond that of the members modelled.
- Probabilities: `yes` and `rand` may yield any outcome.
- Code under `#if 0`, `setOneDMA`, `addDMARegion`, `setDMARegions`, Python tools, environment knobs, e820 lookup, model registration and `send.cpp`.
