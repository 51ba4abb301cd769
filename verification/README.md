# Verification model of the camera stack's hard parts

This project models the stateful and byte-level core of the repository in Dafny and proves what that core
is for: a reliable byte stream over lossy datagrams, its wire codec, a redactor that rewrites capture files
in place, a crash-safe settings write, and a handful of small state machines whose interleavings are easy
to get wrong. `dafny verify dfyconfig.toml` checks everything.

## How it is built

Code that changes state step by step is modelled as a class or as an in-place procedure. Each such method
is proved to take the old state to the one a specification function names, and the theorems are then
proved about those functions over every run. What a specification function reads or writes is pinned by
lemmas in numbers or from the encoding side, so that it cannot be wrong together with its method.

| modules | subject |
|---|---|
| `Octets`, `ByteStrings` | bytes, 32-bit truncation, little-endian words, `Option`, `Result` |
| `Crc`, `XmlCrypto`, `Packets` | checksum, XOR keystream and the three datagram formats |
| `BcUdpEndpoint`, `BcUdpStreams` | one end of the byte stream: as a value and as the object that is updated |
| `BcUdpProtocol`, `BcUdpDrain`, `BcUdpOnWire` | two ends and a network that loses, repeats, delays and reorders |
| `Handshake`, `P2pLookup` | device-initiated handshake; single-flight lookup with two caches |
| `Checksum`, `PcapRedact`, `PcapProofs`, `PcapFrames`, `PcapTcp`, `PcapBlocks`, `PcapCounts`, `PcapSecondPass`, `PcapOddHeaders`, `PcapRedactor` | the pcap-ng redactor |
| `AtomicWrite` | settings write with a crash possible at any step, and the fallback reader |
| `StreamPool`, `Reconnect`, `FrameWalker`, `FrameStreams`, `StreamDiagnostic` | pool of shared streams, reconnect backoff, incremental framing, peak bitrate |

In `BcUdpProtocol` the sets `toA` and `toB` hold every datagram ever sent that way; delivery does not remove
it, so a run may deliver it never, once or often and in any order. Both sides run the same code and both
directions are covered. `Stray` events put foreign datagrams on the way. The invariant speaks about
everything in flight, so stale and repeated ACKs are covered. Time is a parameter of the events that read
the clock; network, file system and parsed XML are datatypes.

## Where the code and its promises part

- `BcUdpDrain.UnscheduledIff`, `BcUdpDrain.AcknowledgedMeansDelivered`: a `data` listener that throws loses
  and reorders nothing, but the chunks left in the queue are drained again only when a datagram arrives
  that has not been consumed yet. A run leaves acknowledged bytes undelivered exactly if some throw was not
  followed by such a datagram; `BcUdpDrain.ThrowStrandsFromTheStart` is such a run of five events.
- `AtomicWrite.ContentSurvivesIffWriteComplete`, `AtomicWrite.ShortWriteIsRenamed`: the result of
  `writeSync` is not looked at, so a short write is renamed into place and reported as success. The comment
  at `app/src/atomic-write.ts:10-11` (the old or the new file, never a truncated one) holds exactly if the
  write was complete, or took nothing while the backup held the same content.
- `AtomicWrite.BackupIff`, `AtomicWrite.FailedCopyLosesPrevious`: a backup copy that fails or stops half-way
  is ignored, so the previous version can be out of reach after a successful save.
- `PcapSecondPass.RedactionIdempotent`, `PcapProofs.TouchedPacketsVerify`: the redactor does not check that
  the IPv4 and TCP headers have at least five words, as section 3.1 of RFC 791 and section 3.1 of RFC 9293
  require. A zero IPv4 header length puts the checksum field into the addresses, and then the new checksum
  verifies, and is stable, exactly if the frame verified without its login bodies
  (`PcapOddHeaders.NoIpLengthFails`). A data offset below five words puts the field into the scanned
  payload, and a second pass may no longer find the login (`PcapOddHeaders.ShortTcpSecondPass`).

## Model

| member | source | states |
|---|---|---|
| `BcUdpEndpoint.FragmentsFaithful` | src/bcudp/BcUdpStream.ts:2076-2084 | Cutting a buffer into fragments loses and reorders no byte; each is nonempty, all but the last have 1330 bytes, the last no more. |
| `BcUdpEndpoint.WriteMeaning` | src/bcudp/BcUdpStream.ts:2077-2088 | Fragment i leaves in its own datagram under the i-th next id modulo 2^32 for the camera, each stays in the resend buffer, and nothing else changes. |
| `BcUdpStreams.BcUdpStream.constructor` | src/bcudp/BcUdpStream.ts:380-418 | A connected stream starts with nothing sent or received and the empty ACK cached. |
| `BcUdpStreams.BcUdpStream.Write` | src/bcudp/BcUdpStream.ts:2073-2089 | The loop registers every fragment under consecutive wrapping ids in the resend buffer and sends exactly those datagrams in order. |
| `BcUdpStreams.BcUdpStream.ResendOutstanding` | src/bcudp/BcUdpStream.ts:1830-1835 | The loop sends every outstanding fragment exactly once and nothing else. |
| `BcUdpStreams.BcUdpStream.HandleAckFromCamera` | src/bcudp/BcUdpStream.ts:1837-1855 | The two loops remove exactly the ids up to p and the ids (p + 1 + i) mod 2^32 of nonzero entries i; id 0xffffffff removes nothing. |
| `BcUdpEndpoint.AckReleases` | src/bcudp/BcUdpStream.ts:1837-1853 | The same of the specification, for every buffer and ACK. |
| `BcUdpStreams.BcUdpStream.BuildAckPayload` | src/bcudp/BcUdpStream.ts:1751-1786 | The loops compute the ACK of the specification for every set of buffered ids. |
| `BcUdpStreams.BcUdpStream.UpdateAckPacket` | src/bcudp/BcUdpStream.ts:1788-1799 | Afterwards the cached ACK is the one the current state calls for. |
| `BcUdpEndpoint.AckCarriesLatency` | src/bcudp/BcUdpStream.ts:1791-1798 | The ACK cached on new data carries the current latency and goes to the peer's connection id. |
| `BcUdpStreams.BcUdpStream.FlushReceived` | src/bcudp/BcUdpStream.ts:1882-1893 | The contiguous run at `packetsWant` moves to the drain queue and a drain is scheduled if the queue is not empty. |
| `BcUdpStreams.BcUdpStream.HandlePacket` | src/bcudp/BcUdpStream.ts:1895-1942 | A datagram changes the endpoint exactly as specified: foreign connection ids and consumed packet ids change nothing. |
| `BcUdpStreams.BcUdpStream.Drain` | src/bcudp/BcUdpStream.ts:1857-1880 | The listener gets the queue in order up to the chunk it throws at; that chunk stays at the head of the queue. |
| `BcUdpEndpoint.AckMeaning` | src/bcudp/BcUdpStream.ts:1763-1785 | At most 200 entries, the first 0, entry i is 1 exactly if id firstMissing+i is buffered, and the window covers every buffered id it can. |
| `BcUdpEndpoint.GroupIdMarksNothingConsumed` | src/bcudp/BcUdpStream.ts:1788-1798 | Group id 0xffffffff in the cached ACK appears exactly when nothing has been consumed. |
| `BcUdpProtocol.StepKeeps` | src/bcudp/BcUdpStream.ts:1751-1942 | Every write, tick, delivery, stray datagram and drain at either side keeps the invariant of both directions. |
| `BcUdpProtocol.RunKeeps` | src/bcudp/BcUdpStream.ts:1751-1942 | So does every run. |
| `BcUdpProtocol.BuiltAckTrue` | src/bcudp/BcUdpStream.ts:1751-1786 | An ACK names only packets its sender has consumed or buffered. |
| `BcUdpProtocol.DeliveryIsPrefix` | src/bcudp/BcUdpStream.ts:1857-1942 | In every reachable state, accepted chunks followed by the queue are the written fragments 0..packetsWant-1, a prefix of the bytes written. |
| `BcUdpProtocol.DeliveryIsPrefixBothWays` | src/bcudp/BcUdpStream.ts:1857-1942 | The same for both directions of one connection. |
| `BcUdpProtocol.SwapRun` | src/bcudp/BcUdpStream.ts:1895-1942 | A run seen from the other side is a run that ends in the mirrored state. |
| `BcUdpProtocol.NoPrematureRelease` | src/bcudp/BcUdpStream.ts:1837-1853 | A fragment is out of the resend buffer only if the peer holds it; an empty buffer means every written byte is at the peer in order. |
| `BcUdpProtocol.CachedAckDescribesReceiver` | src/bcudp/BcUdpStream.ts:1788-1799 | In every reachable state the cached ACK carries exactly the receiver's state. |
| `BcUdpProtocol.OutstandingNeverRises` | src/bcudp/BcUdpStream.ts:1830-1853 | No event other than a write at that side adds to the resend buffer. |
| `BcUdpProtocol.FullAckReleasesAll` | src/bcudp/BcUdpStream.ts:1837-1853 | An ACK built when everything written is held empties the resend buffer, also when it arrives much later. |
| `BcUdpProtocol.AckReleasesReported` | src/bcudp/BcUdpStream.ts:1763-1853 | A cached ACK, whenever it arrives, releases exactly what its builder had consumed or had buffered of the next 200 ids, and nothing if nothing was consumed. |
| `BcUdpProtocol.SelectiveAckReleases` | src/bcudp/BcUdpStream.ts:1751-1853 | The same over whole runs, writes included, and what it releases stays released. |
| `BcUdpProtocol.LossFreeRoundDrains` | src/bcudp/BcUdpStream.ts:1830-1853 | Deliver every outstanding fragment in any order and among anything else, then one ACK: nothing is outstanding, despite the 200-entry cap. |
| `BcUdpProtocol.OneRoundDrains` | src/bcudp/BcUdpStream.ts:1830-1853 | From every state of the invariant such a round is possible and drains the resend buffer. |
| `BcUdpProtocol.ReachableRoundDrains` | src/bcudp/BcUdpStream.ts:1830-1853 | Hence from every reachable state. |
| `BcUdpDrain.ScheduledIff` | src/bcudp/BcUdpStream.ts:1857-1893 | New data schedules a drain for what is queued, only a drain consumes the schedule, and nothing else touches either. |
| `BcUdpDrain.NothingStranded` | src/bcudp/BcUdpStream.ts:1857-1893 | In every run in which the listener accepts everything, queued chunks always have a drain scheduled. |
| `BcUdpDrain.UnscheduledIff` | src/bcudp/BcUdpStream.ts:1857-1893 | For every run: queued chunks have no drain scheduled if and only if that was so at the start without new data since, or some throw was not followed by new data. |
| `BcUdpDrain.AcknowledgedMeansDelivered` | src/bcudp/BcUdpStream.ts:1857-1893 | With everything acknowledged, the listener can still get every written byte if and only if it is not the case that it threw with no new data after that; at most one drain is then missing, and it is enabled. |
| `BcUdpDrain.StrandedUntilNewData` | src/bcudp/BcUdpStream.ts:1857-1893 | After a throw a step schedules the queue again if and only if it delivers a data datagram not consumed yet. |
| `BcUdpDrain.StrandedForGood` | src/bcudp/BcUdpStream.ts:1857-1893 | With everything consumed, no run without a further write drains a stranded queue. |
| `BcUdpDrain.ThrowStrands` | src/bcudp/BcUdpStream.ts:1857-1880 | A throw when all bytes are acknowledged leaves the rest undelivered in every run without a further write. |
| `BcUdpDrain.ThrowStrandsFromTheStart` | src/bcudp/BcUdpStream.ts:1857-1880 | Five events from a fresh connection end in such a state: one byte written, acknowledged and never delivered. |
| `BcUdpOnWire.DatagramsSurviveTheWire` | src/bcudp/packets.ts:28-104 | Every datagram in flight in every reachable state decodes to what was encoded, whatever trails it. |
| `Crc.GetTable` | src/bcudp/crc.ts:7-19 | The nested loops fill entry i with i clocked through eight bits of the polynomial. |
| `Crc.OneBitEntries` | src/bcudp/crc.ts:10-16 | The eight entries that generate the table by linearity, as numbers. |
| `Crc.BcUdpCrc32` | src/bcudp/crc.ts:21-29 | The table loop computes bit-serial reflected division with init 0 and no final xor, for every byte string. |
| `Crc.FeedBytesIsSerial` | src/bcudp/crc.ts:21-29 | Feeding a byte at a time is feeding its eight bits one at a time. |
| `Crc.ClocksLinear` | src/bcudp/crc.ts:12-14 | Clocking the register is linear over xor. |
| `Crc.ClocksInjective` | src/bcudp/crc.ts:12-14 | and reversible: different states stay different. |
| `Crc.FeedShort` | src/bcudp/crc.ts:24-27 | Up to four bytes enter the register as one word followed by as many clocks. |
| `Crc.FeedBytesInjective` | src/bcudp/crc.ts:24-27 | A common suffix keeps different register states different. |
| `Crc.BurstDetected` | src/bcudp/crc.ts:7-29 | Payloads of equal length that differ only inside four consecutive bytes have different CRCs. |
| `XmlCrypto.MaskedTwice` | src/bcudp/xmlCrypto.ts:29-32 | Masking twice with one transaction id restores every byte string. |
| `XmlCrypto.KeystreamInNumbers` | src/bcudp/xmlCrypto.ts:3-18 | Keystream bytes 4w..4w+3 are, least significant first, key word w mod 8 plus the tid, modulo 2^32. |
| `XmlCrypto.MaskedUint32` | src/bcudp/xmlCrypto.ts:22 | Only the low 32 bits of the transaction id matter. |
| `XmlCrypto.Keystream.constructor` | src/bcudp/xmlCrypto.ts:7-8 | The generator starts at keystream byte 0 of the truncated id. |
| `XmlCrypto.Keystream.Next` | src/bcudp/xmlCrypto.ts:9-17 | Call n yields keystream byte n: key words cyclically, shifted by the id, least significant byte first. |
| `XmlCrypto.BcUdpXmlEncrypt` | src/bcudp/xmlCrypto.ts:20-27 | The loop masks every byte with its keystream byte. |
| `XmlCrypto.BcUdpXmlDecrypt` | src/bcudp/xmlCrypto.ts:29-32 | Decryption returns the one text that encrypts to its input. |
| `Packets.EncodeDiscoveryPacket` | src/bcudp/packets.ts:14-26 | The field writes produce the wire form, for every tid. |
| `Packets.EncodeAckPacket` | src/bcudp/packets.ts:28-45 | The field writes produce the wire form of the fields truncated to their widths. |
| `Packets.EncodeDataPacket` | src/bcudp/packets.ts:47-55 | The same for data packets. |
| `Packets.WireInBytes` | src/bcudp/packets.ts:14-56 | The place and value of every field of the three formats on the wire. |
| `Packets.DecodeErrors` | src/bcudp/packets.ts:57-104 | Every error is returned for exactly its cause. |
| `Packets.DecodeIffWirePrefix` | src/bcudp/packets.ts:57-104 | The decoder returns a packet if and only if its fields fit and its encoding is a prefix of the buffer. |
| `Packets.WireDecodes` | src/bcudp/packets.ts:14-104 | Decoding an encoded packet with any trailing bytes returns its fields and payload. |
| `Packets.DiscoveryDecodes` | src/bcudp/packets.ts:61-75 | Behind a discovery header the payload is accepted exactly if its CRC is the announced one. |
| `Packets.CorruptedPayloadRejected` | src/bcudp/packets.ts:67-72 | Any damage inside four consecutive bytes of the encrypted payload is rejected with the CRC error. |
| `Handshake.DeviceInitiated.constructor` | src/bcudp/BcUdpStream.ts:1128-1133 | The session starts waiting for D2C_T. |
| `Handshake.DeviceInitiated.SendAccept` | src/bcudp/BcUdpStream.ts:1135-1157 | A C2D_A is sent only with all of did, tid and address known. |
| `Handshake.DeviceInitiated.OnMessage` | src/bcudp/BcUdpStream.ts:1159-1207 | The handler takes the session to the specified one and sends what is specified. |
| `Handshake.DeviceInitiated.OnResendTick` | src/bcudp/BcUdpStream.ts:1185 | The same for the resend timer. |
| `Handshake.DeviceInitiated.OnTimeout` | src/bcudp/BcUdpStream.ts:1119-1126 | The same for the overall timeout. |
| `Handshake.DeviceInitiated.Cleanup` | src/bcudp/BcUdpStream.ts:1209-1213 | Listener and resend timer are gone. |
| `Handshake.AfterExplains` | src/bcudp/BcUdpStream.ts:1128-1217 | What every session state says about the trace that led to it. |
| `Handshake.ResolvesIff` | src/bcudp/BcUdpStream.ts:1159-1207 | It resolves if and only if the first matching D2C_T is followed, before any timeout, by a matching D2C_CFM for that device, and with which result. |
| `Handshake.TimesOutIff` | src/bcudp/BcUdpStream.ts:1119-1126 | It is rejected if and only if the timeout fires with no confirmation before it. |
| `Handshake.SettledIsFinal` | src/bcudp/BcUdpStream.ts:1197-1213 | Once settled nothing changes and nothing is sent. |
| `Handshake.SendsExactly` | src/bcudp/BcUdpStream.ts:1135-1187 | A C2D_A goes out exactly at that D2C_T and at resend ticks while the handshake is open, always with that T's device, transaction and sender. |
| `Handshake.ResolvedOnlyByOurs` | src/bcudp/BcUdpStream.ts:1164-1203 | A resolved handshake saw a D2C_T with the attempt's cid, sid and conn from the expected host, then a D2C_CFM with the same cid, sid, conn and that T's did. |
| `Handshake.SendsOnlyToOurs` | src/bcudp/BcUdpStream.ts:1135-1187 | Every C2D_A answers such a T: its did and tid, to its sender, which is the expected host. |
| `Handshake.TakesExactlyOurT` | src/bcudp/BcUdpStream.ts:1164-1187 | While waiting, a message is taken and answered if and only if it is such a T; any other changes nothing. |
| `Handshake.TakesExactlyOurCfm` | src/bcudp/BcUdpStream.ts:1189-1203 | After that, a message resolves the handshake if and only if it is such a CFM. |
| `P2pLookup.Lookups.constructor` | src/bcudp/BcUdpStream.ts:331-339 | All maps start empty. |
| `P2pLookup.Lookups.P2pUidLookup` | src/bcudp/BcUdpStream.ts:600-626 | A call is served from a cache, by running work or by new work, as specified, and touches no other UID. |
| `P2pLookup.Lookups.WorkEnds` | src/bcudp/BcUdpStream.ts:627-643 | The end of work fills the cache of its outcome and frees the slot. |
| `P2pLookup.RunKeeps` | src/bcudp/BcUdpStream.ts:600-643 | The invariant of a UID's slot holds in every run on a clock that never goes back. |
| `P2pLookup.LookupsAreSpaced` | src/bcudp/BcUdpStream.ts:340-349 | Work on a UID never overlaps and starts at least 30 s after a success and 15 s after a failure. |
| `P2pLookup.SpacingInNumbers` | src/bcudp/BcUdpStream.ts:340-349 | The spacing in milliseconds between any two pieces of work. |
| `P2pLookup.StartsAsSoonAsAllowed` | src/bcudp/BcUdpStream.ts:600-626 | New work starts if and only if none runs and 30 s or 15 s have passed since the newest ended. |
| `P2pLookup.RepliesComeFromNewestWork` | src/bcudp/BcUdpStream.ts:600-626 | Every reply comes from the newest work, and new work starts only when neither cache nor sharing applies. |
| `P2pLookup.OutcomesArePermanent` | src/bcudp/BcUdpStream.ts:620-643 | The outcome that callers share is set once and never changed. |
| `Checksum.OnesComplementSum` | app/src/capture-pcap-redact.ts:225-241 | Below 2^32 the two loops return the complement of the word-by-word one's-complement sum of RFC 1071. |
| `Checksum.FoldCarries` | app/src/capture-pcap-redact.ts:237-240 | The fold loop terminates with the folded sum. |
| `Checksum.FoldIsResidue` | app/src/capture-pcap-redact.ts:237-239 | Folding preserves the sum modulo 65535. |
| `Checksum.FoldIsRfcSum` | app/src/capture-pcap-redact.ts:225-241 | Summing everything and folding once equals adding word by word with end-around carry. |
| `Checksum.PartsSumBound` | app/src/capture-pcap-redact.ts:226-236 | The bound on the sum that makes the shift exact for a TCP segment. |
| `Checksum.FilledFieldVerifies` | app/src/capture-pcap-redact.ts:213-215 | With the complement in a zeroed field the sum over everything is all ones. |
| `PcapRedactor.RedactPcapng` | app/src/capture-pcap-redact.ts:48-123 | The in-place block walk terminates and its file and counters, or its error, are those of the specification. |
| `PcapBlocks.CaptureRedacted` | app/src/capture-pcap-redact.ts:48-123 | A capture of well-formed blocks becomes the same blocks with each packet's data redacted and every other byte kept, counted packet by packet; an overlong block ends the walk, an unreadable one is an error. |
| `PcapBlocks.BlockThen` | app/src/capture-pcap-redact.ts:76-119 | One block is rewritten on its own, wherever its packet data lies, and the walk goes on behind it. |
| `PcapBlocks.PacketRead` | app/src/capture-pcap-redact.ts:81-113 | Packet data is found at byte 28 of an enhanced or obsolete and byte 12 of a simple packet block. |
| `PcapTcp.LayoutInNumbers` | app/src/capture-pcap-redact.ts:136-160 | Which frames are taken for Ethernet, IPv4 and TCP, and where their payload lies, in the values of their bytes. |
| `PcapTcp.EncodedLayout` | app/src/capture-pcap-redact.ts:136-160 | An encoded Ethernet, IPv4 and TCP frame with any options is found to be one. |
| `PcapTcp.TcpFrameRedacted` | app/src/capture-pcap-redact.ts:130-219 | Such a frame with a run of Baichuan frames as payload becomes the same frame with the login bodies wiped and a checksum a receiver accepts; without a login it stays as it is. |
| `PcapRedactor.RedactPacket` | app/src/capture-pcap-redact.ts:81-116 | One packet block extends the rewritten prefix. |
| `PcapRedactor.RedactInLinkFrame` | app/src/capture-pcap-redact.ts:130-219 | Exactly the frame's bytes in the file are rewritten, as specified, and counted. |
| `PcapRedactor.ZeroLogins` | app/src/capture-pcap-redact.ts:161-201 | The scan loop over the buffer it is overwriting zeroes exactly the bodies a scan of the original bytes meets. |
| `PcapRedactor.RewriteChecksum` | app/src/capture-pcap-redact.ts:203-216 | The checksum field holds the checksum taken over a zero field. |
| `PcapFrames.ScanFindsLogins` | app/src/capture-pcap-redact.ts:161-201 | In a payload that is a run of frames with any bytes without a magic between them, cut off anywhere, the scan meets exactly the bodies of command 1. |
| `PcapFrames.HeaderReads` | app/src/capture-pcap-redact.ts:169-189 | Magic, command, body length and header length are read where the frame has them. |
| `PcapFrames.PayloadRedacted` | app/src/capture-pcap-redact.ts:161-216 | For every frame: the redacted payload is the same run of frames with every login body wiped and a cut-off last frame kept, but for a checksum field that lies in the payload. |
| `PcapProofs.ScanWithin` | app/src/capture-pcap-redact.ts:161-191 | Every body met lies inside the scanned window, behind a header. |
| `PcapProofs.ScanStable` | app/src/capture-pcap-redact.ts:161-201 | Overwriting the bodies does not change what a scan meets. |
| `PcapProofs.RedactDataAt` | app/src/capture-pcap-redact.ts:161-216 | In every touched frame every body byte is zero and every other byte but the checksum field is unchanged. |
| `PcapProofs.RedactDataIdempotent` | app/src/capture-pcap-redact.ts:130-219 | A second pass that meets the same bodies changes nothing exactly if the new checksum settles the frame; with the field before the payload it meets the same bodies. |
| `PcapProofs.ChecksumVerifies` | app/src/capture-pcap-redact.ts:203-216 | A touched frame's checksum verifies over pseudo header and segment exactly if it settles the frame. |
| `PcapProofs.PacketRewritten` | app/src/capture-pcap-redact.ts:75-119 | Each packet of the file becomes its redaction, at the same place. |
| `PcapProofs.OutsidePacketsUnchanged` | app/src/capture-pcap-redact.ts:75-119 | Bytes outside packet data never change. |
| `PcapProofs.RedactionTouchesOnlyLogins` | app/src/capture-pcap-redact.ts:75-219 | For every file: length is kept, a changed byte is in a login body or that packet's checksum field, and every login body byte is zero. |
| `PcapProofs.TouchedPacketsVerify` | app/src/capture-pcap-redact.ts:203-216 | A touched packet's checksum verifies if the IPv4 header length is not zero, and otherwise exactly if it verified without its login bodies. |
| `PcapProofs.CountersAreTotals` | app/src/capture-pcap-redact.ts:75-116 | The counters are the totals over the packets, and one more packet is counted exactly if the walk ends at an overlong block. |
| `PcapCounts.ScanApart` | app/src/capture-pcap-redact.ts:161-201 | The bodies a scan meets do not overlap. |
| `PcapCounts.CountersAreExact` | app/src/capture-pcap-redact.ts:75-201 | The counters are the number of distinct zeroed login bytes, of login bodies, of packets with one, and of packet blocks met. |
| `PcapSecondPass.SecondPassMeetsSamePackets` | app/src/capture-pcap-redact.ts:75-119 | For every file a second pass does not fail and meets the same packets. |
| `PcapOddHeaders.NoIpLengthFails` | app/src/capture-pcap-redact.ts:146-216 | A frame with a zero IPv4 header length whose new checksum does not verify and changes again. |
| `PcapOddHeaders.ShortTcpSecondPass` | app/src/capture-pcap-redact.ts:155-216 | A frame with a data offset of four words whose login a second pass no longer meets. |
| `PcapSecondPass.RedactionIdempotent` | app/src/capture-pcap-redact.ts:75-219 | With checksum fields before the payloads, a second pass gives the same file and counters if and only if every touched frame is settled; a nonzero IPv4 header length settles it. |
| `AtomicWrite.Disk.AtomicWriteFileSync` | app/src/atomic-write.ts:17-64 | With failures and a crash at any step, files and outcome are the specified ones. |
| `AtomicWrite.OutcomeIff` | app/src/atomic-write.ts:26-63 | A save succeeds, or throws, for exactly which failures and kills. |
| `AtomicWrite.TemporaryFiles` | app/src/atomic-write.ts:34-63 | What becomes of the temporary file, and that no other is touched. |
| `AtomicWrite.Disk.ReadWithBackupFallback` | app/src/atomic-write.ts:72-85 | The loop returns the first candidate that exists, is readable and is not empty. |
| `AtomicWrite.ReaderSeesLastRenamed` | app/src/atomic-write.ts:17-85 | After any sequence of failing or crashing saves the reader returns what the last renamed save stored, the backup if that was no byte, or nothing if no save was renamed. |
| `AtomicWrite.ReaderReturnsSaved` | app/src/atomic-write.ts:17-85 | Whatever the reader returns is a prefix of what some renamed save stored. |
| `AtomicWrite.ContentSurvivesIffWriteComplete` | app/src/atomic-write.ts:29-33 | The saved content is read back if and only if the write took all of it, or nothing while the backup held the same. |
| `AtomicWrite.ShortWriteIsRenamed` | app/src/atomic-write.ts:29-33 | A save that reports success and is read back truncated. |
| `AtomicWrite.BackupYieldsPrevious` | app/src/atomic-write.ts:50-56 | With a completed copy, losing, emptying or not reading the target yields the previous version. |
| `AtomicWrite.BackupIff` | app/src/atomic-write.ts:50-56 | Exactly when the previous version is what the reader falls back to. |
| `AtomicWrite.FailedCopyLosesPrevious` | app/src/atomic-write.ts:50-56 | A save that reports success after a failed copy; with the target lost nothing is left. |
| `AtomicWrite.PreviousVersionRecoverable` | app/src/atomic-write.ts:17-85 | The same after any history of saves. |
| `StreamPool.StepKeeps` | app/src/stream-pool.ts:82-280 | Every event keeps the pool's invariant. |
| `StreamPool.RunKeeps` | app/src/stream-pool.ts:82-280 | So does every interleaving. |
| `StreamPool.AtMostOneLive` | app/src/stream-pool.ts:82-111 | Per camera and profile never more than one running creation or unclosed stream. |
| `StreamPool.ClosedExactlyOnce` | app/src/stream-pool.ts:237-264 | A built stream is closed exactly if it is not pooled, and never twice. |
| `StreamPool.LeavingCloses` | app/src/stream-pool.ts:237-264 | The event by which a stream leaves the pool closes it, and it never comes back. |
| `StreamPool.IdleTeardownCutsOffNobody` | app/src/stream-pool.ts:223-230 | A timer that fires belongs to a pooled stream without consumers, and tears down that stream only. |
| `StreamPool.ConsumersKeepStreams` | app/src/stream-pool.ts:164-280 | A stream with a consumer leaves the pool if and only if a stream of its key ends or its camera is released. |
| `StreamPool.AcquireMeaning` | app/src/stream-pool.ts:82-111 | An acquire keeps a pooled stream from idling, joins a creation, or starts one. |
| `StreamPool.CreationMeaning` | app/src/stream-pool.ts:103-177 | What a finished, a failed and a resumed creation leave behind. |
| `StreamPool.AddMeaning` | app/src/stream-pool.ts:187-199 | The consumer is registered beside the others and no timer is scheduled. |
| `StreamPool.ReleaseMeaning` | app/src/stream-pool.ts:213-231 | That consumer leaves, and the timer is scheduled exactly if none is left. |
| `StreamPool.EndMeaning` | app/src/stream-pool.ts:164-280 | A stream end, an idle timeout and a camera's release close exactly the streams concerned. |
| `StreamPool.ArmedStaysIff` | app/src/stream-pool.ts:82-280 | A scheduled idle timer stays scheduled exactly through events that do not concern its stream. |
| `StreamPool.IdleStreamCloses` | app/src/stream-pool.ts:213-264 | When the last consumer leaves, the timer can fire after any run that leaves the stream alone, and firing closes it. |
| `StreamPool.NoKeyBlocked` | app/src/stream-pool.ts:99-110 | No key stays blocked by a creation that is over. |
| `StreamPool.StreamPoolState.AcquireStream` | app/src/stream-pool.ts:86-104 | A pooled stream, a running creation or a new creation, and the whole new state. |
| `StreamPool.StreamPoolState.CreationReady` | app/src/stream-pool.ts:152-176 | The new stream enters the pool under its key. |
| `StreamPool.StreamPoolState.CallerResumes` | app/src/stream-pool.ts:105-110 | The creating caller removes its entry. |
| `StreamPool.StreamPoolState.AddConsumer` | app/src/stream-pool.ts:187-199 | The consumer is registered and a pending idle timer is cancelled. |
| `StreamPool.StreamPoolState.RemoveConsumer` | app/src/stream-pool.ts:213-231 | That consumer leaves, the others stay, and the idle timer is scheduled if and only if none is left. |
| `StreamPool.StreamPoolState.TeardownStream` | app/src/stream-pool.ts:237-264 | The pooled stream leaves the pool, its consumers are notified, it is closed. |
| `StreamPool.StreamPoolState.IdleTimeout` | app/src/stream-pool.ts:224-229 | The timer callback does what the timer event specifies. |
| `StreamPool.StreamPoolState.ReleaseStreamsByCamera` | app/src/stream-pool.ts:273-280 | The loop tears down exactly the camera's pooled streams, in whatever order it visits them. |
| `Reconnect.ReconnectState.Consider` | app/src/rtsp-manager.ts:1719-1734 | A check attempts if and only if the connection is neither ready nor connecting and 5 s, doubled per further attempt up to 5 min, have passed since the last attempt; then it is counted and timed. |
| `Reconnect.ReconnectState.RunReconnectCheck` | app/src/rtsp-manager.ts:1701-1752 | A watchdog tick gives each key that is not skipped one turn, with whatever happens during its awaits. |
| `Reconnect.ReconnectState.TriggerImmediateReconnect` | app/src/rtsp-manager.ts:1777-1805 | An immediate trigger is one check under the same backoff. |
| `Reconnect.TickIsInterleaving` | app/src/rtsp-manager.ts:1701-1752 | A tick is a sequence of atomic events, so the theorems about event sequences cover it. |
| `Reconnect.TickAttemptsOnce` | app/src/rtsp-manager.ts:1715-1717 | A tick attempts no key twice, and none that is skipped. |
| `Reconnect.StateIsHistory` | app/src/rtsp-manager.ts:1726-1734 | The stored state is the number of attempts since the last reset and the time of the last one. |
| `Reconnect.DelayIsPause` | app/src/rtsp-manager.ts:1694-1697 | The delay is 5 s after the first attempt, then twice the last, at most 5 min. |
| `Reconnect.AttemptsAreSpaced` | app/src/rtsp-manager.ts:1694-1734 | Attempts k and k+1 without a reset between them are at least min(5 s * 2^(k-1), 5 min) apart. |
| `Reconnect.AttemptIff` | app/src/rtsp-manager.ts:1719-1734 | A check attempts if and only if the connection is neither ready nor connecting and that pause after the last attempt is over, no sooner and no later. |
| `FrameWalker.FlowState.WalkBaichuanFrames` | tools/analyze-bcudp-capture.ts:89-117 | The loop keeps, counts and samples as the specification does. |
| `FrameWalker.FlowState.Feed` | tools/analyze-bcudp-capture.ts:156-157 | One chunk is a walk over what was kept plus the chunk. |
| `FrameWalker.FeedAll` | tools/analyze-bcudp-capture.ts:119-157 | Feeding chunk after chunk counts and samples what one walk over the joined stream would. |
| `FrameWalker.TallyMeaning` | tools/analyze-bcudp-capture.ts:108-113 | Counts are the numbers of frames per command, samples the bodies of the first three. |
| `FrameWalker.TailSuffices` | tools/analyze-bcudp-capture.ts:93-97 | A buffer without a magic matters only through its last three bytes. |
| `FrameWalker.DropGarbage` | tools/analyze-bcudp-capture.ts:92-98 | Bytes before the first magic do not matter. |
| `FrameWalker.WalkSplit` | tools/analyze-bcudp-capture.ts:89-117 | Walking x then y finds the frames of x + y. |
| `FrameWalker.ChunkingDoesNotMatter` | tools/analyze-bcudp-capture.ts:89-117 | Any chunking reports the frames of the whole stream, a magic split across chunks included. |
| `FrameStreams.StreamFrames` | tools/analyze-bcudp-capture.ts:89-117 | In a stream of encoded frames with any bytes without a magic between them, cut off anywhere, exactly those frames are found, with their commands and bodies. |
| `FrameStreams.SentFramesReported` | tools/analyze-bcudp-capture.ts:89-117 | The same for every chunking. |
| `StreamDiagnostic.PeakBitrate` | app/src/stream-diagnostic.ts:754-775 | The two-pointer loop returns the maximum over the widest one-second windows, with linear work. |
| `StreamDiagnostic.PeakInNumbers` | app/src/stream-diagnostic.ts:768-773 | The peak times the milliseconds of any widest window is at least eight times its bytes, with equality for some window. |
| `StreamDiagnostic.SumInNumbers` | app/src/stream-diagnostic.ts:760-766 | A window's bytes are the sizes of its frames. |
| `StreamDiagnostic.PeakStep` | app/src/stream-diagnostic.ts:768-773 | One frame's window extends the maximum. |
| `StreamDiagnostic.WidestExists` | app/src/stream-diagnostic.ts:761-767 | Every frame ends a widest window. |
| `StreamDiagnostic.PeakUnique` | app/src/stream-diagnostic.ts:754-775 | There is only one such maximum. |

## Left out

- BcUdpProtocol.DeliveryIsPrefix: runs in which a side writes 2^32 - 1 packets or more are excluded, because the send id wraps at `src/bcudp/BcUdpStream.ts:2080` while `packetsWant` does not, and id 0xffffffff is reserved; `BcUdpStreams.BcUdpStream.Write` itself models the wrap.
- BcUdpProtocol.StepKeeps: datagrams in flight are decoded packets in a set; `BcUdpOnWire.DatagramsSurviveTheWire` and `Packets.DecodeIffWirePrefix` connect them to bytes.
- BcUdpStreams.BcUdpStream.ResendOutstanding: does not state the order of a resend, because the network reorders anyway.
- BcUdpStreams.BcUdpStream.Write: the error thrown by a stream without socket, remote or camera id is not modelled; the stream is connected. Remote address updates, heartbeats, D2C_DISC and the timers' periods are left out, as is the latency estimator, whose value is a parameter.
- Checksum.OnesComplementSum: says nothing beyond 2^32, which no TCP segment of an IPv4 packet reaches.
- PcapSecondPass.RedactionIdempotent: assumes a data offset of at least five words for frames that carry a login body, as section 3.1 of RFC 9293 requires; `PcapOddHeaders.ShortTcpSecondPass` shows what fails without, and `PcapProofs.RedactDataIdempotent` covers those frames if the second pass meets the same bodies.
- PcapBlocks.CaptureRedacted: the length word of a simple packet block is taken for the length of its data, as the code does; a block whose packet was cut short by the capture ends the walk or is read with its padding.
- Bodies that span segments stay in the file, as in the code; IPv6 and VLAN frames are left alone.
- AtomicWrite.ReaderSeesLastRenamed: a power loss that loses unsynced directory or backup data is not modelled, nor are other writers of the same files.
- StreamDiagnostic.PeakBitrate: frame times are assumed non-decreasing and rates are exact reals; the other figures of the report are left out.
- StreamPool.StepKeeps: stream objects are records under an id and teardown callbacks that call back into the pool are later events; that teardown goes by key, so that an old stream's `close` can end its successor, is modelled as it is.
- Reconnect.AttemptsAreSpaced: clock readings are positive and do not go back; the connection attempt itself and its single flight are events from outside.
- Handshake.ResolvesIff: parsed XML and host addresses are datatypes; socket errors are swallowed by the code and left out. The other connection modes and `discoveryUidLocal` are not part of this model.
- P2pLookup.LookupsAreSpaced: the lookup work itself (DNS, HTTP, UDP probes) is an opaque outcome.
- XML and UTF-8: XML is a byte string in the codec and a datatype in the handshake.
- AES and MD5 of the control protocol: foreign code.
- The RTSP multiplexer, settings, authentication, buses, diagnostics collectors, MQTT, UI and Home Assistant glue: plumbing or easy members.
