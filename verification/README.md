# spadia: loss window, congestion feedback, checksums and packet formats

spadia is a small WebRTC peer. This project models the parts of it that keep
state over packets or turn packets into bytes and back, and proves what they
promise for every input and every run:

- `LossWindow`, `LossHistory`, `LossTheorems`, `LossTimes`, `LossRecovery`: the
  256-slot loss window of an incoming RTP session. `LossWindow` holds the object and one call of
  `AddPacket` on values with the C++ widths; `LossHistory` forgets the ring and
  keeps only which numbers arrived; `LossTheorems` relates the two over runs;
  `LossTimes` says which packet each time in a slot comes from; `LossRecovery` says
  when damage is over.
- `TransportCc`, `TransportCcCodec`, `TransportCcQuantisation`,
  `TransportCcDecoder`, `TransportCcRoundTrip`, `TransportCcCount`,
  `TransportCcResults`, `TransportCcHeader`, `TransportCcFormat`: the
  transport-wide congestion control feedback field
  (draft-holmer-rmcat-transport-wide-cc-extensions-01, section 3.1).
- `Crc32`, `CrcReference`: the table-driven CRC of the STUN fingerprint, and
  CRC-32 as the remainder of a long division of polynomials.
- `Stun`, `StunPackets`, `StunTheorems`, `StunWire`: STUN parsing, replies and
  sealing, against a verifier written from RFC 5389, sections 6, 15.4 and 15.5.
- `Rtp`, `RtpTheorems`, `RtpExtensions`, `RtpWire`: the RTP packet layout
  (RFC 3550, section 5.1) and the header extension walk (RFC 5285, sections 4.2
  and 4.3).
- `Rtcp`, `RtcpTheorems`: RTCP headers, sender reports, compound packets
  (RFC 3550, sections 6.1 and 6.4.1) and the clock conversions.
- `Bytes`, `ByteIo`: byte strings, bitwise or and exclusive or on naturals, and
  the readers and writers of `byte_io.h`.

Objects that the source updates in place are classes, buffers are arrays, and
each loop is a loop; every such method is proved equal to a function of its
inputs or of the old state. The results are then lemmas about those functions.
The references they are compared with write the numbers of the formats out and do
not share the constants of the code: `TransportCcFormat`, `CrcReference`,
`StunWire`, `RtpWire` and the verifier of `StunTheorems`.
HMAC-SHA1 is an arbitrary function to 20 bytes, receive times are arguments,
and `malloc` is an array of unknown content.

Where the code does not do what its formats ask for, the code is modelled as it
is and the exact condition is proved:

- A packet more than 256 behind the next number can take over the slot of a newer
  number (`StepExactIff`). On an exact window it hides a loss exactly if that
  number had not arrived (`StepCountIff`); in the run of `StalePacketHidesLoss`
  the hidden loss is never due (`HiddenLossNeverDue`). The damage is over once
  packets that land safely have moved the next number 256 on
  (`RecoversAfterOneWindow`).
- The receive time 0 and the number 2^32 - 1 collide with the "not received" and
  "empty" marks. The invariant that relates counter, slots and arrivals survives
  a call exactly if a packet has neither (`StepSoundIff`); such packets are
  called regular below. A packet with time 0 delivered twice takes the counter
  to 65535, past the final assertion (`UntimedPacketUnderflows`); after the number
  2^32 - 1 the counter can keep a loss that no slot holds (`LastNumberLeavesLoss`).
- The feedback parser reads the 16-bit base number as 32 bits, multiplies the
  unshifted reference time in 32 bits, and the writer stores the feedback count
  one byte late, counts packets modulo 2^16 and leaves out the time header when
  no packet was received. A fresh receiver gets every packet back, at times
  moved by one constant, if and only if some packet was received, there are fewer
  than 2^16 and every delta fits 16 bits (`FreshRoundTripIff`); those times are
  the encoder's own only for a zero reference time besides
  (`FreshAbsoluteTimesIff`); the keys are the sender's own only without gaps and
  with a first number of 0x10001 times the count (`OwnKeysIff`), so never for
  16-bit numbers (`NumbersNeverMatch`); the feedback count is lost (`RoundTrip`).
  Without a received packet nothing is recorded unless the count wraps
  (`NothingRecordedIff`).
- A parsed time of 0 means "not received". For arrivals in order a received
  packet is parsed so exactly when the reference time is a multiple of 2^15 and
  it arrived in the first 250 us of the first packet's 64 ms tick, which can
  happen every 2^15 ticks, about 35 minutes (`LooksLostInOrderIff`).
- The only caller stamps packets with the wall clock, of which the reference time
  keeps 23 bits of 64 ms. In every other cycle of 2^23 ticks, about six days, the
  product of the first delta and 250 overflows an int (`FirstArrivalIff`); in the
  others the encoder's times are right up to whole cycles exactly as long as the
  running time does not wrap (`NeverDriftsIff`). Deltas round towards the running
  time, so they round down exactly if no packet off the grid comes before the
  rounded time of the one before it (`RoundsDownIff`).
- `CorrectedParse` is not in the source: it reads the feedback header as it is
  written. With it a map comes back under its own keys if and only if they start
  at a 16-bit number and have no gap, given a received packet and a count of 16
  bits (`CorrectedKeysIff`).
- STUN `Parse` keeps raw class bits where `Serialize` expects the enumeration
  (`ReserialiseKeepsClassIff`) and skips an empty attribute at the very end
  (`LastUsernameIff`).
- `RTPPacket::Parse` stores the same data pointer for every extension, in both
  profiles (`PointerRightIff`). As a remark: it returns -1, which is true, for a
  short header, another version or missing CSRCs (`TrueWithoutSuccessIff`).
- The RTCP padding flag is read from the count's top bit (`HeaderKeptIff`), and
  a packet cut short is still counted (`CountExactIff`).
- A reply to a request whose two leading type bits are not zero is not authentic
  (`ReplyAuthenticIff`).
- The two delay conversions use 65.535 and 65.635 and keep 16 bits of seconds
  (`DelayRoundTrip`); the clock conversions both round down
  (`TimestampRoundTrip`).

## Model

| member | source | states |
|---|---|---|
| LossWindow.LossSession.AddPacket | rtp_session_manager.cpp:70-114 | the call with its reset rule, gap loop and 16- and 32-bit wrap-around leaves exactly the state `Step` of the old one, and returns the counter |
| LossWindow.LossSession.Reset | rtp_session_manager.cpp:63-68 | every slot, the counter and the next number return to the initial state |
| LossHistory.StepSound | rtp_session_manager.cpp:70-114 | one call with a regular packet, however late, keeps: counter equals counted slots, and each counted slot names its own number of the window that never arrived |
| LossTheorems.StepSoundIff | rtp_session_manager.cpp:70-114 | one call keeps that invariant if and only if the receive time is not 0 and the number is not 2^32-1 |
| LossTheorems.UntimedPacketUnderflows | rtp_session_manager.cpp:105-112 | a packet with receive time 0 and a number below 2^32-1, delivered twice, takes the counter to 65535 |
| LossHistory.StepExact | rtp_session_manager.cpp:80-110 | a regular packet that takes over no other live slot keeps every number of the window in its slot, flagged received exactly if it arrived |
| LossTheorems.StepExactIff | rtp_session_manager.cpp:70-114 | one call keeps the exact refinement if and only if the receive time is not 0, the number is not 2^32-1, and the packet is at most 256 behind or its slot belongs to no number of the epoch |
| LossTheorems.StepCountIff | rtp_session_manager.cpp:70-114 | after one call with a regular packet on an exact window the counter is the number of missing packets if and only if the packet is at most 256 behind, or its slot belongs to no number of the epoch or to one that arrived |
| LossTheorems.LossExactOnSafeRuns | rtp_session_manager.cpp:70-114 | over every run of such packets the counter is the number of window numbers that never arrived, and each slot tells whether its number did |
| LossTheorems.LossSoundOnAllRuns | rtp_session_manager.cpp:86-127 | over all runs of regular packets, arbitrarily old and repeated, the counter equals the counted slots, never exceeds the true number of missing packets, and bounds the slots for which `isLost` holds |
| LossTheorems.LostAtMost254 | rtp_session_manager.cpp:73-112 | no run of regular packets takes the counter above 254, which is stronger than the final assertion |
| LossTheorems.BoundAttained | rtp_session_manager.cpp:89-98 | a regular packet and the one 255 after it reach 254 |
| LossTheorems.MissingBound | rtp_session_manager.cpp:73-78 | the reset rule leaves no window with more than 254 missing numbers |
| LossTheorems.OrderIndependent | rtp_session_manager.cpp:80-113 | safe runs of regular packets, in one epoch, with the same first packet and the same set of numbers, in any order and with any repetitions, agree on next number, counter and received flags |
| LossTheorems.StalePacketHidesLoss | rtp_session_manager.cpp:105-110 | in a run of three regular packets the last, more than 256 behind, brings the counter to 0 while a number is still missing |
| LossTheorems.HiddenLossNeverDue | rtp_session_manager.cpp:105-127 | after that run no slot is due for retransmission, at any clock |
| LossTheorems.LastNumberLeavesLoss | rtp_session_manager.cpp:80-84 | in a run of three packets over the number 2^32-1 the counter ends at 1 with no counted slot |
| LossRecovery.RecoversAfterOneWindow | rtp_session_manager.cpp:70-114 | in any run of regular packets, once packets that land safely have moved the next number 256 on, every number of the window is in its slot with the right flag and the counter is the number of missing packets, whatever came before |
| LossTimes.SlotTimes | rtp_session_manager.cpp:80-113 | over every run of regular packets each slot in use holds a number of its residue, with the receive time of the last packet with that number, or, if outstanding, with the receive time of the one packet of the current epoch that moved the next number past it |
| LossTimes.RevealsOnce | rtp_session_manager.cpp:86-98 | no number is passed by two packets of an epoch, so a loss is stamped once |
| LossTimes.DueIff | rtp_session_manager.cpp:116-123 | on every run of regular packets the number of a counted slot is due for retransmission exactly when the clock is, modulo 2^64, more than 5 ms after the receive time of the packet that revealed its loss, and past 20 ms and the round trip time |
| LossTimes.MissingDueIff | rtp_session_manager.cpp:116-123 | on every safe run of regular packets each missing number has its own slot and a packet that revealed it, and is due exactly then |
| LossTimes.DueAgainIff | rtp_session_manager.cpp:116-127 | on a clock that has not wrapped, a requested number is due again when 20 ms and the round trip time have passed since the request, and never after 20 requests |
| TransportCcCodec.TransportCcFeedback.Serialize | rtcp_packet.h:426-517 | the buffer holds the wire form of the map in key order, the length is returned, the rest of the buffer is unchanged |
| TransportCcCodec.TransportCcFeedback.Parse | rtcp_packet.h:328-424 | the fields after the call are `ParseEffect` of the old fields and the bytes, for any bytes |
| TransportCcFormat.ParsedHeader | rtcp_packet.h:332-338 | an input of fewer than eight bytes changes nothing; otherwise the feedback count is byte 7 and the reference time the three bytes before it, times 256 |
| TransportCcFormat.ParsedPacket | rtcp_packet.h:334-422 | for any input whose k-th chunk completes the count, packet i is recorded at the first four bytes plus i, as 0 or at the start time plus 250 us for each delta step so far, exactly if its symbol is not reserved and its delta bytes are there |
| TransportCcFormat.ParsedNothing | rtcp_packet.h:342-344 | an input whose chunks never complete the count records nothing |
| TransportCcFormat.ParsedOthers | rtcp_packet.h:391-416 | numbers outside the count are left alone by any input |
| TransportCcQuantisation.NeverDrifts | rtcp_packet.h:451-474 | from any running time on the 250 us grid, after every received packet it is again on the grid and less than 250 us from the true time, for all arrivals whose quotients fit an int |
| TransportCcQuantisation.RoundsDownInOrder | rtcp_packet.h:451-474 | for non-decreasing arrivals, not before the running time and with quotients that fit an int, the running time is exactly the true time rounded down to 250 |
| TransportCcQuantisation.NeverDriftsIff | rtcp_packet.h:451-474 | from any running time on the grid and for all arrivals on any clock, the running time is less than 250 us from every true time, up to whole cycles of 2^32 * 250 us, if and only if it never leaves 64 bits |
| TransportCcQuantisation.RoundsDownOnAnyClock | rtcp_packet.h:451-474 | wherever the encoder is defined, for non-decreasing arrivals less than half a cycle after the tick of the first, the running time is the true time rounded down, less the cycles that the 23 bits of the reference time drop |
| TransportCcQuantisation.FirstArrivalIff | rtcp_packet.h:453-473 | the first delta times 250 fits an int if and only if the number of 2^23 * 64 ms cycles before the arrival is even |
| TransportCcQuantisation.OverflowIff | rtcp_packet.h:466-473 | the product of a delta and 250 fits an int if and only if the delta is at most 8589934 steps either way |
| TransportCcQuantisation.RoundsDownIff | rtcp_packet.h:464-473 | from a running time on the grid and with quotients that fit an int, all received packets are rounded down if and only if each is a multiple of 250 or not before the running time, which is then the packet before it rounded down |
| TransportCcQuantisation.EarlierArrivalRoundsUp | rtcp_packet.h:464-467 | an arrival earlier than the running time is rounded up instead: the pair 1000, 600 becomes 1000, 750 |
| TransportCcDecoder.ScanIsGrammar | rtcp_packet.h:340-389 | the status loop succeeds exactly when some chunk completes the count, and its list is the concatenation of the run-length, one-bit and two-bit expansions up to that chunk |
| TransportCcFormat.RunChunk | rtcp_packet.h:374-388 | the chunk 0x2000 v + n stands for n packets of symbol v, with 0 for not received, 1 and 2 for one and two delta bytes, 3 reserved |
| TransportCcFormat.OneBitChunk | rtcp_packet.h:367-373 | the chunk 0x8000 plus 14 binary digits stands for one packet a digit, first digit first, received with a small delta exactly if it is 1 |
| TransportCcFormat.TwoBitChunk | rtcp_packet.h:349-366 | the chunk 0xC000 plus seven digits of base four stands for the packets with these symbols, first digit first |
| TransportCcDecoder.DecodeClosedForm | rtcp_packet.h:390-422 | entry i exists exactly when the bytes reach past its delta at one byte per small and two per large status, and holds the start time plus 250 times all deltas so far |
| TransportCcDecoder.TruncationLeavesPrefix | rtcp_packet.h:398-410 | cutting the input in the delta section leaves exactly a prefix of the entries |
| TransportCcDecoder.SameMeaning | rtcp_packet.h:342-422 | inputs with equal headers, equal complete statuses and equal complete delta bytes decode alike whatever chunk forms they use |
| TransportCcDecoder.StoreLookup | rtcp_packet.h:391-416 | key base + i holds entry i; reserved statuses and other keys keep what the map held |
| TransportCcRoundTrip.ExpandChunkBits | rtcp_packet.h:479-497 | a packed chunk fits 16 bits and expands to the statuses it was packed from |
| TransportCcFormat.WrittenChunk | rtcp_packet.h:479-497 | the writer packs up to seven symbols into that last form, first packet highest, with 0 for the missing ones |
| TransportCcFormat.HeaderOnWire | rtcp_packet.h:426-462 | the first eight bytes are the base number, the count, the first arrival in ticks of 64 ms modulo 2^23, and a zero byte |
| TransportCcFormat.StatusByStep | rtcp_packet.h:464-476 | as long as the running time stays in 64 bits, a received packet has the one-byte symbol exactly if it moves the running time forward by at most 127 * 250 us |
| TransportCcFormat.DeltaOnWire | rtcp_packet.h:499-511 | a delta from 0 to 127 is one byte, any other of 16 bits is two bytes in two's complement, most significant first |
| TransportCcFormat.FillerOnWire | rtcp_packet.h:512-516 | after the last delta come fewer than four zero bytes, up to a multiple of four |
| TransportCcRoundTrip.RoundTrip | rtcp_packet.h:328-517 | with a received packet, fewer than 65536 entries and deltas of 16 bits, parsing the wire form yields one entry per packet in key order, packets not received stay so, all others are the encoder's times moved by one constant, and the feedback count becomes 0 |
| TransportCcRoundTrip.RoundTripIff | rtcp_packet.h:328-517 | wherever the encoder is defined, with a received packet and fewer than 65536 entries, that is what any receiver parses if and only if every delta fits 16 bits |
| TransportCcCount.FreshRoundTripIff | rtcp_packet.h:328-517 | wherever the encoder is defined, a fresh receiver gets every packet of a non-empty list back, at times moved by one constant, if and only if some packet was received, there are fewer than 65536 and every delta fits 16 bits |
| TransportCcCount.CountWraps | rtcp_packet.h:432 | a fresh receiver never records more packets than the number sent modulo 65536 |
| TransportCcResults.FeedbackRoundTrip | rtcp_packet.h:328-517 | for a map without gaps, with a received packet, fewer than 65536 entries and deltas of 16 bits, packet i is recorded at the decoded base plus i, with decoded time minus start time equal to the encoder's time minus its reference time |
| TransportCcResults.OtherKeysKept | rtcp_packet.h:391-416 | for such a map, keys outside the decoded range keep what the receiving map held |
| TransportCcResults.WireLength | rtcp_packet.h:426-517 | the returned length is 4, or 8 with a received packet, + 2 ceil(n/7) + small + 2 large, padded to 4 |
| TransportCcCount.NothingReceivedParse | rtcp_packet.h:432-462 | without a received packet the parser records nothing for fewer than 65536 packets, and otherwise as many packets not received as the number sent modulo 65536 |
| TransportCcCount.NothingRecordedIff | rtcp_packet.h:432-462 | a fresh receiver then records nothing if and only if fewer than 65536 packets or a multiple of 65536 were sent |
| TransportCcHeader.NumberMatchesIff | rtcp_packet.h:334 | with a received packet, fewer than 65536 entries and deltas of 16 bits, packet i is recorded under its own number if and only if the first number is 0x10001 times the number of packets |
| TransportCcHeader.OwnKeysIff | rtcp_packet.h:334-416 | for every non-empty map, a fresh receiver holds the keys of the map if and only if some packet was received, there are fewer than 65536, the keys have no gap and the first is 0x10001 times their number |
| TransportCcHeader.NumbersNeverMatch | rtcp_packet.h:334 | for every non-empty map of 16-bit numbers without gaps, a fresh receiver holds none of its keys |
| TransportCcHeader.AbsoluteTimesIff | rtcp_packet.h:336-390 | with a received packet, fewer than 65536 entries and deltas of 16 bits, the map after parsing is the one with the encoder's own times if and only if the reference time is zero |
| TransportCcHeader.FreshAbsoluteTimesIff | rtcp_packet.h:336-416 | wherever the encoder is defined, for a fresh receiver and a non-empty list, if and only if those three conditions hold and the reference time is zero |
| TransportCcHeader.LooksLostIff | rtcp_packet.h:390-416 | for a map as in `FeedbackRoundTrip`, a received packet is parsed as not received if and only if the deltas up to it cancel the decoder's start time |
| TransportCcHeader.LooksLostInOrderIff | rtcp_packet.h:390-473 | for such a map and arrivals in order, less than half a cycle after the tick of the first: if and only if the reference time is a multiple of 2^15 and the packet arrived in the first 250 us of the first packet's tick |
| TransportCcHeader.OnePacketLooksLostIff | rtcp_packet.h:390-473 | the same for a single packet at any time the encoder is defined on |
| TransportCcHeader.EarlyPacketLooksLost | rtcp_packet.h:453-473 | a packet received in the first 250 us of the clock is parsed as not received |
| TransportCcHeader.RoundTickLooksLost | rtcp_packet.h:453-473 | so is one received at 2^15 ticks of 64 ms |
| TransportCcResults.CorrectedRoundTrip | rtcp_packet.h:426-517 | for a map as in `FeedbackRoundTrip` whose first number has 16 bits, with a header reader that matches the writer, the same sequence numbers come back, packets not received as 0 and received ones within 250 us of their arrival, for arrivals whose quotients fit an int |
| TransportCcResults.CorrectedRoundTripOnAnyClock | rtcp_packet.h:426-517 | for such a map on any clock they do up to whole cycles, as long as the running time stays inside 64 bits |
| TransportCcResults.CorrectedKeysIff | rtcp_packet.h:426-517 | for every non-empty map, the corrected reader returns its own keys if and only if some packet was received, there are fewer than 65536, the keys have no gap and the first has 16 bits |
| Crc32.Crc32Table.constructor | crc32.h:7-19 | table entry i is i after eight division steps |
| Crc32.Crc32Table.CalculateXorCrc | crc32.h:26-33 | the table-driven loop returns what dividing the message one bit at a time returns |
| Crc32.ByteRound | crc32.h:29-30 | one table lookup divides the eight bits of one byte |
| Crc32.BurstDetected | crc32.h:8-32 | two different messages of one length that differ only inside 32 consecutive bits never have the same fingerprint |
| CrcReference.FingerprintIsChecksum | crc32.h:7-33 | the fingerprint is the complemented remainder of the message, with its first 32 bits complemented, by the polynomial with exponents 32, 26, 23, 22, 16, 12, 11, 10, 8, 7, 5, 4, 2, 1 and 0, xored with 0x5354554E |
| StunPackets.StunPacket.Parse | stun_packet.cpp:21-84 | null exactly when a visited attribute runs past the end, otherwise method, class bits, transaction and user name as the walk finds them |
| StunPackets.StunPacket.Serialize | stun_packet.cpp:95-153 | a fresh 640-byte buffer starts with the sealed message |
| StunPackets.Seal | stun_packet.cpp:122-152 | setting the length, signing, setting it again and appending the fingerprint yields the sealed message for any attributes already in the buffer |
| StunTheorems.ParseReadsAttrs | stun_packet.cpp:66-83 | on a header and any list of padded attributes, `Parse` succeeds with the last user name visited |
| StunTheorems.LastUsernameIff | stun_packet.cpp:67 | that is the last user name of the whole list unless the list ends in an empty one that should have replaced another |
| StunWire.LastAttribute | stun_packet.cpp:67-83 | behind any padded attributes, one that claims more bytes than there are rejects the message, and one whose padding is cut short is taken like the others |
| StunWire.StrayBytes | stun_packet.cpp:67 | one to four bytes behind them are ignored |
| StunTheorems.ReplyRoundTrip | stun_packet.cpp:95-162 | parsing a serialised reply gives the request's transaction and method with only the response class bit set |
| StunWire.ParsedBytes | stun_packet.cpp:45-48 | method, class bits and transaction of an accepted message in terms of its first two bytes and bytes 8 to 19 |
| StunWire.ReplyOnWire | stun_packet.cpp:45-162 | every byte of the reply to any accepted request, in terms of the request, the password, the HMAC and the CRC |
| StunWire.TypeWordBits | stun_packet.cpp:97 | for a method without class bits the type word adds the high class bit at 0x100 and the low one at 0x10 |
| StunTheorems.ReserialiseKeepsClassIff | stun_packet.cpp:45-97 | serialising a parsed message keeps its class if and only if it was a request |
| StunTheorems.SealedAuthentic | stun_packet.cpp:122-152 | for a header with the magic cookie and any attributes other than the two sealing ones that fit the length field, an RFC 5389 verifier accepts integrity and fingerprint, and the whole message if and only if the two leading type bits are zero |
| StunTheorems.ResponseAuthentic | stun_packet.cpp:95-162 | a serialised response to a method without class bits is authentic for its password if and only if the method is below 0x4000 |
| StunTheorems.ReplyAuthenticIff | stun_packet.cpp:45-162 | the reply to any accepted request is authentic if and only if the request's first byte is below 0x40 |
| StunTheorems.DamageDetected | stun_packet.cpp:142-149 | damage anywhere inside 32 consecutive bits of a message that passes the fingerprint check makes it fail |
| Rtp.RtpPacket.Parse | rtp_packet.cpp:33-169 | the fields and the exit taken are those of `ParseEffect`, for any bytes |
| RtpWire.FieldsOfBytes | rtp_packet.cpp:37-52 | whatever the exit, the five header fields of a packet of version 2 in terms of its bytes; a short packet or another version changes nothing |
| RtpWire.PositionsOfBytes | rtp_packet.cpp:53-168 | whatever the exit, what is left of payload offset, payload size, padding size and extensions, in terms of the bytes |
| Rtp.RtpPacket.Walk | rtp_packet.cpp:119-158 | the extension loop stays in its block, ends, and leaves the map of `WalkExtensions` |
| RtpTheorems.EncodeThenParse | rtp_packet.cpp:33-169 | parsing a packet built from any valid parts recovers every part |
| RtpTheorems.ParseThenEncode | rtp_packet.cpp:44-168 | the success exit splits the packet exactly into fixed header, CSRCs, extension, payload and padding |
| RtpExtensions.WalkOnList | rtp_packet.cpp:125-158 | on any well-formed list with padding, the map holds the last length of each visited identifier and keeps the others; only a two-byte element without a value at the very end is not visited |
| RtpWire.OneByteBlock | rtp_packet.cpp:79-158 | a packet whose extension starts with the bytes BE DE and holds one-byte elements leaves the last length of each identifier |
| RtpWire.TwoByteBlock | rtp_packet.cpp:79-158 | the same for the bytes 10 00 and two-byte elements |
| RtpWire.OtherBlock | rtp_packet.cpp:113-116 | behind any other two bytes the extension is skipped |
| RtpExtensions.WalkRecords | rtp_packet.cpp:125-158 | each item of a well-formed list is visited once, in order, except a two-byte element without a value at the very end |
| RtpExtensions.WalkStopsAt | rtp_packet.cpp:135-150 | behind any well-formed items, with more than an element header left, an element that ends the list or is longer than the block is recorded itself, and nothing after it |
| RtpWire.OneByteEnd | rtp_packet.cpp:132-142 | behind any one-byte elements, one with identifier 15, or 0 with a length, ends the list: it is recorded with its length, and nothing after it |
| RtpExtensions.PointerRightIff | rtp_packet.cpp:135-153 | in both profiles, for the last visited element of an identifier, the stored pointer is the start of its value if and only if it is the first item of the block |
| Rtcp.CommonHeader.Parse | rtcp_packet.h:26-42 | the fields are those of `ParseHeader`, or unchanged when there are fewer than four bytes |
| RtcpTheorems.HeaderOfBytes | rtcp_packet.h:26-42 | the fields of any four bytes, with the padding flag equal to the count's top bit and the length modulo 2^16 |
| RtcpTheorems.HeaderOnWire | rtcp_packet.h:43-51 | the four bytes of any header: 0x80, the padding flag at 0x20 and five bits of count, the type, the length in words less one |
| RtcpTheorems.HeaderKeptIff | rtcp_packet.h:26-51 | a header survives the wire if and only if its version is 2, its count has five bits, its length is whole words and its padding flag equals the count's top bit |
| Rtcp.SendReportPacket.Serialize | rtcp_packet.h:163-187 | a fresh 28-byte packet holds the header and the six fields |
| Rtcp.SendReportPacket.SetTimestamp | rtcp_packet.h:197-203 | the two clock fields hold the seconds since 1900 modulo 2^32 and the fraction of the second in units of 2^-32 s |
| Rtcp.SendReportPacket.GetTimestamp | rtcp_packet.h:205-210 | the two clock fields read back in microseconds since 1970 |
| Rtcp.FractionInIntegers | rtcp_packet.h:197-203 | the fraction written is the microseconds of the second times 2^32 / 10^6, rounded down |
| Rtcp.MicrosecondsInIntegers | rtcp_packet.h:205-210 | the time read is the seconds since 1970 and the fraction times 10^6 / 2^32, rounded down |
| Rtcp.TimestampRoundTrip | rtcp_packet.h:197-210 | of the times below 2^32 s, exactly those below 2085978496 s can be read back, and such a time comes back as itself if it is a multiple of 15625 us and as t - 1 us otherwise |
| Rtcp.DelayRoundTrip | rtcp_packet.h:82-96 | of every delay the milliseconds modulo 65536 s come back up to 2 ms short, and the delay itself if and only if it is whole seconds below 65536 |
| Rtcp.DelayInIntegers | rtcp_packet.h:82-96 | what is written is 65.535 units a millisecond and what is read divides by 65.635, both rounded down |
| Rtcp.ReceiverReportBlock.SetDelaySinceLastSrMs | rtcp_packet.h:82-88 | the four bytes at 20 hold the delay units, the rest of the block is unchanged |
| Rtcp.Parse | rtcp_packet.cpp:3-36 | count and output are those of `ParseCompound` for every buffer whose sender reports are complete |
| RtcpTheorems.ReportByType | rtcp_packet.cpp:9-18 | type 200 adds a sender report with its six fields read by position, whatever the length field says, type 201 a receiver report, any other nothing |
| RtcpTheorems.SenderByPosition | rtcp_packet.h:212-240 | a report built from any bytes holds the six words at 4 to 24, or zeros if the size is below four or below the length field modulo 2^16 |
| RtcpTheorems.CompoundSplits | rtcp_packet.cpp:3-36 | concatenated sender reports, with anything after their six fields, and other packets are counted one by one, and the six fields of each report are returned in order |
| RtcpTheorems.CountExactIff | rtcp_packet.cpp:5 | when every sender report is complete, the count is the number of packets if and only if fewer than four bytes follow them |
| RtcpTheorems.CutShort | rtcp_packet.cpp:5-36 | a last packet whose length runs past the end is counted and reported like the others |
| ByteIo.ReadBigEndian | byte_io.h:88-93 | the loop of or-ed shifts returns the big-endian value, for every width |
| ByteIo.ReadLittleEndian | byte_io.h:95-100 | the same in little-endian order |
| ByteIo.WriteBigEndian | byte_io.h:179-184 | the loop stores the big-endian bytes and nothing else |
| ByteIo.WriteLittleEndian | byte_io.h:186-191 | the same in little-endian order |
| Bytes.BigEndianRoundTrip | byte_io.h:88-184 | reading what was written gives the value modulo 256^B |
| Bytes.LittleEndianRoundTrip | byte_io.h:95-191 | the same in little-endian order |
| ByteIo.Read4 | byte_io.h:309-313 | the four-byte reader equals the generic loop |
| ByteIo.Read8 | byte_io.h:352-356 | the eight or-ed shifts equal the generic loop |
| ByteIo.ReadLittle8 | byte_io.h:359-363 | the same in little-endian order |
| ByteIo.Write8 | byte_io.h:375-384 | the eight stores write the bytes `Be64` and nothing else |
| ByteIo.WriteLittle8 | byte_io.h:387-396 | the same for `Le64` |
| ByteIo.FixedWritersAreGeneric | byte_io.h:292-396 | the bytes of the two-, four- and eight-byte writers are those of the generic loop, in both orders |
| ByteIo.SignedRoundTrip | byte_io.h:109-218 | a signed write followed by a signed read is the identity on the two's complement range of B bytes, in both orders |
| ByteIo.SignedIsTwosComplement | byte_io.h:109-160 | any bytes are read as the value of the two's complement range that agrees with them modulo 256^B |

## Left out

- TransportCcCodec.TransportCcFeedback.Serialize: the feedback writer is undefined when `delta * 250` overflows an int, so the method requires that it does not; deltas of 16 bits, the exact condition of the round trip (`RoundTripIff`), imply it (`DeltasFitNoOverflow`).
- Rtcp.Parse: requires the 28 bytes of every sender report to be in the buffer, because the source reads them without a check.
- ByteIo.SignedRoundTrip: partial widths stop at three bytes, where the source's mask `1 <<` on an int is defined.
- Rtcp.SendReportPacket.SetTimestamp: requires less than 2^32 seconds, beyond which the conversion to 32 bits is undefined.
- Rtcp.SendReportPacket.GetTimestamp: requires a time from 1970 on, before which the unsigned difference wraps.
- Rtcp.TimestampRoundTrip: doubles are real numbers, so rounding of the products and sums, which may turn t - 1 into t, is not modelled.
- Rtcp.DelayRoundTrip: likewise over real numbers.
- StunTheorems.SealedAuthentic: HMAC-SHA1 is an arbitrary function of key and text.
- `RTPPacket::Serialize`: it writes an 8-byte header without SSRC, so there is no round trip with `Parse`.
- `RTCPRTPFeedbackPacket`, NACK and payload feedback, extended reports, receiver report parsing and the report block setters other than the delay: stubs, or not called by the constructors.
- `IsStun`, `IsRTCP`, `SetExtension`, `GetExtensionId` and `get_port`: one-line tests and table look-ups.
- `GetNacks`, `GetTotal`, `OnTimer` and `CreateRequest`: no bodies in the repository.
- Peer connection, server, pool and media streams: sockets, timers, threads and SDP.
