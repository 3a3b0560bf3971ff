# Proofs about the streaming and signalling core

This project models, in Dafny, the parts of the repository in which bytes are cut, packed, carried and put together
again, and proves what they promise:

- **Video.** The incremental splitter of the camera's H.264 byte stream (Annex B of ITU-T H.264) with its pending
  buffer, the packetizer (RFC 3550 section 5.1, RFC 6184 sections 5.6 and 5.8), the depacketizer, the sequence-gap test,
  and both programs together from camera to decoder.
- **SIP over TCP.** Cutting the stream into messages by CRLFCRLF and Content-Length (RFC 3261 sections 18.3 and 20.14,
  keep-alives of RFC 5626 section 3.5.1), the receive buffer that grows, shrinks and shifts, the partial-write sender,
  and both ends together.
- **Smaller cores.** G.711 companding, the table of digest nonces over whole runs (RFC 2617 section 3.2.2), the SRV
  sort and failover rotation, base64 (RFC 4648 section 4), the circular frame queue under its two threads, and the
  expansion of compressed domain names (RFC 1035 section 4.1.4).

`dafny verify dfyconfig.toml` checks everything.

Round trips hold of any pair of formats that fit each other. The files whose names end in `Wire`, `Digits`, `Tables` or
`Slots` therefore tie each format to its standard in plain numbers, without the functions the programs are specified with.

Code that changes state in the repository is modelled as classes and methods over arrays and fields, each tied by its
contract to a specification function; the theorems are lemmas about those functions.

| file | what it holds |
|---|---|
| `Sequences.dfy`, `CaseFolding.dfy` | bytes, flattening, slices, memcpy; lower case, letter by letter |
| `AnnexB.dfy` | the splitter as a function of pending bytes and buffer; chunk independence; the serializer it undoes |
| `Synchronization.dfy` | what the buffers dropped before the first start code cost |
| `PacketTrain.dfy` | numbering packets over several NAL units, on a link that may refuse packets |
| `RtpPackets.dfy` | headers, fragments, what the receiver makes of a packet, the round trip of one NAL unit |
| `RtpSender.dfy`, `RtpReceiver.dfy` | the two programs in place |
| `RtpWire.dfy` | every packet byte by byte, and what arrives, in the numbers of the RFCs |
| `CanonicalStreams.dfy` | what a missed start code makes of the decoder's stream |
| `VideoLink.dfy`, `LossyLink.dfy` | whole sessions, camera to decoder; sessions of which packets are lost |
| `TcpFraming.dfy`, `TcpMessages.dfy` | framing as a function of the stream; well-formed messages |
| `TcpHazards.dfy` | where the framing loop crashes, never ends or waits for ever |
| `TcpTransport.dfy`, `TcpLink.dfy` | the receive buffer in place; the sender; both peers |
| `G711.dfy`, `G711Tables.dfy` | the converters and the four buffer codecs; the two laws in numbers |
| `BlockCodec.dfy`, `Base64.dfy`, `Base64Digits.dfy` | blocks of three to blocks of four; base64 with its padding; every character and byte in numbers |
| `DigestTable.dfy`, `DigestRuns.dfy`, `DigestAuth.dfy` | the table, its use over runs, the loops in place |
| `DigestSlots.dfy` | stores, deletions and requests slot by slot; what is deleted stays unused |
| `DigestKeys.dfy`, `DigestCounts.dfy` | which slots share a key over a run; how often each nonce is used and what is printed |
| `SrvRecords.dfy` | bubble sort and rotation |
| `FrameQueue.dfy`, `QueueProtocol.dfy` | the queue in place; two threads interleaved one read or write at a time |
| `DnsNames.dfy`, `DnsWire.dfy` | name expansion against the set of all spellings; the wire format and the text in numbers |

## Where the code does less than it seems to

Each of these is proved, with the exact condition where there is one.

- A start code right at the end of the pending bytes is never found again: the split of the stream is the split of the
  uncut stream exactly when no later buffer begins right behind a start code (`AnnexB.ChunkIndependence`,
  `AnnexB.SessionIsOneShot`, both directions). The decoder sees no difference exactly when every start code missed inside
  a unit has one zero before it and bytes of the unit around it, and none missed at the end completes a unit
  (`CanonicalStreams.SessionReadsAlike`; two units joined by a missed code read like two exactly when one zero stands
  before it, `CanonicalStreams.JoinedReads`).
- Before synchronization whole buffers are dropped. What is lost are exactly the NAL units those bytes complete up to the
  first byte behind the start code that synchronizes, so a session yields what the whole stream yields exactly when there
  are none and no start code is missed later (`Synchronization.SessionIsWholeStream`). A first start code cut in two is
  such a loss (`Synchronization.LostFirstNal`, within the program's bounds by `VideoLink.LostSessionIsDefined`).
- A NAL unit arrives unchanged exactly when `Survives` holds: not fragmented into a single fragment (1301 bytes), no
  forbidden bit when fragmented, not of type 28 when sent whole, no parameter set longer than the receive buffer
  (`RtpPackets.RoundTrip`).
- The gap test is silent exactly about losses whose next packet carries the number zero and losses of a multiple of
  65536 packets, whatever else of a session is lost (`RtpReceiver.GapTestExact`, `LossyLink.SessionLossesReported`),
  so about none in a session of fewer than 65536 packets but those behind the last one delivered
  (`LossyLink.ShortSessionLosses`); `LossyLink.LossBeforeZero` is a loss it does not see. It reports a datagram too
  short for a header unless the packet before carried zero (`RtpReceiver.ShortIsReported`).
- A send that takes nothing is reported as success with the message cut short (`TcpLink.ShortSuccess`,
  `TcpLink.FailureReported`).
- A Content-Length header without a colon makes the framing loop follow a null pointer, and a negative length that
  makes the message empty keeps it in place for ever (`TcpHazards.CrashesHere`, `TcpHazards.StallsHere`). The loop does
  neither exactly when every block of headers it reads has a colon behind the header's name and a message length other than
  zero (`TcpHazards.SaneByBlocks`). Complete headers whose message length is below zero block the connection whatever
  arrives, and only those do, because the comparison is unsigned (`TcpHazards.BlockedForEver`, `TcpHazards.BlocksHere`).
- u-law code 0x7F comes back as 0xFF; A-law samples from -7 to -1 come back as -248 (`G711.ULawCodes`,
  `G711.ALawErrorNegative`).
- Decoded base64 ends in a zero byte, preceded by one or two bytes of padding garbage unless the length is a multiple of
  three (`Base64.DecodedEncoded`, the garbage itself in `Base64Digits.DecodedExactly`). Of three characters at the end the
  decoder writes one byte, of two it writes three (`Base64Digits.TailInNumbers`).
- A Call-ID of 64 characters or more is truncated in the table. Storing it twice makes two slots share a key
  (`DigestKeys.SharedKey`, a run of two challenges); over any run, no two slots share one at any time exactly when no
  store finds the truncated Call-ID with its realm already there (`DigestKeys.KeysStayDistinct`).
- A slot that takes a new challenge keeps the answer code of its first one, and a deletion clears one slot of its call
  (`DigestSlots.StoredSlot`, `DigestSlots.DeletedSlot`).
- A pair of nonce and count is sent twice exactly when a nonce is answered with a count, which only a challenge with a
  `qop` of at least four characters gets, in two challenges of a run (`DigestRuns.NoPairSentTwice`). What is printed
  repeats exactly then or when a nonce is used as often as needs a ninth digit (`DigestCounts.NothingPrintedTwice`), which
  takes at least a hundred million events (`DigestCounts.FewEvents`).

## Model

| member | source | states |
|---|---|---|
| AnnexB.FindHitIsFirst | rtpavcsend.c:161-164 | the search yields the first start code with a byte behind it, and none lies before it |
| AnnexB.FindHitUnique | rtpavcsend.c:161-164 | any place with no hit before it and a hit at it is the one the search finds, also over the whole buffer when there is none |
| AnnexB.StripZerosIs | rtpavcsend.c:167-169 | what is left is a prefix not ending in zero, and everything dropped is zero |
| AnnexB.ScanSplit | rtpavcsend.c:160-179 | cutting a string and then the remainder with more bytes gives the same NAL units and remainder as cutting all at once |
| AnnexB.LoopCuts | rtpavcsend.c:166-174 | taking the unit before a start code and going on behind it keeps "units out so far, then the split of what follows" equal to the whole split |
| AnnexB.ResumeFindsTheSame | rtpavcsend.c:152-153 | resuming two bytes before the end misses no start code unless the pending bytes end in one |
| AnnexB.MissedCodeStays | rtpavcsend.c:152-161 | a start code that ends the pending bytes stays inside what is cut off or kept |
| AnnexB.TaintStays | rtpavcsend.c:151-179 | a start code once missed is never found by any later calls |
| AnnexB.ChunkIndependence | rtpavcsend.c:151-179 | from a synchronized state, the calls yield the split of the concatenated bytes if and only if no nonempty buffer begins right behind a start code |
| AnnexB.DroppedBeforeSync | rtpavcsend.c:135-150 | buffers before the synchronizing one have no effect at all |
| AnnexB.SessionIsOneShot | rtpavcsend.c:127-182 | a whole session equals one call with all bytes from the synchronizing buffer on, if and only if no later buffer begins right behind a start code; the pending buffer is not empty again |
| AnnexB.RunKeepsSomething | rtpavcsend.c:176-179 | once synchronized, the pending buffer never becomes empty |
| AnnexB.ScanYieldsWellFormed | rtpavcsend.c:160-179 | every unit cut off is nonempty, ends in no zero and holds no start code |
| AnnexB.NoCodeInNals | rtpavcsend.c:160-179 | neither the units nor the remainder of a full scan hold a start code with a byte behind it |
| AnnexB.OneShotUndoesSerialize | rtpavcsend.c:135-179 | splitting any list of well-formed units written behind start codes with any number of extra zeros gives that list back, the last one pending |
| AnnexB.MissedCodeShows | rtpavcsend.c:151-179 | whenever a buffer begins right behind a start code, the run's result holds a start code inside a unit or the remainder |
| Synchronization.BytesInFront | rtpavcsend.c:135-179 | bytes in front of a stream add exactly the units they complete up to the first byte behind its first start code, and change nothing behind it |
| Synchronization.UncutStream | rtpavcsend.c:135-179 | the whole stream yields the units lost before synchronization and then those of the stream from the synchronizing buffer on |
| Synchronization.SessionIsWholeStream | rtpavcsend.c:127-182 | a session yields what the whole stream yields if and only if no later buffer begins right behind a start code and no unit is lost before synchronization; without a missed start code exactly the lost units are missing |
| Synchronization.NeverSynchronized | rtpavcsend.c:135-150 | a session without a synchronizing buffer yields nothing, as the whole stream does if and only if it holds no start code with a byte behind it |
| Synchronization.LostFirstNal | rtpavcsend.c:135-150 | a first start code cut in two before synchronization loses its unit, though the uncut stream yields it |
| PacketTrain.TrainAppend | rtpavcsend.c:79-100 | packets of two lists of units in a row are the packets of the first, then those of the second numbered on |
| PacketTrain.LossyTrainMore | rtpavcsend.c:77-99 | on a link that refuses packets, one more unit sent up to its first refused packet continues with the first unused number |
| RtpPackets.HeaderFields | rtpavcsend.c:50-54 | the receiver's expressions recover sequence number and timestamp from the header the sender wrote |
| RtpPackets.DecodeFragment | video_rtp_recv.c:45-69 | the receiver turns a fragment into its chunk, behind start code and rebuilt header byte only when Start is set without End |
| RtpPackets.FragmentedDecodes | rtpavcsend.c:83-103 | the fragments of a unit decode to start code, header byte without forbidden bit and body; a single fragment to the body alone |
| RtpPackets.WholeDecodes | rtpavcsend.c:73-81 | a unit sent whole decodes to start code and unit, cut at the receive buffer's size |
| RtpPackets.WholeFuDecodes | video_rtp_recv.c:45-69 | a unit of type 28 sent whole is taken for a fragment and comes out shorter, or cannot be unpacked at all |
| RtpPackets.RoundTrip | rtpavcsend.c:43-106 | packets of one unit decode to four-byte start code and that unit if and only if the unit survives; never to more bytes |
| RtpPackets.FragmentedShape | rtpavcsend.c:83-103 | ceil((n - 1) / 1300) packets of at most 1300 payload bytes, Start on exactly the first, End and marker on exactly the last |
| RtpPackets.PacketsNumbered | rtpavcsend.c:43-106 | packet k of a unit carries number seqno + k modulo 65536 and the call's one timestamp |
| RtpPackets.DecodedAppend | video_rtp_recv.c:23-80 | the decoder's bytes for two lists of packets are those of the first, then those of the second |
| RtpWire.WholeInNumbers | rtpavcsend.c:43-81 | units of types 6 to 9, and all others up to 1300 bytes, go out as one packet, version 2, marker on exactly the former, then the unit |
| RtpWire.FragmentsInNumbers | rtpavcsend.c:83-103 | every other unit goes out as ceil((n - 1) / 1300) packets, each given byte by byte: header fields, FU indicator, FU header and its 1300 bytes of the unit |
| RtpWire.ArrivesInNumbers | video_rtp_recv.c:23-80 | a unit comes back behind 0, 0, 0, 1 if and only if it is of types 6 to 9 and at most 2036 bytes, or of another type but 28 and at most 1300 bytes, or longer, not of 1301 bytes, and below 128 in its first byte |
| RtpWire.CallInNumbers | rtpavcsend.c:127-158 | the bounds of one call: three bytes, 655360 pending, 4084 for a unit of types 6 to 9 |
| RtpSender.RtpSend.constructor | rtpavcsend.c:26-38 | a context with nothing pending whose first number is 1, counting from the packets already on the socket |
| RtpSender.RtpSend.SendNal | rtpavcsend.c:43-106 | exactly the specified packets go out, up to the first one refused; every packet of the session stays numbered k + 1 modulo 65536 |
| RtpSender.RtpSend.ChooseMode | rtpavcsend.c:57-72 | a unit is sent whole exactly when it is a parameter unit or fits a fragment, and parameter units carry the marker |
| RtpSender.RtpSend.SendWhole | rtpavcsend.c:73-81 | the one packet of an unfragmented unit goes out, and a number is used up only if it does |
| RtpSender.RtpSend.FragmentLoop | rtpavcsend.c:88-103 | the header bytes rewritten in place yield the specified fragments one by one, up to the first refused |
| RtpSender.RtpSend.SendFragment | rtpavcsend.c:90-102 | one pass sends the fragment with its flags and leaves the buffer with the next number and Start cleared |
| RtpSender.RtpSend.TrimZeros | rtpavcsend.c:167-169 | the backward loop finds exactly the zeros that end the unit |
| RtpSender.RtpSend.EmitNal | rtpavcsend.c:165-172 | an empty unit sends nothing; any other extends what was delivered by its packets |
| RtpSender.RtpSend.Synchronize | rtpavcsend.c:135-150 | finds the first start code with a byte behind it and keeps what follows; otherwise nothing changes |
| RtpSender.RtpSend.ScanLoop | rtpavcsend.c:160-175 | all units of the split are sent in order, and the remainder begins where the loop says |
| RtpSender.RtpSend.KeepRest | rtpavcsend.c:176-179 | the remainder moves to the front of the pending buffer unchanged |
| RtpSender.RtpSend.AvcAnalyzeAndSend | rtpavcsend.c:127-182 | one call leaves the split's remainder pending and has sent the split's units, each up to its first refused packet, all of them on a lossless socket |
| RtpReceiver.UnpackRTPH264 | video_rtp_recv.c:23-80 | fills the output with the specified bytes and the frame record with number, timestamp and flags; short packets give -1 and change nothing |
| RtpReceiver.VideoReceiver.ReceivePacket | video_rtp_recv.c:138-212 | the decoder gets the packet's bytes, or a call with -1 for a datagram under 12 bytes; a gap is counted exactly when the number, a stale one after a short datagram, is neither zero nor one above the last |
| RtpReceiver.VideoReceiver.ReceiveAll | video_rtp_recv.c:138-212 | over a list of datagrams of any lengths: decoder bytes, calls with -1, gap count and last number of the specification |
| RtpReceiver.ShortIsReported | video_rtp_recv.c:26-28 | a short datagram is reported as a gap if and only if the last number is not zero |
| RtpReceiver.GivenIsDecoded | video_rtp_recv.c:138-212 | without short datagrams the decoder gets what the packets decode to |
| RtpReceiver.NoGapInOrder | video_rtp_recv.c:206-210 | packets numbered through are never reported as a gap, wrap-around included |
| RtpReceiver.GapTestExact | video_rtp_recv.c:206-210 | when packet j of a session arrives right after packet k, or as the first, a gap is reported if and only if the number of packets lost between is no multiple of 65536 and j does not carry zero |
| VideoLink.ArriveInParts | video_rtp_recv.c:23-80 | two parts arrive as expected together if and only if each does: no part makes up for another |
| VideoLink.SessionArrives | rtpavcsend.c:127-182 | over any session, the decoder gets the canonical form of the units cut off if and only if all of them survive |
| CanonicalStreams.LateScanRefines | rtpavcsend.c:151-179 | a scan that resumes late loses nothing: the full scan's units are the pieces of its units, followed by what a full scan makes of its remainder |
| CanonicalStreams.RunRefines | rtpavcsend.c:151-179 | for any buffers, however they cut start codes, the uncut stream's units are the pieces of the session's units and of its remainder |
| CanonicalStreams.SessionRefines | rtpavcsend.c:127-182 | the same from the first call on, for the stream from the synchronizing buffer on |
| CanonicalStreams.TransparentReads | video_rtp_recv.c:23-80 | a unit in which every missed start code has one zero before it and bytes around it reads, for the decoder, like the units it should have been |
| CanonicalStreams.JoinedReads | rtpavcsend.c:151-174 | two units joined by a missed start code read like two if and only if exactly one zero stands before the code |
| CanonicalStreams.ReadSame | video_rtp_recv.c:23-80 | units cut off and well-formed units make the same decoder stream if and only if all of the former are of that kind and the latter are their pieces |
| CanonicalStreams.SessionReadsAlike | rtpavcsend.c:127-182 | for every session that synchronizes: its units read like those of the stream from there on if and only if every missed code reads as one and none at the end completes a unit; like those of the whole stream if and only if, besides, none is lost before |
| VideoLink.EndToEnd | rtpavcsend.c:43-182 | camera stream in any buffers, from the synchronizing one on: where all units cut off survive, the decoder's bytes are the canonical form of the uncut stream's units if and only if every missed start code reads as one; where no later buffer begins right behind a start code, if and only if all units of the stream survive |
| VideoLink.EndToEndWhole | rtpavcsend.c:43-182 | the same for the stream from its first byte on: besides, no unit may be lost before synchronization |
| VideoLink.EndToEndSerialized | rtpavcsend.c:43-182 | the same for a stream written with three- or four-byte start codes; where no later buffer begins right behind a start code, the last unit is pending |
| VideoLink.LostSessionIsDefined | rtpavcsend.c:135-157 | the session that loses its first unit stays inside every bound the code needs, and so does the uncut call |
| VideoLink.SessionNumbered | rtpavcsend.c:79-100 | packet k of a whole session carries seqno + k modulo 65536 across whole and fragmented units |
| VideoLink.SessionHasNoGap | video_rtp_recv.c:206-210 | a fresh receiver reports no gap over a complete session in order |
| VideoLink.VideoSend | video_rtp_send.c:96-100 | the loop over camera buffers puts the session's packets on a lossless socket, in order |
| VideoLink.CameraToDecoder | rtpavcsend.c:43-182 | both programs run together: no gap is reported; the decoder holds the canonical form of the units cut off if and only if all survive, and then that of the camera's stream if and only if every missed start code reads as one, of the whole stream if and only if, besides, no unit is lost before synchronization |
| LossyLink.LossesReported | video_rtp_recv.c:206-210 | whichever packets of a numbered list are lost, the gaps reported are exactly the losses that are no multiple of 65536 and do not end at a packet with the number zero |
| LossyLink.SessionLossesReported | video_rtp_recv.c:206-210 | the same for a whole session of the sender and a fresh receiver |
| LossyLink.ShortSessionLosses | video_rtp_recv.c:206-210 | of at most 65535 packets, no gap is reported if and only if nothing sent before the last packet delivered was lost |
| LossyLink.LossBeforeZero | video_rtp_recv.c:206-210 | a longer session in which a lost packet is not noticed: the one before the packet with number zero |
| TcpFraming.FindIsFirst | lib-osip/libeXosip2-3.6.0/src/eXtl_tcp.c:292-308 | the search yields the first match and none lies before it |
| TcpFraming.NextStepStable | lib-osip/libeXosip2-3.6.0/src/eXtl_tcp.c:325-386 | a decision other than waiting does not change when more bytes arrive |
| TcpFraming.FramesSplit | lib-osip/libeXosip2-3.6.0/src/eXtl_tcp.c:325-386 | framing s and then its residue with t gives the frames and the residue of s + t |
| TcpFraming.FramesConserve | lib-osip/libeXosip2-3.6.0/src/eXtl_tcp.c:325-386 | the frames' bytes followed by the residue are the stream, and the residue holds no complete frame |
| TcpFraming.SaneEnds | lib-osip/libeXosip2-3.6.0/src/eXtl_tcp.c:325-386 | the loop comes to an end on a stream if and only if no step of it crashes or repeats itself |
| TcpFraming.SanePrefix | lib-osip/libeXosip2-3.6.0/src/eXtl_tcp.c:352-376 | a stream on which the loop never goes wrong has only such prefixes |
| TcpFraming.SaneRest | lib-osip/libeXosip2-3.6.0/src/eXtl_tcp.c:352-376 | dropping the frames already taken keeps it so |
| TcpMessages.FramesUndoWriting | lib-osip/libeXosip2-3.6.0/src/eXtl_tcp.c:319-387 | any list of well-formed messages and keep-alives written on a stream comes back frame by frame, nothing left over |
| TcpMessages.HeaderFound | lib-osip/libeXosip2-3.6.0/src/eXtl_tcp.c:344-351 | of the four forms of the name, in any mixture of cases, the search finds the first one of the preferred form |
| TcpMessages.FoundInAnyCase | lib-osip/libosip2-3.6.0/src/osipparser2/osip_port.c:474-491 | the search of the lower-case form finds a word exactly where it stands with each letter as it is or 32 below |
| TcpMessages.HeaderExact | lib-osip/libeXosip2-3.6.0/src/eXtl_tcp.c:345-351 | in any headers the search finds the first place of the first of the four forms that stands there, or nothing exactly when none does |
| TcpMessages.UsualNames | lib-osip/libeXosip2-3.6.0/src/eXtl_tcp.c:345-351 | Content-Length and l with a colon, or spaces and a colon, are the four forms |
| TcpMessages.LengthFound | lib-osip/libeXosip2-3.6.0/src/eXtl_tcp.c:344-366 | the announced length is the number printed behind the name, with other headers before and behind it |
| TcpMessages.AtoiOfDecimal | lib-osip/libeXosip2-3.6.0/src/eXtl_tcp.c:366 | reading a printed number gives the number, whatever blanks precede and whatever text follows it |
| TcpMessages.AtoiOfSigned | lib-osip/libeXosip2-3.6.0/src/eXtl_tcp.c:366 | so is one behind a minus or plus sign, which negates it or not |
| TcpMessages.ComposedIsWellFormed | lib-osip/libeXosip2-3.6.0/src/eXtl_tcp.c:341-378 | headers with a Content-Length anywhere, long or compact, and any body of that length form exactly one message |
| TcpHazards.SaneByBlocks | lib-osip/libeXosip2-3.6.0/src/eXtl_tcp.c:344-376 | the loop goes wrong nowhere if and only if every block of headers it reads has its colon and a message length other than zero |
| TcpHazards.BlockedForEver | lib-osip/libeXosip2-3.6.0/src/eXtl_tcp.c:372-377 | complete headers keep the loop waiting whatever arrives if and only if the message length is below zero |
| TcpHazards.CrashesHere | lib-osip/libeXosip2-3.6.0/src/eXtl_tcp.c:352-356 | a compact header with a space for its colon leads to the null pointer |
| TcpHazards.StallsHere | lib-osip/libeXosip2-3.6.0/src/eXtl_tcp.c:372-383 | a length of -12 behind eight bytes of headers leaves an empty message |
| TcpHazards.BlocksHere | lib-osip/libeXosip2-3.6.0/src/eXtl_tcp.c:372-377 | a length of -13 in the same place keeps the loop waiting whatever follows |
| TcpHazards.UsualStream | lib-osip/libeXosip2-3.6.0/src/eXtl_tcp.c:319-387 | a keep-alive and a message with Content-Length: 5 in capitals and small letters come out whole |
| TcpTransport.BufferFind | lib-osip/libeXosip2-3.6.0/src/eXtl_tcp.c:292-308 | the memchr loop returns the first match inside the given bytes, or none exactly when there is none |
| TcpTransport.CStringAt | lib-osip/libeXosip2-3.6.0/src/eXtl_tcp.c:341-342 | with the NUL stuffed in, the string ends at it or at an earlier NUL of the headers |
| TcpTransport.SockInfo.AnnouncedLength | lib-osip/libeXosip2-3.6.0/src/eXtl_tcp.c:341-370 | the announced length, none, or a crash for a missing colon; unless it crashes the buffer is byte for byte as before |
| TcpTransport.SockInfo.HandleMessages | lib-osip/libeXosip2-3.6.0/src/eXtl_tcp.c:319-387 | for every content: delivers exactly the complete messages at the front, in order; the bytes not consumed are the residue; ends, crashes or repeats itself exactly as the residue decides; the buffer is unchanged unless it crashes |
| TcpTransport.SockInfo.MakeRoom | lib-osip/libeXosip2-3.6.0/src/eXtl_tcp.c:392-417 | at least one byte of room afterwards, the bytes held are kept, a full buffer grows by 1000, an empty one has its first size again, any other stays |
| TcpTransport.SockInfo.DropFront | lib-osip/libeXosip2-3.6.0/src/eXtl_tcp.c:443-451 | exactly the bytes behind the consumed ones are held |
| TcpTransport.SockInfo.TakeIn | lib-osip/libeXosip2-3.6.0/src/eXtl_tcp.c:437-453 | delivered messages and residue stay those of framing all bytes ever received at once, up to the point where the loop goes wrong |
| TcpTransport.SockInfo.TcpRecv | lib-osip/libeXosip2-3.6.0/src/eXtl_tcp.c:389-455 | the same for any outcome of recv and any bytes: what arrived is framed, nothing is lost between wire and connection, and the result tells whether the loop went wrong; a zero result means the peer closed and nothing is left, since room is always offered |
| TcpLink.SteadySendsAll | lib-osip/libeXosip2-3.6.0/src/eXtl_tcp.c:1006-1056 | writes that all make progress, and would-blocks in between, add up to the whole message |
| TcpLink.ShortSuccess | lib-osip/libeXosip2-3.6.0/src/eXtl_tcp.c:1044-1055 | success with the message cut short happens if and only if some send took nothing before the message was out |
| TcpLink.FailureReported | lib-osip/libeXosip2-3.6.0/src/eXtl_tcp.c:1011-1056 | the sender returns -1 if and only if a send or select fails while every write before moved the message forward without finishing it; otherwise 0 |
| TcpLink.SendSockinfo | lib-osip/libeXosip2-3.6.0/src/eXtl_tcp.c:1006-1056 | the wire gains exactly a prefix of the message, as long as the schedule of writes allows |
| TcpLink.SendOnce | lib-osip/libeXosip2-3.6.0/src/eXtl_tcp.c:1011-1053 | one send, and select after a would-block, puts exactly the bytes taken on the wire and goes on only if some are left |
| TcpLink.WrittenMore | lib-osip/libeXosip2-3.6.0/src/eXtl_tcp.c:1046-1051 | each partial write moves the writer on by its bytes, within a message or to its end |
| TcpLink.DeliveredIsPrefix | lib-osip/libeXosip2-3.6.0/src/eXtl_tcp.c:389-455 | what any part of a well-formed stream delivers is a prefix of its messages, and all of them when nothing is left |
| TcpLink.Exchange | lib-osip/libeXosip2-3.6.0/src/eXtl_tcp.c:319-455 | both peers one system call at a time in any order, reads also while a message is partly written: messages arrive intact, once, in order; what was got is what the bytes written and read hold, all of it when everything is out and read |
| G711.Search | g711codec.c:6-15 | the first table entry not below the value |
| G711.Linear2ULaw | g711codec.c:112-140 | the program's converter is the specified encoder |
| G711.Linear2ALaw | g711codec.c:77-105 | the program's converter is the specified encoder, with arithmetic shift on the negative magnitudes |
| G711.ULawStepMiddle | g711codec.c:112-140 | a biased magnitude becomes the middle of its step, whose width doubles from segment to segment |
| G711.ULawMonotone | g711codec.c:55-140 | decode after encode is monotone on all integers |
| G711.ULawOdd | g711codec.c:55-140 | decode after encode is odd |
| G711.ULawIdempotent | g711codec.c:55-140 | decode after encode changes nothing the second time |
| G711.ULawError | g711codec.c:55-140 | 32 times the error is at most the magnitude plus 132 up to 32635; beyond it the result is +-32124 |
| G711.ULawCodes | g711codec.c:55-140 | every code comes back after decoding and encoding, except that 0x7F becomes 0xFF |
| G711.ALawErrorPositive | g711codec.c:21-105 | 32 times the error is at most x + 256 for 16-bit samples not below zero |
| G711.ALawErrorNegative | g711codec.c:21-105 | on negative samples 32 times the error is at most the magnitude plus 480 if and only if x <= -8; the others decode to -248 |
| G711.ALawCodes | g711codec.c:21-105 | every A-law code comes back after decoding and encoding |
| G711.G711aDecode | g711codec.c:143-161 | each code's sample, no truncation by the cast, nothing else written; twice the length is returned |
| G711.G711uDecode | g711codec.c:163-181 | the same for u-law |
| G711.G711aEncode | g711codec.c:183-193 | each sample's code, nothing else written |
| G711.G711uEncode | g711codec.c:195-205 | the same for u-law |
| G711.ALawBuffers | g711codec.c:143-193 | A-law buffers of any length survive decoding and encoding |
| G711.ULawBuffers | g711codec.c:163-205 | a u-law buffer survives decoding and encoding if and only if it holds no 0x7F |
| G711.ULawSamplesSettle | g711codec.c:163-205 | sample buffers that went through the u-law codec once go through unchanged |
| G711Tables.ULawCodeTable | g711codec.c:55-69 | the sample of each u-law code: inverted bits, sign, segment and step |
| G711Tables.ALawCodeTable | g711codec.c:21-44 | the sample of each A-law code: even bits inverted, sign, segment and step |
| G711Tables.ULawRounds | g711codec.c:55-140 | any sample comes back as the middle of its step, clipped at 32635, the widths given as numbers |
| G711Tables.ALawRounds | g711codec.c:21-105 | any 16-bit sample comes back as the middle of its step, negative ones eight further in, and -248 for -7 to -1 |
| BlockCodec.Blocks | lib-osip/libeXosip2-3.6.0/src/jauth.c:381-389 | full blocks come back whatever the block mapping, as long as each block does |
| Base64.ValOfSymbol | lib-osip/libeXosip2-3.6.0/src/jauth.c:235-370 | the value of the alphabet's k-th character is k, and it is no padding |
| Base64.BlockDecodes | lib-osip/libeXosip2-3.6.0/src/jauth.c:381-389 | three bytes come back from their four characters |
| Base64.DecodedEncoded | lib-osip/libeXosip2-3.6.0/src/jauth.c:373-495 | decoding an encoded string has it as prefix and length 3 * ceil(n / 3) + 1, and adds nothing but the zero byte if and only if 3 divides n |
| Base64.EncodeString | lib-osip/libeXosip2-3.6.0/src/jauth.c:423-495 | the pointer loop writes the specified characters inside its allocation |
| Base64.DecodeString | lib-osip/libeXosip2-3.6.0/src/jauth.c:373-419 | the index loop writes the specified bytes inside its allocation, for every input string |
| Base64Digits.SymbolCodes | lib-osip/libeXosip2-3.6.0/src/jauth.c:420-421 | the characters of the 64 digits are the codes 65 to 90, 97 to 122, 48 to 57, 43 and 47 |
| Base64Digits.CharacterValues | lib-osip/libeXosip2-3.6.0/src/jauth.c:235-370 | every character's value, 255 for '=' and 0 outside the alphabet |
| Base64Digits.EncodedInDigits | lib-osip/libeXosip2-3.6.0/src/jauth.c:423-495 | every character of every encoding is the digit of its six bits, '=' where no bits are left, 4 * ceil(n / 3) in all |
| Base64Digits.DecodedInNumbers | lib-osip/libeXosip2-3.6.0/src/jauth.c:381-389 | the three bytes of each full group of four characters, whatever the characters |
| Base64Digits.DecodedBehind | lib-osip/libeXosip2-3.6.0/src/jauth.c:373-419 | behind the full groups comes what the last characters leave, and nothing else |
| Base64Digits.TailInNumbers | lib-osip/libeXosip2-3.6.0/src/jauth.c:390-416 | what one to three characters at the end leave: nothing, three bytes or one, and the zero |
| Base64Digits.DecodedExactly | lib-osip/libeXosip2-3.6.0/src/jauth.c:373-495 | decoding an encoded string gives it, then 15 and 255 or 63 where padding was needed, then a zero |
| DigestTable.StoredKeepsKeys | lib-osip/libeXosip2-3.6.0/src/jauth.c:1102-1150 | storing keeps all (Call-ID, realm) keys distinct if and only if no overlong Call-ID is cut to one already there |
| DigestTable.DeletedKeepsKeys | lib-osip/libeXosip2-3.6.0/src/jauth.c:1152-1169 | deleting keeps them distinct |
| DigestTable.SameTextIs | lib-osip/libeXosip2-3.6.0/src/jauth.c:1113-1118 | Call-IDs and realms are equal when each letter is, or its capital or small one |
| DigestSlots.StoredSlot | lib-osip/libeXosip2-3.6.0/src/jauth.c:1102-1150 | a store changes one slot: the first of the Call-ID and realm, which keeps all but challenge and count, else the first empty one, which is filled, else none |
| DigestSlots.DeletedSlot | lib-osip/libeXosip2-3.6.0/src/jauth.c:1152-1169 | a deletion empties exactly the first slot of the call and leaves the others; one slot fewer answers |
| DigestSlots.RoomKept | lib-osip/libeXosip2-3.6.0/src/jauth.c:1102-1169 | of 100 slots a new key takes one while there is one, a known key none, and a deletion gives one back |
| DigestSlots.CodesStored | lib-osip/libeXosip2-3.6.0/src/eXosip.c:1378-1472 | challenges are stored with 401, those of a proxy with 407 |
| DigestSlots.RequestEnds | lib-osip/libeXosip2-3.6.0/src/eXosip.c:1283-1348 | a request succeeds if and only if every slot of its call is ready; else it tells what the first that is not lacks |
| DigestSlots.ReplyEnds | lib-osip/libeXosip2-3.6.0/src/eXosip.c:1360-1412 | so does the reply to the challenges of one kind |
| DigestSlots.DeletedStaysUnused | lib-osip/libeXosip2-3.6.0/src/jauth.c:1152-1169 | a nonce held only in the slot deleted is used by no later event until it is answered in a challenge again |
| DigestSlots.EndedCall | lib-osip/libeXosip2-3.6.0/src/jauth.c:1152-1169 | once the only slot of a call is deleted, a request of that call adds nothing and succeeds |
| DigestSlots.PlainRunSendsNone | lib-osip/libeXosip2-3.6.0/src/jauth.c:726-757 | a run of challenges without a qop of four characters sends no count |
| DigestSlots.CountedFromOne | lib-osip/libeXosip2-3.6.0/src/jauth.c:726-757 | one with such a qop is answered with count 1, and with 2 in the next request |
| DigestRuns.AllGranted | lib-osip/libeXosip2-3.6.0/src/eXosip.c:1360-1412 | a reply succeeds if and only if every challenge of the kind is answered |
| DigestRuns.CountedKeepsInv | lib-osip/libeXosip2-3.6.0/src/eXosip.c:1313-1332 | answering a slot again keeps every counting slot's count equal to the number of headers sent with its nonce and a count; without a qop nothing is counted |
| DigestRuns.AnsweredOneKeepsInv | lib-osip/libeXosip2-3.6.0/src/eXosip.c:1378-1405 | answering a new challenge with count 1 and storing it, over an old slot, in an empty one or nowhere, keeps it too |
| DigestRuns.RequestedKeepsInv | lib-osip/libeXosip2-3.6.0/src/eXosip.c:1283-1348 | so does a request that adds credentials for all slots of its call, wherever it stops |
| DigestRuns.NoPairSentTwice | lib-osip/libeXosip2-3.6.0/src/jauth.c:696-757 | in any run, no pair of nonce and count is sent twice if and only if no nonce is answered with a count (a qop of at least four characters) in two challenges, and then and only then the counts of each nonce are 1, 2, 3 and so on; updates, deletions and a full table included |
| DigestKeys.StoredAllKeys | lib-osip/libeXosip2-3.6.0/src/jauth.c:1102-1150 | storing the challenges of a response keeps all keys distinct if and only if none of the stores collides |
| DigestKeys.NextKeys | lib-osip/libeXosip2-3.6.0/src/eXosip.c:1283-1472 | after any event the keys are still distinct if and only if no store of the event finds its truncated Call-ID with the same realm already there |
| DigestKeys.KeysStayDistinct | lib-osip/libeXosip2-3.6.0/src/jauth.c:1102-1169 | over any run from the empty table, no two slots in use share Call-ID and realm after any prefix of it if and only if no store collides |
| DigestKeys.RunKeepsKeys | lib-osip/libeXosip2-3.6.0/src/jauth.c:1102-1169 | where all Call-IDs fit their field, no store collides and no two slots in use share a key |
| DigestKeys.SharedKey | lib-osip/libeXosip2-3.6.0/src/jauth.c:1102-1150 | two challenges with the same overlong Call-ID and realm, from the empty table on, leave two slots with one key |
| DigestCounts.RunUses | lib-osip/libeXosip2-3.6.0/src/eXosip.c:1283-1472 | how often a nonce is sent with a count over a run follows from the events alone |
| DigestCounts.NothingPrintedTwice | lib-osip/libeXosip2-3.6.0/src/jauth.c:744 | in any run, no printed pair is sent twice if and only if no nonce is answered with a count in two challenges and the events use none a hundred million times |
| DigestCounts.FewEvents | lib-osip/libeXosip2-3.6.0/src/jauth.c:744 | in a run of fewer than a hundred million events, nonces answered once each are enough |
| DigestCounts.PrintedCollides | lib-osip/libeXosip2-3.6.0/src/jauth.c:744 | every nine-digit count ending in zero prints like an eight-digit one |
| DigestRuns.RepeatedNonce | lib-osip/libeXosip2-3.6.0/src/jauth.c:951-1021 | a run in which a nonce is answered with a count twice sends a pair twice, from whatever table it starts |
| DigestAuth.HttpAuths.StoreNonce | lib-osip/libeXosip2-3.6.0/src/jauth.c:1102-1150 | the two loops store as specified, and fail only when the key is new and the table full |
| DigestAuth.HttpAuths.DeleteNonce | lib-osip/libeXosip2-3.6.0/src/jauth.c:1152-1169 | the first slot of the Call-ID is cleared; not found exactly when there is none |
| DigestAuth.HttpAuths.AddStored | lib-osip/libeXosip2-3.6.0/src/eXosip.c:1283-1348 | the loop over the table is the specified request, with the same result at every early return; a pair goes out only for a challenge with qop |
| DigestAuth.HttpAuths.AnswerAll | lib-osip/libeXosip2-3.6.0/src/eXosip.c:1360-1412 | the loop over challenges is the specified reply; a pair goes out only for a challenge with qop |
| DigestAuth.HttpAuths.AddForResponse | lib-osip/libeXosip2-3.6.0/src/eXosip.c:1350-1472 | both kinds of challenges in order, the second only when the first all succeed |
| SrvRecords.SwapLowersInversions | lib-osip/libeXosip2-3.6.0/src/eXutils.c:849-853 | each swap removes exactly one inversion |
| SrvRecords.SrvRecord.Pass | lib-osip/libeXosip2-3.6.0/src/eXutils.c:845-855 | a pass keeps entries of equal priority in order, removes as many inversions as it swaps, and without a swap the entries are sorted |
| SrvRecords.SrvRecord.Sort | lib-osip/libeXosip2-3.6.0/src/eXutils.c:838-857 | terminates for every n with the first n entries sorted and stable, the others untouched |
| SrvRecords.StableIsPermutation | lib-osip/libeXosip2-3.6.0/src/eXutils.c:838-857 | a stable rearrangement is a permutation |
| SrvRecords.StableSortUnique | lib-osip/libeXosip2-3.6.0/src/eXutils.c:838-857 | there is only one sorted stable arrangement, so the sort's contract determines its result |
| SrvRecords.SrvRecord.Rotate | lib-osip/libeXosip2-3.6.0/src/eXutils.c:976-988 | moves to the next entry, back to the first when that is not filled, and returns how many filled ones follow the first in a row; -1 and no move when the first is not filled |
| SrvRecords.SrvRecord.RotateTimes | lib-osip/libeXosip2-3.6.0/src/eXutils.c:976-988 | any number of failovers visits the filled entries in turn |
| SrvRecords.RotationPeriod | lib-osip/libeXosip2-3.6.0/src/eXutils.c:976-988 | failovers come back to the same entry after as many as there are entries, and not before |
| SrvRecords.RoundByPriority | lib-osip/libeXosip2-3.6.0/src/eXutils.c:838-988 | after sorting, one round from the first entry visits all of them by rising priority |
| SrvRecords.SrvRecord.SortAndFailOver | lib-osip/libeXosip2-3.6.0/src/eXutils.c:838-988 | sort and then failovers: the entries used are the sorted ones in turn, again from the first after each round |
| FrameQueue.GoingOneMore | queue.c:81-85 | writing the slot behind the last frame appends it to the frames held, round the end of the array too |
| FrameQueue.GoingTail | queue.c:109-114 | moving the front one slot drops exactly the oldest frame |
| FrameQueue.CircleQueue.constructor | queue.c:14-20 | an empty queue |
| FrameQueue.CircleQueue.IsQueueEmpty | queue.c:35-43 | true exactly when no frame is held |
| FrameQueue.CircleQueue.IsQueueFull | queue.c:53-61 | true exactly when 100 frames are held |
| FrameQueue.CircleQueue.EnQueue | queue.c:72-89 | appends the frame, or refuses and changes nothing exactly when full |
| FrameQueue.CircleQueue.DeQueue | queue.c:99-118 | takes the oldest frame, or exits exactly when empty |
| FrameQueue.CircleQueue.GetHead | queue.c:128-139 | the oldest frame, or exit exactly when empty |
| FrameQueue.CircleQueue.ClearQueue | queue.c:149-155 | an empty queue, whatever the indices were |
| QueueProtocol.PutKeepsInv | video_rtp_recv.c:197-201 | each single read or write of the receiving thread keeps the invariant: its guard's finding stays true until it has stored, and what it read inside the lock is still there when it writes |
| QueueProtocol.TakeKeepsInv | video_rtp_recv.c:93-97 | each single read or write of the decoding thread keeps it |
| QueueProtocol.EveryRunIsSafe | video_rtp_recv.c:90-201 | under every interleaving: EnQueue never sees a full queue, DeQueue never an empty one, four frames stay after each dequeue, frames come out in the order put, none lost or doubled |
| QueueProtocol.EnQueueStepByStep | queue.c:72-89 | the seven reads and writes inside one lock append the frame to the frames held |
| QueueProtocol.DeQueueStepByStep | queue.c:99-118 | the seven reads and writes inside one lock take the oldest frame |
| QueueProtocol.PutRound | video_rtp_recv.c:197-201 | a receiver left alone puts the offered frame behind the last one while fewer than 100 are held |
| QueueProtocol.PutDropped | video_rtp_recv.c:197-201 | and drops it else |
| QueueProtocol.TakeRound | video_rtp_recv.c:90-97 | a decoder left alone takes the oldest frame when five or more are held |
| QueueProtocol.TakeNothing | video_rtp_recv.c:90-93 | and nothing when there are fewer |
| QueueProtocol.TakenAsOffered | video_rtp_recv.c:90-201 | under every interleaving the frames taken are the first of those the receiver was offered with room, in their order |
| DnsNames.SpellingUnique | lib-osip/libeXosip2-3.6.0/src/eXutils.c:2480-2520 | a name is spelled by at most one sequence of labels and pointers |
| DnsNames.CircleSpellsNothing | lib-osip/libeXosip2-3.6.0/src/eXutils.c:2480-2520 | a place that is reached again from itself over labels, pointers or both spells no name |
| DnsNames.LeadingIntoCircle | lib-osip/libeXosip2-3.6.0/src/eXutils.c:2480-2520 | nor does any place that leads into such a circle |
| DnsNames.CopyLabel | lib-osip/libeXosip2-3.6.0/src/eXutils.c:2497-2508 | copies the label with escapes exactly when it fits the room and the message |
| DnsNames.AppendLabel | lib-osip/libeXosip2-3.6.0/src/eXutils.c:2485-2508 | the printed name grows by dot and label, exactly when that fits and the label lies inside the message |
| DnsNames.HopOnce | lib-osip/libeXosip2-3.6.0/src/eXutils.c:2480-2520 | every label or pointer lowers output room plus what is left to copy, and a failure means that no spelling can be expanded |
| DnsNames.DnExpand | lib-osip/libeXosip2-3.6.0/src/eXutils.c:2466-2527 | terminates on every message; -1 only when no spelling fits message, room and pointer limit, otherwise the one spelling is printed and the space it takes is returned |
| DnsWire.SpellsWhatIsWritten | lib-osip/libeXosip2-3.6.0/src/eXutils.c:2480-2520 | a name is spelled by exactly the labels of 1 to 63 bytes and pointers 192 + t / 256, t % 256 that are written there |
| DnsWire.PointerFollowed | lib-osip/libeXosip2-3.6.0/src/eXutils.c:2509-2514 | behind a pointer to any t below 16384 and the message's size stands what is written at t |
| DnsWire.PrintedIsDotted | lib-osip/libeXosip2-3.6.0/src/eXutils.c:2484-2508 | the text is the labels with the character 46 between them and 92 before each 46 and 92 inside |
| DnsWire.SpaceTaken | lib-osip/libeXosip2-3.6.0/src/eXutils.c:2510-2525 | the space a name takes ends with its first pointer, or in front of its zero byte |
| DnsWire.PointerLimit | lib-osip/libeXosip2-3.6.0/src/eXutils.c:2515-2517 | a pointer is followed if and only if all bytes read, its own two included, are fewer than the message |
| DnsWire.ExpandableInNumbers | lib-osip/libeXosip2-3.6.0/src/eXutils.c:2466-2527 | a name expands if and only if it is written, its text leaves room for a zero and its pointers keep the limit |

## Left out

- Sockets, `select`, `connect`, `accept`, DNS queries, TLS and DTLS: `sendto`, `recv` and `send` are nondeterministic in what they take, give or refuse; the copy of the framing loop in the TLS transport is not modelled again.
- The clock: the RTP timestamp is a parameter of the call; that all packets of a call share it is proved.
- ALSA, OpenMAX, thread start, the console, and the SIP transaction and dialog layers: an incoming message is appended to a list of delivered ones, digest computation and credentials lookup answer as parameters of the run.
- Memory allocation failure, and the NULL and freed pointers that follow from it.
- The reordering code and the enqueue branches are switched off in the shipped configuration; the two-thread protocol is modelled as it is written, `printf` and `usleep` aside.
- 32-bit layout: the RTP header is taken to be 12 bytes, as on the repository's 32-bit target.
- RtpSender.RtpSend.AvcAnalyzeAndSend: at least three bytes must be there and everything must fit the fixed buffers, because the code subtracts without a check and copies without one; a parameter unit must fit the 4096-byte packet buffer.
- RtpReceiver.UnpackRTPH264: a Start fragment needs five more bytes of input than arrived, another fragment two bytes behind the header, because the code copies that many; the two bytes behind the header are read even when the packet ends before them.
- VideoLink.CameraToDecoder: asks that every packet can be unpacked, which a one-byte unit of type 28 cannot, because the receiver copies without a check.
- RtpReceiver.VideoReceiver.ReceivePacket: what the decoder does when it is called with a length of -1; only that call is counted.
- TcpTransport.SockInfo.TcpRecv: after a crash, or a pass that repeats itself for ever, the connection is not followed further; the empty messages such a pass hands up are not counted.
- TcpTransport.SockInfo.HandleMessages: `atoi` is unbounded, where the C library's saturates or overflows.
- TcpLink.Exchange: sends that take nothing or fail are excluded, as the message is then cut short; `ShortSuccess` says when.
- RtpPackets.FragmentedShape: the marker is counted for payload types of seven bits, as the RTP header has them.
- G711.Linear2ULaw: the bias is added without overflow; any 16-bit sample is far from it.
- DigestRuns.NoPairSentTwice: the count is unbounded; the program's int would overflow after two thousand million requests. Whether an authorization header can be built, credentials exist and the request's URI prints are parameters of each event.
- DigestAuth.HttpAuths.AddStored: which of the request's two header lists a credential goes to, by method and stored answer code, is not modelled; only the nonce and count it carries.
- SrvRecords.SrvRecord.Rotate: with all ten entries filled the program reads behind the table after the last one; the contract asks for a next place.
- QueueProtocol.EveryRunIsSafe: single accesses of the two threads are atomic and seen in order; a compiler or processor that reorders the unlocked reads of `count` is not modelled.
- DnsNames.DnExpand: memory outside the message answers every read with some byte, where the program may read past the end; offsets are unbounded integers.
- SRV failover in the UDP transport, the resource-record parsers and the configuration setters: mostly library and network behaviour, or field checks that would add easy members.
