# Verification of the TinySightAI codecs, stream parsers and shared structures

TinySightAI puts Android Auto and CarPlay on one screen next to a camera picture. Around its hardware it
writes a set of binary codecs, resynchronising parsers and small concurrent structures by hand. This project
states what they do as Dafny functions, writes their loops and objects as methods and classes that are proved
to compute those functions, and proves the properties the system relies on.

| module | part of the system |
|---|---|
| `Varint`, `Protobuf`, `Touch`, `TouchLoops` | finding and rewriting the touch point in an Android Auto input message |
| `Mitm` | which touches reach the phone in a split screen, and where |
| `Aap` | Android Auto framing in the proxy: fragments, one reassembler per stream |
| `Srp`, `Tlv8` | AirPlay pairing: the SRP-6a arithmetic and the TLV8 items |
| `Link` | the iAP2 link layer: packets, the receiver and its carry buffer |
| `Fragmentation`, `Video` | the compositor's per-channel reassembly and its video path, end to end |
| `Nal` | finding NAL units in an Annex B stream |
| `Mirror` | the AirPlay mirror packet loop and its growing buffer |
| `AudioRing`, `PingPong` | the audio ring and the two video slots, as atomic steps of two threads |
| `Auth` | the MFi authentication machine with its retries |
| `Control` | the control channel's line assembly and client table |
| `Prelude`, `BigEndian` | machine integers, options, big-endian numbers |

Each part has a specification as functions over byte sequences or states. A method with a loop, or of a class
whose fields it updates, ends in exactly the value or state its function gives; the lemmas are about the
functions. A stream is written as its remaining bytes, a lock-protected block is one step.

`dafny verify dfyconfig.toml` checks everything.

## Where the code and its promises differ

The model follows the code; these are the places where a promise holds only under a condition, or not at all.

- Touch rewriting copies as many bytes of a coordinate's tag as a minimal spelling needs. With a longer spelling
  the structure is always damaged (`Touch.PatchPreservesStructure` and `Touch.PatchTwice` are equivalences) and the
  point can be lost (`Touch.LongTagBreaksPatch`). For the re-parse alone minimal tags suffice but are not necessary
  (`Touch.LongTagCanSurvive`).
- Remapping adds in 32 bits. A region whose far edge leaves them rejects points it covers; the exact condition is
  in `Mitm.RemapIsGeometry`.
- When the rewrite fails, the frame still goes out, with its old coordinates; `Mitm.TouchForwarding` says exactly
  when the phone reads the new ones.
- A LAST frame without an open reassembly is delivered with its payload twice (`Aap.LoneLastFragment`), and one of
  another channel completes the open message (`Aap.FragmentWhileOpen`).
- The scan of the link receiver does not always end: it does exactly on the streams where no accepted packet but a
  reset declares length 0 (`Link.ScanEnds`). A declared length above 4096 can fill the carry buffer
  (`Link.CarryFull`), after which a read of zero bytes is taken for the end of the connection. The receiver answers
  SYN+ACK with another SYN+ACK (`Link.SynIsAnswered`).
- The mirror takes a first H.264 slice with nal_ref_idc 2 for H.265 (`Mirror.CodecOfFirstUnit`), and the compositor's
  scan does so for a whole stream once four of them follow (`Nal.SlicesTurnTheVerdict`).
- The first fragment of a long video message announces its length modulo 65536 (`Video.AnnouncedTotal`); the
  receiver does not use it.
- radxa/compositor/src/aa_video_input.h:20 and 42-43 promise a frame pointer valid until the next get. Two slots
  do not give that (`PingPong.NotUntilNextGet`); `PingPong.HeldSlotAtRisk` says exactly when the slot can change.
- radxa/carplay/iap2/iap2_auth.h:36 sends every 0xAA05 to ERROR. The code asks for the certificate again while
  retries remain (`Auth.RejectionsExhaustRetries` is exact), never fails when each request in between is answered
  (`Auth.RetriesNeverEnd`), and leaves both terminal states on some messages (`Auth.TerminalExits`).

## Model

| member | source | states |
|---|---|---|
| Varint.ReadInvertsWrite | radxa/aa-proxy/src/mitm.rs:177-195 | for every u64 and any following bytes, `read_varint` returns the number `write_varint` spelled and consumes exactly its encoded length, at most ten bytes |
| Varint.ReadLocal | radxa/aa-proxy/src/mitm.rs:177-195 | a read depends only on the bytes it consumed |
| Varint.WriteIsShortest | radxa/aa-proxy/src/mitm.rs:416-431 | no spelling the reader accepts is shorter than the one the writer produces, so copying `encode_varint_len(tag)` bytes never leaves the original tag |
| Varint.Documented | radxa/aa-proxy/src/mitm.rs:416-425 | the spellings of 0, 1, 127, 128, 150 and 300 are those of the Protocol Buffers documentation |
| Varint.ReadFails | radxa/aa-proxy/src/mitm.rs:177-195 | the reader gives up exactly when none of the first ten bytes ends the number |
| Varint.TenthByte | radxa/aa-proxy/src/mitm.rs:177-195 | of a tenth byte only the lowest bit is kept |
| Varint.LoopIsReadVarint | radxa/aa-proxy/src/mitm.rs:177-195 | the shift-and-or loop, cut to 64 bits at every turn, returns the sum of the 7-bit groups modulo 2^64 |
| Varint.ReadAt | radxa/aa-proxy/src/mitm.rs:177-195 | the loop over a mutable position computes `ReadVarint` of the bytes from there on and ends behind it, on truncated and overlong input too |
| Varint.Append | radxa/aa-proxy/src/mitm.rs:416-425 | the push loop appends the base-128 spelling of the value |
| Varint.EncodedLen | radxa/aa-proxy/src/mitm.rs:427-431 | the length of that spelling |
| Protobuf.WireTypes | radxa/aa-proxy/src/mitm.rs:312-358 | wire type 0 is a varint, 1 eight bytes, 2 a length and as many bytes, 5 four bytes; any other fails |
| Protobuf.TagParts | radxa/aa-proxy/src/mitm.rs:307-309 | a tag is eight times the field number, which is cut to 32 bits, and the wire type |
| Protobuf.FieldsOfRawAll | radxa/aa-proxy/src/mitm.rs:301-362 | scanning the bytes of well-formed fields gives back exactly those fields |
| Protobuf.RawAllOfFields | radxa/aa-proxy/src/mitm.rs:301-362 | the fields scanned from a message spell that message and are well-formed: scanning and spelling are mutually inverse |
| Protobuf.ReadFieldOfRaw | radxa/aa-proxy/src/mitm.rs:301-362 | a field, of any wire type and with any spelling of tag and length, is read back whatever follows it |
| Touch.PatchPreservesStructure | radxa/aa-proxy/src/mitm.rs:301-414 | read as a field list, the patched message is the original list with only varint fields 2 and 3 inside field-3 sub-messages replaced and their lengths re-encoded, if and only if the tags of those coordinates are minimal |
| Touch.PatchDefined | radxa/aa-proxy/src/mitm.rs:301-362 | the rewriter succeeds exactly on the messages whose fields, and the fields of whose pointers, can all be scanned |
| Touch.PatchTwice | radxa/aa-proxy/src/mitm.rs:301-414 | for all points, patching twice is patching once with the last point, if and only if every coordinate tag is minimal or the message cannot be patched |
| Touch.PatchThenParse | radxa/aa-proxy/src/mitm.rs:197-299 | whenever the parser finds a point and the patch succeeds, parsing the patched bytes gives exactly the new point (minimal tags on the coordinates the parser reads) |
| Touch.LongTagBreaksPatch | radxa/aa-proxy/src/mitm.rs:376-384 | a two-byte tag on x makes the patch lose the point: the copied front of the tag swallows the new value |
| Touch.LongTagCanSurvive | radxa/aa-proxy/src/mitm.rs:376-384 | minimal tags are not necessary for the re-parse: the bytes behind a shortened tag can bring the scan back in step |
| Touch.RebuildIsMove | radxa/aa-proxy/src/mitm.rs:364-414 | the rebuilt pointer spells the moved fields when all its coordinate tags are minimal and is strictly shorter otherwise |
| Touch.ParsePointerIsPointOf | radxa/aa-proxy/src/mitm.rs:197-283 | over well-formed fields the inner scan returns the x and y held at the first field where both have been seen, later fields overriding earlier ones until then |
| Touch.DocumentedLayout | radxa/aa-proxy/src/mitm.rs:161-170 | in a message of the documented layout the parser finds x and y, cut to 32 bits, whatever the other values, and patching gives that message with the new point and nothing else changed |
| TouchLoops.ScanPayload | radxa/aa-proxy/src/mitm.rs:301-362 | the wire-type dispatch reads the payload `ReadPayload` describes and ends behind it |
| TouchLoops.ScanDelimited | radxa/aa-proxy/src/mitm.rs:331-336 | a length is read and as many bytes behind it, or nothing when they are not there |
| TouchLoops.ScanField | radxa/aa-proxy/src/mitm.rs:301-362 | tag and payload together are the first field of the remaining bytes |
| TouchLoops.ParseTouch | radxa/aa-proxy/src/mitm.rs:197-283 | the nested scanning loops return `Parse`: the point of the first pointer, or nothing |
| TouchLoops.RebuildOne | radxa/aa-proxy/src/mitm.rs:376-409 | one turn of the rebuilding loop copies the field, or the front of its tag and a new coordinate |
| TouchLoops.RebuildPointerSub | radxa/aa-proxy/src/mitm.rs:364-414 | the rebuilding loop returns `RebuildPointer`, failing where it fails |
| TouchLoops.TryPatchTouch | radxa/aa-proxy/src/mitm.rs:301-362 | the patching loop returns `TryPatch`, failing where it fails |
| TouchLoops.PatchTouch | radxa/aa-proxy/src/mitm.rs:291-299 | on failure the payload goes out unchanged |
| Mitm.RemapIsGeometry | radxa/aa-proxy/src/mitm.rs:124-153 | with 32-bit additions, remapping is the geometry of the region (inside: minus the origin, outside: dropped) for all points if and only if the region is empty or neither far edge leaves 32 bits |
| Mitm.TouchForwarding | radxa/aa-proxy/src/mitm.rs:889-920 | in a split mode a touch frame that does not parse is forwarded as it came; any other is forwarded iff its point is inside the region, with channel, flags and type unchanged, and re-parses to the point minus the origin, within [0,w) x [0,h), exactly when the region is at the origin or the payload can be taken apart |
| Mitm.OnlyTouchesAreDropped | radxa/aa-proxy/src/mitm.rs:889-920 | touch frames are those of channel 1 and type 1; FullCam drops every one; no other frame is ever dropped; FullAa changes nothing |
| Aap.StreamRoundTrip | radxa/aa-proxy/src/aap.rs:90-262 | any list of messages of any sizes, written to a stream, is read back with channel, type and payload in order, and then the stream is at its end |
| Aap.ReadWire | radxa/aa-proxy/src/aap.rs:171-262 | one message is read back whole whatever follows, and leaves the reassembler empty |
| Aap.LoneLastFragment | radxa/aa-proxy/src/aap.rs:234-257 | a LAST frame with nothing open is delivered with its payload twice, so unchanged iff it is empty |
| Aap.FrameBytes | radxa/aa-proxy/src/aap.rs:125-135 | a frame is channel, flags, payload length and message type, big-endian, and the payload |
| Aap.FramesOfMessage | radxa/aa-proxy/src/aap.rs:90-122 | a message takes ceil(n / 16384) frames, full but for the last, with flags 0C alone, else 08, 00 and 04 |
| Aap.CutFrame | radxa/aa-proxy/src/aap.rs:171-193 | a stream that ends inside a header ends quietly, one that ends inside a payload is an error |
| Aap.FragmentWhenIdle | radxa/aa-proxy/src/aap.rs:194-257 | what each of the four kinds of frame does while nothing is open |
| Aap.FragmentWhileOpen | radxa/aa-proxy/src/aap.rs:196-257 | while a message is open, a LAST frame completes it whatever its channel and type, a middle one is refused exactly when either differs, a FIRST or COMPLETE one always |
| Aap.InterleavedStart | radxa/aa-proxy/src/aap.rs:196-213 | whatever message is started while another is open, the reader reports invalid data and keeps the open one |
| Aap.EncodeChunks | radxa/aa-proxy/src/aap.rs:102-120 | the loop over the chunks gives FIRST, middle, LAST or COMPLETE frames in order |
| Aap.Encode | radxa/aa-proxy/src/aap.rs:90-122 | `encode_frames`: one COMPLETE frame for an empty payload, its fragments otherwise |
| Aap.FrameReader.Read | radxa/aa-proxy/src/aap.rs:171-262 | the reading loop, which updates the reassembler in place, returns the message or error of `ReadFrame` and leaves stream and reassembler in its state |
| Aap.FrameWriter.Write | radxa/aa-proxy/src/aap.rs:280-286 | the sink grows by exactly the wire form of the message |
| Srp.PowIsProduct | radxa/carplay/airplay/airplay_pair.c:570-609 | a power is the product of that many copies of its base |
| Srp.PublicIsFormula | radxa/carplay/airplay/airplay_pair.c:569-591 | B is congruent to k g^x plus the product of b copies of g |
| Srp.SecretIsFormula | radxa/carplay/airplay/airplay_pair.c:602-609 | S is congruent to (A (g^x)^u)^b for every A, a power of g or not |
| Srp.SecretsAgree | radxa/carplay/airplay/airplay_pair.c:543-609 | for every modulus and generator, all secrets a and b and all x, u, k, the server's (A v^u)^b equals the client's (B - k g^x)^(a + ux) of section 2.6 of RFC 5054 |
| Srp.ServerSees | radxa/carplay/airplay/airplay_pair.c:602-608 | the server's secret, reduced after every operation, is g^((a + ux) b) mod N |
| Srp.ClientSees | radxa/carplay/airplay/airplay_pair.c:217-222 | with v = g^x and B = kv + g^b the client's secret is g^((a + ux) b) mod N |
| Srp.SetupM1 | radxa/carplay/airplay/airplay_pair.c:543-609 | the step turns A away iff N divides it; otherwise B and S are the two formulas written as products, and every client whose A is g^a derives that S from that B |
| Tlv8.RoundTrip | radxa/carplay/airplay/airplay_pair.c:42-137 | `tlv8_find_reassemble` returns the whole value of the first item of the type iff the items of that type directly behind it are empty, in particular when adjacent types differ |
| Tlv8.ReassembleOfEncode | radxa/carplay/airplay/airplay_pair.c:91-137 | reassembling any encoded list gives the joined values of the first run of items of the type, and nothing iff there is none |
| Tlv8.FindOfEncode | radxa/carplay/airplay/airplay_pair.c:67-83 | `tlv8_find` returns the first min(255, n) bytes of the first item of the type |
| Tlv8.EncodedSize | radxa/carplay/airplay/airplay_pair.c:42-65 | an item of n bytes takes n + 2 max(1, ceil(n / 255)) bytes |
| Tlv8.EncodeIntoIsPrefix | radxa/carplay/airplay/airplay_pair.c:42-65 | into a bounded buffer a prefix of the item is written, all of it iff there is room |
| Tlv8.EncodeIntoStops | radxa/carplay/airplay/airplay_pair.c:42-65 | what does not fit stops at the last whole fragment of 255 bytes that does |
| Tlv8.FramedFront | radxa/carplay/airplay/airplay_pair.c:67-137 | every input is whole fragments and a tail that is none |
| Tlv8.TailIgnored | radxa/carplay/airplay/airplay_pair.c:67-137 | such a tail, a fragment cut short or a lone byte, is ignored by both searches |
| Tlv8.SetupReply | radxa/carplay/airplay/airplay_pair.c:623-629 | the M2 reply is these 409 bytes, and state, salt and all 384 bytes of B can be read back |
| Tlv8.PutFragment | radxa/carplay/airplay/airplay_pair.c:53-59 | one fragment is written in place and nothing around it changes |
| Tlv8.Encode | radxa/carplay/airplay/airplay_pair.c:42-65 | the encoding loop writes the fragments that fit behind the given offset, returns their size and leaves the rest of the buffer alone |
| Tlv8.FindFirst | radxa/carplay/airplay/airplay_pair.c:67-83 | the search loop returns `Find`, malformed input included |
| Tlv8.CountRun | radxa/carplay/airplay/airplay_pair.c:95-113 | the counting pass finds whether the type occurs and how many bytes its first run holds, on every input |
| Tlv8.CopyRun | radxa/carplay/airplay/airplay_pair.c:114-137 | the copying pass writes exactly the bytes the counting pass counted: no copy leaves the buffer and none of it stays unwritten, on every input |
| Tlv8.FindReassemble | radxa/carplay/airplay/airplay_pair.c:91-137 | the two passes together return the joined fragments |
| Link.ChunkingIndependence | radxa/carplay/iap2/iap2_link.c:118-209 | however reads split the stream, the calls end in the state, events and leftover bytes of one unbounded scan of the whole stream up to the first reset |
| Link.DrainResumes | radxa/carplay/iap2/iap2_link.c:139-209 | a scan that stops for want of bytes and resumes with more is one scan over them all |
| Link.CarryFull | radxa/carplay/iap2/iap2_link.c:200-209 | what a call leaves always fits the carry buffer, so the overflow branch is dead; it fills the buffer iff the working buffer is full and starts with a header declaring more than 4096 bytes |
| Link.CarryNeverFull | radxa/carplay/iap2/iap2_link.c:118-209 | when no examined length exceeds 4096, every call leaves room to read, however the reads fall |
| Link.ScanEnds | radxa/carplay/iap2/iap2_link.c:139-198 | the loop, taken one turn at a time, ends if and only if no packet it accepts declares length 0 (resets aside), and then with the outcome of `Drain`; otherwise it is still running after any number of turns |
| Link.ReadsEnd | radxa/carplay/iap2/iap2_link.c:118-209 | however the stream is read, one of the calls never returns exactly when the whole stream holds such a packet in front of the first reset |
| Link.ZeroLengthLoops | radxa/carplay/iap2/iap2_link.c:144-198 | such streams exist: an accepted header that declares length 0 stops the scan from advancing unless it is a reset |
| Link.TakenWhen | radxa/carplay/iap2/iap2_link.c:139-157 | a packet is accepted exactly where the sync mark stands, the length is there completely and nine header bytes sum to 0; the scan waits exactly where only the length is missing |
| Link.BadChecksumSkips | radxa/carplay/iap2/iap2_link.c:150-156 | a header that does not sum to 0 costs one byte, whatever length it declares |
| Link.PacketBytes | radxa/carplay/iap2/iap2_link.c:30-56 | the header on the wire: FF 5A, the length, control, number, acknowledgement, session |
| Link.SumOfBytes | radxa/carplay/iap2/iap2_link.c:8-14 | the sum adds the bytes up |
| Link.HeaderSumsToZero | radxa/carplay/iap2/iap2_link.c:8-46 | the nine header bytes of every packet sum to 0 modulo 256 |
| Link.LinkRoundTrip | radxa/carplay/iap2/iap2_link.c:30-209 | after garbage without a sync mark, and over any split into reads, data packets are passed up in order with session and payload intact, each acknowledged with its own number first, and remote_seq ends at the last |
| Link.ShortPacketsComeThrough | radxa/carplay/iap2/iap2_link.c:106-209 | for payloads of at most 4087 bytes this happens with reads bounded by the room in the buffer, and there is always room for the next read |
| Link.SessionsMeet | radxa/carplay/iap2/iap2_link.c:96-209 | what one end's session layer sends, numbered modulo 256, the other end's receives in order |
| Link.NumberAt | radxa/carplay/iap2/iap2_link.c:96-104 | the message sent after i others is a packet with control 0, the starting number plus i modulo 256, and its session and payload |
| Link.AckMovesRemote | radxa/carplay/iap2/iap2_link.c:181-183 | an ACK moves remote_seq to its own number, not to the one it acknowledges, and nothing else |
| Link.ResetCloses | radxa/carplay/iap2/iap2_link.c:184-187 | a reset closes the link, and nothing behind it is looked at |
| Link.ControlBits | radxa/carplay/iap2/iap2_link.c:172-195 | 0x80 is tested first, then 0x40, then 0x10; what has none of them is data |
| Link.SynIsAnswered | radxa/carplay/iap2/iap2_link.c:171-180 | a SYN is answered by one SYN+ACK that acknowledges its number and echoes its parameters; that answer has the SYN bit set itself |
| Link.ComputeChecksum | radxa/carplay/iap2/iap2_link.c:8-14 | the byte accumulator returns the two's complement of the byte sum |
| Link.Endpoint.SendData | radxa/carplay/iap2/iap2_link.c:96-104 | one packet with the next number goes out and local_seq advances modulo 256 |
| Link.Endpoint.Dispatch | radxa/carplay/iap2/iap2_link.c:171-195 | the accepted packet updates the fields and the log as `Handle` says; false exactly on a reset |
| Link.Endpoint.Process | radxa/carplay/iap2/iap2_link.c:106-212 | on bytes that advance, the loop over carried and fresh bytes ends in the state of `Drain` over them and carries exactly the bytes it leaves |
| Link.Endpoint.constructor | radxa/carplay/iap2/iap2_link.c:58-69 | a link starts unsynchronised with nothing carried |
| Fragmentation.InterleavedReassembly | radxa/compositor/src/fragmentation.c:59-204 | from any earlier state and under any interleaving, a channel whose arrivals are the fragments of a list of messages delivers those of at most 512 KiB once each, in order and unchanged |
| Fragmentation.ChannelsAreIndependent | radxa/compositor/src/fragmentation.c:59-165 | what a channel delivers and holds depends only on its own fragments |
| Fragmentation.FeedSplit | radxa/compositor/src/fragmentation.c:59-204 | the fragments of one message deliver exactly it iff it is at most 512 KiB, whatever was held, and leave the channel idle |
| Fragmentation.PiecesOfMessage | radxa/compositor/src/fragmentation.c:169-204 | a message is split into ceil(n / 16384) pieces, full but for the last, that join to it, marked 08 alone, else 09, 0A and 0B |
| Fragmentation.Refused | radxa/compositor/src/fragmentation.c:77-164 | exactly which pieces are refused: continuations without a start, messages above 512 KiB, unknown flags; and what the channel holds then |
| Fragmentation.NoSuchChannel | radxa/compositor/src/fragmentation.c:70-73 | a channel number of 16 or more is refused and touches nothing |
| Fragmentation.FeedRest | radxa/compositor/src/fragmentation.c:125-204 | the later fragments complete what is held if it still fits, and leave nothing behind either way |
| Fragmentation.Channel.EnsureCapacity | radxa/compositor/src/fragmentation.c:38-55 | the buffer grows to exactly the need, keeps its contents, and never exceeds 512 KiB |
| Fragmentation.Channel.Reset | radxa/compositor/src/fragmentation.c:30-36 | the channel is idle and keeps its buffer |
| Fragmentation.Channel.Store | radxa/compositor/src/fragmentation.c:136-137 | the data lands behind what was received |
| Fragmentation.Channel.Accept | radxa/compositor/src/fragmentation.c:77-164 | the answer and the new contents are those of `Submit`, with received <= buf_size <= 512 KiB kept |
| Fragmentation.Context.Submit | radxa/compositor/src/fragmentation.c:59-165 | only the addressed channel changes; a channel number of 16 or more is refused |
| Fragmentation.Context.constructor | radxa/compositor/src/fragmentation.c:12-15 | sixteen separate idle channels |
| Fragmentation.SplitMessage | radxa/compositor/src/fragmentation.c:169-204 | the splitting loop passes on SINGLE, or FIRST, CONT and LAST pieces of 16 KiB |
| Video.EndToEnd | radxa/compositor/src/aa_emulator.c:233-354 | every non-empty H.264 buffer and 64-bit timestamp come out of the receiver unchanged iff the wrapped message is at most 512 KiB; a longer one and an empty one give nothing |
| Video.PayloadBytes | radxa/compositor/src/aa_protocol.c:51-70 | the wrapped message byte by byte: 00 05, the timestamp big-endian, the H.264 bytes |
| Video.ShortVideoBytes | radxa/compositor/src/aa_emulator.c:233-250 | a short buffer goes out as one frame on channel 3 with flags 08 and two equal lengths |
| Video.LongVideoBytes | radxa/compositor/src/aa_emulator.c:233-250 | the first frame of a long buffer has flags 09, is full and announces the whole length modulo 65536 |
| Video.CutFrame | radxa/compositor/src/aa_protocol.c:5-49 | a frame cut anywhere is not parsed; a message below ten bytes is not unwrapped |
| Video.ReceiveFeeds | radxa/compositor/src/aa_protocol.c:5-21 | parsing and submitting the frames of any fragments is feeding the fragments themselves and unwrapping what completes |
| Video.ParseFrame | radxa/compositor/src/aa_protocol.c:5-21 | a fragment is parsed back from its frame whatever the total length was cut to |
| Video.AnnouncedTotal | radxa/compositor/src/aa_emulator.c:233-250 | the total length the first fragment announces is the message's iff that is below 64 KiB |
| Video.UnwrapPayload | radxa/compositor/src/aa_protocol.c:34-70 | unwrapping a wrapped buffer gives the buffer and the timestamp |
| Video.PutTimestamp | radxa/compositor/src/aa_protocol.c:63-66 | the loop writes the eight bytes most significant first and nothing else |
| Video.BuildPayload | radxa/compositor/src/aa_protocol.c:51-70 | the payload is written in place, or -1 with the buffer untouched when it does not fit |
| Video.Send | radxa/compositor/src/aa_emulator.c:325-354 | wrapping, splitting and sending give the frames of `SendVideo` |
| Video.ReadTimestamp | radxa/compositor/src/aa_protocol.c:34-49 | the reading loop decodes the eight big-endian bytes |
| Nal.ScanVisitsUnits | radxa/compositor/src/nal_detect.c:13-156 | under any mix of 3- and 4-byte start codes the scan visits exactly the unit headers, in order, iff no unit spells a start code behind its header |
| Nal.KeyframeOfUnits | radxa/compositor/src/nal_detect.c:122-156 | on such a stream a keyframe is reported iff some unit is an IDR |
| Nal.IdrHeaders | radxa/compositor/src/nal_detect.c:138-150 | the header bytes of IDR pictures in either codec |
| Nal.CodecOfUnits | radxa/compositor/src/nal_detect.c:61-118 | on such a stream the answer is H.265 exactly when three times the H.265 parameter sets plus the listed other types outweigh those of H.264, else H.264 when that scores, else none |
| Nal.H264Stream | radxa/compositor/src/nal_detect.c:61-118 | a stream of units headed 67, 68 or 65 is taken for H.264 |
| Nal.H265Stream | radxa/compositor/src/nal_detect.c:61-118 | a stream of units headed 40, 42 or 44 is taken for H.265, unless it ends with the first byte of its only one |
| Nal.SlicesTurnTheVerdict | radxa/compositor/src/nal_detect.c:61-118 | behind one SPS, PPS and IDR picture of H.264, slices headed 41 turn the verdict to H.265 exactly when there are four or more |
| Nal.FindStartCode | radxa/compositor/src/nal_detect.c:13-35 | the first 00 00 01, reported as a 4-byte code when a zero stands in front of it |
| Nal.NextHeader | radxa/compositor/src/nal_detect.c:70-81 | the next visited header and where the loops go on |
| Nal.IsKeyframe | radxa/compositor/src/nal_detect.c:122-156 | 1 iff some visited header is an IDR of the codec, -1 below four bytes |
| Nal.DetectCodec | radxa/compositor/src/nal_detect.c:61-118 | the scores are the sums over the visited headers; ties and H.264 majorities give H.264 |
| Mirror.CallbackSees | radxa/carplay/airplay/airplay_mirror.c:182-342 | for any packets, any keys at the moment of each, and a stream that may break off inside one more, the callback sees exactly the pictures deliverable with the keys of their own moment before the first video packet too short for its timestamp, in order and with their timestamps |
| Mirror.EncryptedOnceKeyed | radxa/carplay/airplay/airplay_mirror.c:296-307 | when the key arrives between two packets, the callback sees of those before it only the plain ones and of those after it every deliverable one |
| Mirror.StreamAlignment | radxa/carplay/airplay/airplay_mirror.c:182-342 | every packet that keeps the connection open consumes exactly its own bytes: a serialised list has the effect of its packets, whatever follows and whatever each of them does |
| Mirror.PlayShows | radxa/carplay/airplay/airplay_mirror.c:225-336 | packet by packet, what is shown grows by what is deliverable with the keys of that moment |
| Mirror.CutPacketShowsNothing | radxa/carplay/airplay/airplay_mirror.c:182-342 | a stream that ends inside a packet shows nothing of it |
| Mirror.RunKeepsCapacity | radxa/carplay/airplay/airplay_mirror.c:93-112 | whatever bytes arrive, the frame buffer stays unallocated or a power of two from 2^16 to 2^23 |
| Mirror.GrowStaysCapacity | radxa/carplay/airplay/airplay_mirror.c:93-112 | growing keeps it so, enough for the frame and below twice its size |
| Mirror.CodecOfFirstUnit | radxa/carplay/airplay/airplay_mirror.c:59-88 | an H.264 unit at the front is recognised behind either start code unless it is a slice with nal_ref_idc 2, which is taken for H.265 |
| Mirror.CodecOfBytes | radxa/carplay/airplay/airplay_mirror.c:59-88 | which codec any bytes tell, with or without a start code in front |
| Mirror.H265Headers | radxa/carplay/airplay/airplay_mirror.c:59-88 | VPS, SPS and PPS of H.265 are recognised behind either start code |
| Mirror.CodecOfFrames | radxa/carplay/airplay/airplay_mirror.c:225-320 | whatever came before, every frame behind the last codec info is shown with the codec that info tells or, when it tells none, with the first one a frame from there on tells |
| Mirror.CodecWithoutInfo | radxa/carplay/airplay/airplay_mirror.c:309-318 | without codec info the codec known before stays; when none was known, the first frame that tells one decides |
| Mirror.CodecSeen | radxa/carplay/airplay/airplay_mirror.c:182-342 | the same of the bytes of a connection that may break off inside a packet |
| Mirror.InfoOverFrame | radxa/carplay/airplay/airplay_mirror.c:225-320 | codec info 67 42 makes the next frame H.264 although its own header would say H.265 |
| Mirror.OthersChangeNothing | radxa/carplay/airplay/airplay_mirror.c:205-240 | codec info that is empty or above 4096 bytes, heartbeats and unknown kinds change nothing |
| Mirror.FrameFits | radxa/carplay/airplay/airplay_mirror.c:276-294 | the buffer has room for every frame read into it |
| Mirror.CutPacketBuffer | radxa/carplay/airplay/airplay_mirror.c:258-294 | a stream that breaks off inside a video packet has grown the buffer iff the timestamp was there |
| Mirror.PacketBytes | radxa/carplay/airplay/airplay_mirror.c:182-206 | the eight header bytes of a packet |
| Mirror.Connection.ReadExact | radxa/carplay/airplay/airplay_mirror.c:39-52 | all the bytes asked for, or the end of the connection |
| Mirror.Connection.Discard | radxa/carplay/airplay/airplay_mirror.c:182-342 | the draining loops consume exactly the payload through their scratch buffer |
| Mirror.Connection.Ensure | radxa/carplay/airplay/airplay_mirror.c:93-112 | the doubling loop ends at `Grow`; above 8 MiB it refuses |
| Mirror.Connection.Video | radxa/carplay/airplay/airplay_mirror.c:258-320 | a video packet has the effect of `Step` with the keys in force and consumes its bytes, or ends the connection |
| Mirror.Connection.Other | radxa/carplay/airplay/airplay_mirror.c:211-252 | any other packet is read or drained, and changes nothing but the codec |
| Mirror.Connection.Handle | radxa/carplay/airplay/airplay_mirror.c:182-342 | the receive loop ends in the state of `Run` over everything the peer sends |
| AudioRing.RingIsQueue | radxa/carplay/airplay/airplay_audio.c:77-131 | over every interleaving of one producer and one consumer, bytes read followed by bytes waiting are the accepted payloads joined, and free + used = size - 1 |
| AudioRing.NoPayloadIsLost | radxa/carplay/airplay/airplay_audio.c:250-259 | over every interleaving each payload taken up has its verdict, in order, except the one in work |
| AudioRing.PayloadIsSettled | radxa/carplay/airplay/airplay_audio.c:250-259 | from every reachable state with a payload taken up, check, end of a running read and store settle it: written whole iff it fitted at the check, dropped whole otherwise |
| AudioRing.ReadHandsOut | radxa/carplay/airplay/airplay_audio.c:104-131 | a locked read hands out the oldest min(unread, max) bytes and releases the lock |
| AudioRing.StepKeepsInv | radxa/carplay/airplay/airplay_audio.c:250-259 | every atomic step is exactly a step of an unbounded queue: a check clears a payload iff it fits beside the unread bytes at that moment and drops it otherwise, a store appends the cleared payload whole, a copy hands out the oldest byte |
| AudioRing.WriteAppends | radxa/carplay/airplay/airplay_audio.c:93-102 | a write appends its payload behind the unread bytes iff it is no longer than the free space |
| AudioRing.FreeAndUsed | radxa/carplay/airplay/airplay_audio.c:77-91 | free and used always sum to the size less one, and one step of either position moves one byte between them |
| AudioRing.Ring.Write | radxa/carplay/airplay/airplay_audio.c:93-102 | the loop leaves buffer and position as `Written` says |
| AudioRing.Ring.Read | radxa/carplay/airplay/airplay_audio.c:104-131 | min(available, max) bytes leave the front of the queue, across the end of the buffer |
| PingPong.GetsAreNewest | radxa/compositor/src/aa_video_input.c:198-215 | over every interleaving the indices differ, a get that succeeds returns the newest published frame, and no frame is returned twice |
| PingPong.HeldSlotAtRisk | radxa/compositor/src/aa_video_input.c:109-125 | in every reachable state with a frame handed out, the next step can change its slot if and only if a frame is being received after an odd number of further publications |
| PingPong.HandedSlotIsStable | radxa/compositor/src/aa_video_input.c:109-125 | a frame handed out stays as it was over every run in which nothing lands in its slot at such a moment, in particular until the receiver has published one more frame |
| PingPong.NotUntilNextGet | radxa/compositor/src/aa_video_input.h:42-45 | it is not valid until the next get, as the header promises: from every reachable state with a new frame, a second later frame overwrites it while it is held |
| PingPong.FrameIsDelivered | radxa/compositor/src/aa_video_input.c:89-126 | from every reachable state between two frames, a frame received whole is published and handed out as it is |
| PingPong.OnlyPublishPublishes | radxa/compositor/src/aa_video_input.c:111-125 | only the swap publishes; a broken connection leaves slots, indices and the new-frame flag alone |
| PingPong.RunKeepsInv | radxa/compositor/src/aa_video_input.c:109-125 | every interleaving keeps the indices apart and the read slot equal to the last publication |
| PingPong.VideoInput.ReceiveFrame | radxa/compositor/src/aa_video_input.c:109-125 | filling a slot and swapping is one begin, fill and publish of the machine |
| PingPong.VideoInput.GetFrame | radxa/compositor/src/aa_video_input.c:198-215 | a get returns the read slot iff there is a new frame |
| Auth.ReachableStates | radxa/carplay/iap2/iap2_auth.c:123-352 | in every reachable state at most three retries are counted, COMPLETE means the last callback said true and ERROR that it said false |
| Auth.TicksExhaustRetries | radxa/carplay/iap2/iap2_auth.c:309-352 | from a waiting state with r retries and no message, fewer than 4 - r timed-out ticks only count up; from 4 - r on the machine has failed with exactly one failure callback |
| Auth.TerminalIgnoresTicks | radxa/carplay/iap2/iap2_auth.c:309-352 | outside the waiting states ticks change nothing |
| Auth.RejectionsExhaustRetries | radxa/carplay/iap2/iap2_auth.c:285-297 | from every state with r retries, k > 0 messages 0xAA05 in a row end in ERROR iff k > 3 - r; up to then they ask for the certificate again without a callback, and every one beyond reports failure once more |
| Auth.RetriesNeverEnd | radxa/carplay/iap2/iap2_auth.c:207-297 | 0xAA00 answered, then 0xAA05, for any number of rounds, never fails, because the answer clears the count |
| Auth.TerminalExits | radxa/carplay/iap2/iap2_auth.c:271-297 | neither terminal state is final: exactly which messages leave each |
| Auth.StepIsReported | radxa/carplay/iap2/iap2_auth.c:123-352 | every event makes at most one callback, exactly when it puts the machine into a terminal state, with that state's verdict |
| Auth.StartsFromIdle | radxa/carplay/iap2/iap2_auth.c:171-190 | starting enters CERT_REQUESTED with the count cleared, from IDLE only |
| Auth.CertificateRequested | radxa/carplay/iap2/iap2_auth.c:207-226 | 0xAA00 answered sends the machine on with the count cleared, not answered it fails; in other states it is ignored |
| Auth.ChallengeRequested | radxa/carplay/iap2/iap2_auth.c:229-269 | 0xAA02: a challenge of 1 to 256 bytes in a whole TLV is signed, retried while retries remain, or fails; any other fails at once; in other states it is ignored |
| Auth.SucceededOrOther | radxa/carplay/iap2/iap2_auth.c:271-283 | 0xAA04 completes in whatever state it comes; other messages change nothing |
| Auth.TickAfterFive | radxa/carplay/iap2/iap2_auth.c:309-352 | a tick counts from the fifth second on, and fails when three retries are counted |
| Auth.HandshakeFromStart | radxa/carplay/iap2/iap2_auth.c:171-307 | from IDLE, starting and three messages complete with one success callback |
| Auth.Handshake | radxa/carplay/iap2/iap2_auth.c:192-307 | certificate, challenge and success complete the handshake with one success callback |
| Auth.Machine.StartAuth | radxa/carplay/iap2/iap2_auth.c:171-190 | starts only from IDLE; keeps the retry bound and the agreement of phase and last callback |
| Auth.Machine.HandleMessage | radxa/carplay/iap2/iap2_auth.c:192-307 | one message makes at most one callback, which agrees with the phase it ends in, and keeps the retry bound, in every state |
| Auth.Machine.OnTick | radxa/carplay/iap2/iap2_auth.c:309-352 | so does a tick |
| Control.DispatchedLines | radxa/compositor/src/control_channel.c:384-412 | for any split into reads, the commands are the lines ended by a line feed, carriage returns removed, cut to 255 bytes, empty ones left out, and the unfinished line waits |
| Control.LinesComeThrough | radxa/compositor/src/control_channel.c:384-412 | lines of 1 to 255 bytes without zero bytes come through unchanged, however they are split into reads |
| Control.LongLineIsCut | radxa/compositor/src/control_channel.c:384-412 | of a longer line the first 255 bytes are dispatched |
| Control.CStringEnds | radxa/compositor/src/control_channel.c:384-412 | a command ends at its first zero byte |
| Control.PassesDispatchLines | radxa/compositor/src/control_channel.c:384-412 | over successive passes a client's commands are the cleaned lines of everything received from it |
| Control.PassOfEach | radxa/compositor/src/control_channel.c:461-465 | a pass records each client's own commands and leaves it its own line |
| Control.FeedInPieces | radxa/compositor/src/control_channel.c:384-412 | feeding two pieces one after the other is feeding them joined |
| Control.PassTurn | radxa/compositor/src/control_channel.c:461-465 | servicing one index touches no client below it, loses none and visits none again |
| Control.ServiceTurn | radxa/compositor/src/control_channel.c:461-465 | one turn keeps the other clients, as a multiset, even when the last entry moves into the hole |
| Control.LineBuffer.Read | radxa/compositor/src/control_channel.c:384-412 | the byte loop dispatches the commands of `Feed` and holds its line in the 256-byte buffer |
| Control.Table.Add | radxa/compositor/src/control_channel.c:182-195 | a client is appended with an empty line; a ninth is refused |
| Control.Table.RemoveAt | radxa/compositor/src/control_channel.c:197-205 | the last entry moves into the hole and the count drops by one |
| Control.Table.ServeAt | radxa/compositor/src/control_channel.c:461-465 | one turn dispatches this client's commands and keeps or removes it |
| Control.Table.Service | radxa/compositor/src/control_channel.c:461-465 | a pass visits every client present exactly once, dispatches what its own bytes say, keeps those not gone, and the count stays at most 8 |

## Left out

- Touch.PatchThenParse: one way only; bytes behind a shortened tag can bring the scan back in step, as `Touch.LongTagCanSurvive` shows, so no condition on the tags is exact for the re-parse.
- Link.Endpoint.Process: only for bytes that advance; on the others the call does not return, as `Link.ScanEnds` shows.
- The path of the link receiver on which a read fails with EAGAIN after the carried bytes were taken out of the carry buffer (iap2_link.c:125-136): those bytes are lost.
- Link.CarryNeverFull: one way over a whole run; `Link.CarryFull` is the exact condition for one call.
- Positions and lengths in the touch scanner are mathematical, so `pos + len` does not wrap around a machine word; a slice or vector holds at most isize::MAX bytes.
- The bitwise or of the varint reader is an addition, as the bits it joins never overlap; 32-bit sums in `Mitm` wrap as in a release build, where a debug build would stop.
- In `Srp` the hashes that give x, k and u are parameters and big numbers are mathematical; the session key, the proofs M1 and M2, HKDF, AES, Ed25519 and X25519 are not modelled, nor is the padding of A to 384 bytes.
- In `Mirror` the FairPlay cipher is an arbitrary function that may change between packets; a key torn while it is being set is left out. The contents of the frame buffer after the callback returns, and the codec-info cache that is written and never read, are not kept.
- In `Fragmentation` a delivered message is a value, so the aliasing of the out-pointer with the channel buffer is not captured; the unused total-length argument is left out, and allocation succeeds.
- In `AudioRing` waiting for data, the timeout of a read and memory ordering are left out: each load, copy and locked block is one atomic step.
- In `PingPong` the slot bytes are one value that any part of a frame may replace; socket set-up and the length prefix are left out.
- In `Auth` the MFi chip and the writes to the session are one boolean per message, and the clock is a parameter.
- In `Control` the client table holds each line as a value, while `Control.LineBuffer` shows the same assembly on the 256-byte array; what a command does to the display, replies, accepting connections and the plain-text MODE forwarding are left out.
- Callbacks that re-enter the object that called them, partial writes, failed allocations, poll timeouts and poisoned locks.
- The opposite direction of the proxy (`process_phone_to_car`), its hand-written JSON parsing and its sockets.
- RTP parsing, sample conversion and the AAC and ALAC decoders.
- carplay_input.c, a copy of the slot pair, and the TLVs of iap2_carplay.c, a simpler copy of TLV8.
- Bluetooth, Wi-Fi, web interface, updates, LEDs, infrared, touch zones, overlay, camera and neural-network code: input and output, or settled by reading a branch or two.
