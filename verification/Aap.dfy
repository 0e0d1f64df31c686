/** Android Auto framing in the proxy: radxa/aa-proxy/src/aap.rs. */
module Aap {
  import opened Prelude
  import BigEndian

  const INPUT: byte := 1
  const FIRST_FRAGMENT: byte := 0x08
  const LAST_FRAGMENT: byte := 0x04
  const COMPLETE: byte := 0x0C
  const MAX_FRAME_PAYLOAD: nat := 16384
  const HEADER_SIZE: nat := 6

  /** A logical message. */
  datatype Frame = Frame(channel: byte, flags: byte, msgType: u16, payload: Bytes)

  // ----- writing -----

  /** encode_physical_frame; a length that does not fit 16 bits loses its upper bits. */
  function Physical(channel: byte, flags: byte, msgType: u16, chunk: Bytes): Bytes
  {
    [channel, flags] + BigEndian.Encode(|chunk|, 2) + BigEndian.Encode(msgType, 2) + chunk
  }

  /** `payload.chunks(MAX_FRAME_PAYLOAD)`. */
  function Chunks(payload: Bytes): (r: seq<Bytes>)
    ensures Flatten(r) == payload
    ensures forall c <- r :: 0 < |c| <= MAX_FRAME_PAYLOAD
  {
    if payload == [] then []
    else if |payload| <= MAX_FRAME_PAYLOAD then
      assert Flatten([payload]) == payload + Flatten([payload][1..]) == payload;
      [payload]
    else
      var rest := Chunks(payload[MAX_FRAME_PAYLOAD..]);
      assert ([payload[..MAX_FRAME_PAYLOAD]] + rest)[1..] == rest;
      [payload[..MAX_FRAME_PAYLOAD]] + rest
  }

  function FragmentFlags(isFirst: bool, isLast: bool): byte
  {
    match (isFirst, isLast)
    case (true, true) => COMPLETE
    case (true, false) => FIRST_FRAGMENT
    case (false, true) => LAST_FRAGMENT
    case (false, false) => 0
  }

  /** The physical frames of the chunks still to be sent. */
  function Fragments(f: Frame, chunks: seq<Bytes>, isFirst: bool): seq<Bytes>
  {
    if chunks == [] then []
    else
      var p := Physical(f.channel, FragmentFlags(isFirst, |chunks| == 1), f.msgType, chunks[0]);
      [p] + Fragments(f, chunks[1..], false)
  }

  function EncodeFrames(f: Frame): seq<Bytes>
  {
    if f.payload == [] then [Physical(f.channel, COMPLETE, f.msgType, [])]
    else Fragments(f, Chunks(f.payload), true)
  }

  /** The bytes write_frame puts on the stream. */
  function Wire(f: Frame): Bytes { Flatten(EncodeFrames(f)) }

  // ----- reading -----

  datatype Reassembler = Reassembler(channel: byte, msgType: u16, data: Bytes)

  datatype ReadResult = Message(frame: Frame) | EndOfStream | UnexpectedEof | InvalidData

  /** What the reader holds: the bytes not read yet and the message being put together. */
  datatype Reader = Reader(input: Bytes, reassembly: Option<Reassembler>)

  predicate Has(flags: byte, bit: nat)
    requires bit > 0
  {
    flags / bit % 2 == 1
  }

  /** What one physical frame does: `None` when the reader goes on to the next one. */
  function Submit(open: Option<Reassembler>, channel: byte, flags: byte, msgType: u16, payload: Bytes)
    : (Option<ReadResult>, Option<Reassembler>)
  {
    var isFirst, isLast := Has(flags, 0x08), Has(flags, 0x04);
    if isFirst && open.Some? then (Some(InvalidData), open)
    else if !isFirst && !isLast then
      match open
      case None => (Some(InvalidData), open)
      case Some(r) =>
        if r.channel != channel || r.msgType != msgType then (Some(InvalidData), open)
        else (None, Some(r.(data := r.data + payload)))
    else if !isLast then (None, Some(Reassembler(channel, msgType, payload)))
    else
      var held := if open.Some? then open.value else Reassembler(channel, msgType, payload);
      var data := if isFirst then held.data else held.data + payload;
      (Some(Message(Frame(held.channel, flags, held.msgType, data))), None)
  }

  /** read_frame: one logical message, or why there is none. */
  function ReadFrame(st: Reader): (r: (ReadResult, Reader))
    ensures r.0.Message? ==> |r.1.input| < |st.input|
    decreases |st.input|
  {
    if |st.input| < HEADER_SIZE then (EndOfStream, st.(input := []))
    else
      var channel, flags := st.input[0], st.input[1];
      var len := BigEndian.Decode(st.input[2..4]);
      var msgType := MessageType(st.input);
      var rest := st.input[HEADER_SIZE..];
      if |rest| < len then (UnexpectedEof, st.(input := []))
      else
        var (result, open) := Submit(st.reassembly, channel, flags, msgType, rest[..len]);
        var next := Reader(rest[len..], open);
        if result.Some? then (result.value, next) else ReadFrame(next)
  }

  function MessageType(header: Bytes): u16
    requires |header| >= HEADER_SIZE
  {
    assert BigEndian.Limit(2) == 0x1_0000;
    BigEndian.Decode(header[4..6])
  }

  /** Everything a caller receives until the reader reports something other than a message. */
  function ReadAll(st: Reader): (seq<Frame>, ReadResult)
    decreases |st.input|
  {
    var (result, next) := ReadFrame(st);
    if result.Message? then
      var (frames, end) := ReadAll(next);
      ([result.frame] + frames, end)
    else ([], result)
  }

  // ----- round trip -----

  /** The header of a chunk that fits its length field says what follows it. */
  lemma ReadPhysical(channel: byte, flags: byte, msgType: u16, chunk: Bytes, suffix: Bytes, open: Option<Reassembler>)
    requires |chunk| < 0x1_0000
    ensures var (result, held) := Submit(open, channel, flags, msgType, chunk);
      ReadFrame(Reader(Physical(channel, flags, msgType, chunk) + suffix, open))
        == if result.Some? then (result.value, Reader(suffix, held)) else ReadFrame(Reader(suffix, held))
  {
    var s := Physical(channel, flags, msgType, chunk) + suffix;
    assert BigEndian.Limit(2) == 0x1_0000;
    BigEndian.DecodeEncode(|chunk|, 2);
    BigEndian.DecodeEncode(msgType, 2);
    assert s[2..4] == BigEndian.Encode(|chunk|, 2);
    assert s[4..6] == BigEndian.Encode(msgType, 2);
    assert s[6..] == chunk + suffix;
    assert (chunk + suffix)[..|chunk|] == chunk && (chunk + suffix)[|chunk|..] == suffix;
  }

  lemma SubmitLater(open: Reassembler, isLast: bool, chunk: Bytes)
    ensures Submit(Some(open), open.channel, FragmentFlags(false, isLast), open.msgType, chunk)
      == if isLast then (Some(Message(Frame(open.channel, LAST_FRAGMENT, open.msgType, open.data + chunk))), None)
         else (None, Some(open.(data := open.data + chunk)))
  {}

  lemma SubmitFirst(channel: byte, msgType: u16, isLast: bool, chunk: Bytes)
    ensures Submit(None, channel, FragmentFlags(true, isLast), msgType, chunk)
      == if isLast then (Some(Message(Frame(channel, COMPLETE, msgType, chunk))), None)
         else (None, Some(Reassembler(channel, msgType, chunk)))
  {}

  /** The bytes of the remaining chunks, followed by whatever comes after the message. */
  function WireThen(f: Frame, chunks: seq<Bytes>, isFirst: bool, suffix: Bytes): Bytes
  {
    if chunks == [] then suffix
    else
      var p := Physical(f.channel, FragmentFlags(isFirst, |chunks| == 1), f.msgType, chunks[0]);
      p + WireThen(f, chunks[1..], false, suffix)
  }

  lemma {:induction false} WireThenIsWire(f: Frame, chunks: seq<Bytes>, isFirst: bool, suffix: Bytes)
    ensures WireThen(f, chunks, isFirst, suffix) == Flatten(Fragments(f, chunks, isFirst)) + suffix
  {
    if chunks == [] {
      assert [] + suffix == suffix;
    } else {
      WireThenIsWire(f, chunks[1..], false, suffix);
      var p, tail := Fragments(f, chunks, isFirst)[0], Fragments(f, chunks[1..], false);
      assert Fragments(f, chunks, isFirst)[1..] == tail;
      assert p + (Flatten(tail) + suffix) == p + Flatten(tail) + suffix;
    }
  }

  lemma ReadLater(open: Reassembler, isLast: bool, chunk: Bytes, suffix: Bytes)
    requires |chunk| <= MAX_FRAME_PAYLOAD
    ensures var flags := FragmentFlags(false, isLast);
      ReadFrame(Reader(Physical(open.channel, flags, open.msgType, chunk) + suffix, Some(open)))
      == if isLast
         then (Message(Frame(open.channel, LAST_FRAGMENT, open.msgType, open.data + chunk)), Reader(suffix, None))
         else ReadFrame(Reader(suffix, Some(open.(data := open.data + chunk))))
  {
    SubmitLater(open, isLast, chunk);
    ReadPhysical(open.channel, FragmentFlags(false, isLast), open.msgType, chunk, suffix, Some(open));
  }

  lemma FlattenSingle(c: Bytes)
    ensures Flatten([c]) == c
  {
    assert Flatten([c]) == c + [];
  }

  lemma ReadRestStep(f: Frame, chunks: seq<Bytes>, held: Bytes, suffix: Bytes)
    requires chunks != [] && |chunks[0]| <= MAX_FRAME_PAYLOAD
    ensures var data := held + chunks[0];
      ReadFrame(Reader(WireThen(f, chunks, false, suffix), Some(Reassembler(f.channel, f.msgType, held))))
      == if |chunks| == 1 then (Message(f.(flags := LAST_FRAGMENT, payload := data)), Reader(suffix, None))
         else
           ReadFrame(Reader(WireThen(f, chunks[1..], false, suffix), Some(Reassembler(f.channel, f.msgType, data))))
  {
    var open := Reassembler(f.channel, f.msgType, held);
    ReadLater(open, |chunks| == 1, chunks[0], WireThen(f, chunks[1..], false, suffix));
  }

  /** Middle and last fragments are appended to what is held. */
  lemma {:induction false} ReadRest(f: Frame, chunks: seq<Bytes>, held: Bytes, suffix: Bytes)
    requires chunks != [] && forall c <- chunks :: |c| <= MAX_FRAME_PAYLOAD
    ensures ReadFrame(Reader(WireThen(f, chunks, false, suffix), Some(Reassembler(f.channel, f.msgType, held))))
         == (Message(f.(flags := LAST_FRAGMENT, payload := held + Flatten(chunks))), Reader(suffix, None))
    decreases |chunks|
  {
    var c, rest := chunks[0], chunks[1..];
    ReadRestStep(f, chunks, held, suffix);
    if |chunks| == 1 {
      assert chunks == [c];
      FlattenSingle(c);
    } else {
      ReadRest(f, rest, held + c, suffix);
      assert held + c + Flatten(rest) == held + Flatten(chunks);
    }
  }

  /** The flags a receiver sees on a message. */
  function Delivered(f: Frame): Frame
  {
    f.(flags := if |f.payload| <= MAX_FRAME_PAYLOAD then COMPLETE else LAST_FRAGMENT)
  }

  lemma ReadChunks(f: Frame, suffix: Bytes)
    requires f.payload != []
    ensures ReadFrame(Reader(WireThen(f, Chunks(f.payload), true, suffix), None))
         == (Message(Delivered(f)), Reader(suffix, None))
  {
    var chunks := Chunks(f.payload);
    var c, rest := chunks[0], chunks[1..];
    var isLast := |chunks| == 1;
    SubmitFirst(f.channel, f.msgType, isLast, c);
    ReadPhysical(f.channel, FragmentFlags(true, isLast), f.msgType, c, WireThen(f, rest, false, suffix), None);
    assert Flatten(chunks) == c + Flatten(rest);
    if isLast {
      assert rest == [] && c == f.payload;
    } else {
      ReadRest(f, rest, c, suffix);
    }
  }

  /** One message of any size is read back whole, and leaves the reassembler empty. */
  lemma ReadWire(f: Frame, suffix: Bytes)
    ensures ReadFrame(Reader(Wire(f) + suffix, None)) == (Message(Delivered(f)), Reader(suffix, None))
  {
    if f.payload == [] {
      var p := Physical(f.channel, COMPLETE, f.msgType, []);
      FlattenSingle(p);
      SubmitFirst(f.channel, f.msgType, true, []);
      ReadPhysical(f.channel, COMPLETE, f.msgType, [], suffix, None);
    } else {
      WireThenIsWire(f, Chunks(f.payload), true, suffix);
      ReadChunks(f, suffix);
    }
  }

  /** What the writer puts on the stream for a list of messages. */
  function Stream(frames: seq<Frame>): Bytes
  {
    if frames == [] then [] else Wire(frames[0]) + Stream(frames[1..])
  }

  function DeliveredAll(frames: seq<Frame>): (r: seq<Frame>)
    ensures |r| == |frames| && forall i | 0 <= i < |r| :: r[i] == Delivered(frames[i])
  {
    if frames == [] then [] else [Delivered(frames[0])] + DeliveredAll(frames[1..])
  }

  /** Any list of messages written to a stream is read back in order, and then the stream is at its end. */
  lemma {:induction false} StreamRoundTrip(frames: seq<Frame>)
    ensures ReadAll(Reader(Stream(frames), None)) == (DeliveredAll(frames), EndOfStream)
  {
    if frames != [] {
      ReadWire(frames[0], Stream(frames[1..]));
      StreamRoundTrip(frames[1..]);
    }
  }

  /**
   * A last fragment with nothing open is delivered with its payload twice, so it comes through unchanged
   * exactly when it is empty.
   */
  lemma LoneLastFragment(channel: byte, msgType: u16, payload: Bytes, suffix: Bytes)
    requires |payload| < 0x1_0000
    ensures var r := ReadFrame(Reader(Physical(channel, LAST_FRAGMENT, msgType, payload) + suffix, None)).0;
      && r == Message(Frame(channel, LAST_FRAGMENT, msgType, payload + payload))
      && (r.frame.payload == payload <==> payload == [])
  {
    var twice := Frame(channel, LAST_FRAGMENT, msgType, payload + payload);
    assert Submit(None, channel, LAST_FRAGMENT, msgType, payload) == (Some(Message(twice)), None);
    assert payload + payload == payload <==> payload == [] by {
      assert |payload + payload| == 2 * |payload|;
    }
    ReadPhysical(channel, LAST_FRAGMENT, msgType, payload, suffix, None);
  }

  // ----- the bytes of a frame, and streams that end inside one -----

  /** Six header bytes: channel, flags, the length of this payload and the message type, both big-endian. */
  lemma FrameBytes(channel: byte, flags: byte, msgType: u16, chunk: Bytes)
    requires |chunk| < 0x1_0000
    ensures Physical(channel, flags, msgType, chunk)
         == [channel, flags, |chunk| / 256, |chunk| % 256, msgType / 256, msgType % 256] + chunk
  {
    BigEndian.EncodeTwo(|chunk|);
    BigEndian.EncodeTwo(msgType);
  }

  /** How many physical frames a payload takes. */
  function FrameCount(size: nat): nat { if size == 0 then 1 else (size + 16383) / 16384 }

  lemma {:induction false} ChunkSizes(payload: Bytes)
    requires |payload| > 0
    ensures |Chunks(payload)| == FrameCount(|payload|)
    ensures forall i | 0 <= i < |Chunks(payload)| - 1 :: |Chunks(payload)[i]| == 16384
    decreases |payload|
  {
    if |payload| > MAX_FRAME_PAYLOAD { ChunkSizes(payload[MAX_FRAME_PAYLOAD..]); }
  }

  lemma {:induction false} FragmentAt(f: Frame, chunks: seq<Bytes>, isFirst: bool, i: nat)
    requires i < |chunks|
    ensures |Fragments(f, chunks, isFirst)| == |chunks|
    ensures Fragments(f, chunks, isFirst)[i]
         == Physical(f.channel, FragmentFlags(isFirst && i == 0, i == |chunks| - 1), f.msgType, chunks[i])
    decreases |chunks|
  {
    var rest := chunks[1..];
    FragmentsLength(f, rest, false);
    if i > 0 { FragmentAt(f, rest, false, i - 1); }
  }

  lemma {:induction false} FragmentsLength(f: Frame, chunks: seq<Bytes>, isFirst: bool)
    ensures |Fragments(f, chunks, isFirst)| == |chunks|
    decreases |chunks|
  {
    if |chunks| > 0 { FragmentsLength(f, chunks[1..], false); }
  }

  /**
   * A message is spread over ceil(n / 16384) frames, full ones but for the last; alone a frame has flags 0C, else
   * the first has 08, the last 04 and those between them 00.
   */
  lemma FramesOfMessage(f: Frame, i: nat)
    requires i < FrameCount(|f.payload|)
    ensures var frames := EncodeFrames(f);
      && |frames| == FrameCount(|f.payload|)
      && |frames[i]| >= 6 && frames[i][0] == f.channel
      && frames[i][1] == (if |frames| == 1 then 0x0C else if i == 0 then 0x08
                          else if i == |frames| - 1 then 0x04 else 0)
      && (i < |frames| - 1 ==> |frames[i]| == 6 + 16384)
  {
    if |f.payload| > 0 {
      var chunks := Chunks(f.payload);
      ChunkSizes(f.payload);
      FragmentAt(f, chunks, true, i);
      assert chunks[i] in chunks;
      FrameBytes(f.channel, FragmentFlags(i == 0, i == |chunks| - 1), f.msgType, chunks[i]);
    } else {
      FrameBytes(f.channel, COMPLETE, f.msgType, []);
    }
  }

  /**
   * A stream that ends inside a header ends quietly, even after its first bytes; one that ends inside a payload is
   * an error.
   */
  lemma CutFrame(
    channel: byte, flags: byte, msgType: u16, chunk: Bytes, cut: nat, open: Option<Reassembler>)
    requires |chunk| < 0x1_0000 && cut < 6 + |chunk|
    ensures cut <= |Physical(channel, flags, msgType, chunk)|
    ensures ReadFrame(Reader(Physical(channel, flags, msgType, chunk)[..cut], open))
         == (if cut < 6 then EndOfStream else UnexpectedEof, Reader([], open))
  {
    var p := Physical(channel, flags, msgType, chunk);
    if cut >= 6 {
      assert BigEndian.Limit(2) == 0x1_0000;
      BigEndian.DecodeEncode(|chunk|, 2);
      assert p[..cut][2..4] == BigEndian.Encode(|chunk|, 2);
      assert |p[..cut][6..]| < |chunk|;
    }
  }

  /** A frame read while nothing is open: complete, the start of a message, the doubled last one, or an error. */
  lemma FragmentWhenIdle(channel: byte, flags: byte, msgType: u16, payload: Bytes, suffix: Bytes)
    requires |payload| < 0x1_0000
    ensures var r := ReadFrame(Reader(Physical(channel, flags, msgType, payload) + suffix, None));
      match (flags / 8 % 2, flags / 4 % 2)
      case (1, 1) => r == (Message(Frame(channel, flags, msgType, payload)), Reader(suffix, None))
      case (1, _) => r == ReadFrame(Reader(suffix, Some(Reassembler(channel, msgType, payload))))
      case (_, 1) => r == (Message(Frame(channel, flags, msgType, payload + payload)), Reader(suffix, None))
      case (_, _) => r == (InvalidData, Reader(suffix, None))
  {
    ReadPhysical(channel, flags, msgType, payload, suffix, None);
  }

  // ----- fragments of another message -----

  /**
   * While a message is open, a last fragment completes it whatever channel and type it carries; a middle one is
   * refused exactly when it differs in either; a first one, and a complete frame, always.
   */
  lemma FragmentWhileOpen(
    open: Reassembler, channel: byte, flags: byte, msgType: u16, payload: Bytes, suffix: Bytes)
    requires |payload| < 0x1_0000
    ensures var r := ReadFrame(Reader(Physical(channel, flags, msgType, payload) + suffix, Some(open)));
      if Has(flags, 0x08) then r == (InvalidData, Reader(suffix, Some(open)))
      else if Has(flags, 0x04) then
        r == (Message(Frame(open.channel, flags, open.msgType, open.data + payload)), Reader(suffix, None))
      else if channel == open.channel && msgType == open.msgType then
        r == ReadFrame(Reader(suffix, Some(open.(data := open.data + payload))))
      else r == (InvalidData, Reader(suffix, Some(open)))
  {
    ReadPhysical(channel, flags, msgType, payload, suffix, Some(open));
  }

  /** A message starts with a physical frame that has the FIRST bit. */
  lemma WireStart(f: Frame, suffix: Bytes) returns (flags: byte, chunk: Bytes, rest: Bytes)
    ensures Wire(f) + suffix == Physical(f.channel, flags, f.msgType, chunk) + rest
    ensures Has(flags, 0x08) && |chunk| <= MAX_FRAME_PAYLOAD
  {
    if f.payload == [] {
      flags, chunk, rest := COMPLETE, [], suffix;
      FlattenSingle(Physical(f.channel, COMPLETE, f.msgType, []));
    } else {
      var chunks := Chunks(f.payload);
      flags, chunk, rest := FragmentFlags(true, |chunks| == 1), chunks[0], WireThen(f, chunks[1..], false, suffix);
      WireThenIsWire(f, chunks, true, suffix);
    }
  }

  /**
   * So two channels cannot be interleaved: whatever message is started while another is open, the reader reports
   * invalid data and keeps the open one.
   */
  lemma InterleavedStart(open: Reassembler, f: Frame, suffix: Bytes)
    ensures var r := ReadFrame(Reader(Wire(f) + suffix, Some(open)));
      r.0 == InvalidData && r.1.reassembly == Some(open)
  {
    var flags, chunk, rest := WireStart(f, suffix);
    FragmentWhileOpen(open, f.channel, flags, f.msgType, chunk, rest);
  }

  // ----- the loops -----

  lemma FragmentsNext(f: Frame, out: seq<Bytes>, chunks: seq<Bytes>, i: nat)
    requires i < |chunks|
    ensures out + Fragments(f, chunks[i..], i == 0)
         == out + [Physical(f.channel, FragmentFlags(i == 0, i == |chunks| - 1), f.msgType, chunks[i])]
          + Fragments(f, chunks[i + 1..], false)
  {
    assert chunks[i..][1..] == chunks[i + 1..];
  }

  method EncodeChunks(f: Frame, chunks: seq<Bytes>) returns (out: seq<Bytes>)
    ensures out == Fragments(f, chunks, true)
  {
    out := [];
    ghost var whole := Fragments(f, chunks, true);
    assert chunks[0..] == chunks && [] + whole == whole;
    for i := 0 to |chunks|
      invariant whole == out + Fragments(f, chunks[i..], i == 0)
    {
      var flags := FragmentFlags(i == 0, i == |chunks| - 1);
      FragmentsNext(f, out, chunks, i);
      out := out + [Physical(f.channel, flags, f.msgType, chunks[i])];
    }
    assert chunks[|chunks|..] == [] && out + [] == out;
  }

  /** AapFrame::encode_frames. */
  method Encode(f: Frame) returns (out: seq<Bytes>)
    ensures out == EncodeFrames(f)
  {
    if f.payload == [] {
      return [Physical(f.channel, COMPLETE, f.msgType, [])];
    }
    out := EncodeChunks(f, Chunks(f.payload));
  }

  /** AapFrameReader over a stream whose remaining bytes are `input`. */
  class FrameReader {
    var input: Bytes
    var reassembly: Option<Reassembler>

    constructor (stream: Bytes)
      ensures View() == Reader(stream, None)
    {
      input, reassembly := stream, None;
    }

    function View(): Reader
      reads this
    {
      Reader(input, reassembly)
    }

    method Read() returns (r: ReadResult)
      modifies this
      ensures (r, View()) == ReadFrame(old(View()))
    {
      ghost var goal := ReadFrame(View());
      while true
        invariant ReadFrame(View()) == goal
        decreases |input|
      {
        if |input| < HEADER_SIZE {
          input := [];
          return EndOfStream;
        }
        var header := input[..HEADER_SIZE];
        assert header[2..4] == input[2..4] && header[4..6] == input[4..6];
        input := input[HEADER_SIZE..];
        var channel, flags, len := header[0], header[1], BigEndian.Decode(header[2..4]);
        var msgType := MessageType(header);
        if |input| < len {
          input := [];
          return UnexpectedEof;
        }
        var payload := input[..len];
        input := input[len..];
        var isFirst, isLast := Has(flags, 0x08), Has(flags, 0x04);
        if isFirst {
          if reassembly.Some? {
            return InvalidData;
          }
          reassembly := Some(Reassembler(channel, msgType, payload));
        } else if !isFirst && !isLast {
          if reassembly == None || reassembly.value.channel != channel || reassembly.value.msgType != msgType {
            return InvalidData;
          }
          reassembly := Some(reassembly.value.(data := reassembly.value.data + payload));
        }
        if isLast {
          var held := if reassembly.Some? then reassembly.value else Reassembler(channel, msgType, payload);
          reassembly := None;
          var data := held.data;
          if !isFirst {
            data := data + payload;
          }
          return Message(Frame(held.channel, flags, held.msgType, data));
        }
      }
    }
  }

  lemma SinkStep(sink: Bytes, encoded: seq<Bytes>, i: nat)
    requires i < |encoded|
    ensures sink + Flatten(encoded[..i]) + encoded[i] == sink + Flatten(encoded[..i + 1])
  {
    assert encoded[..i + 1] == encoded[..i] + [encoded[i]];
    FlattenAppend(encoded[..i], [encoded[i]]);
    FlattenSingle(encoded[i]);
  }

  /** AapFrameWriter over a sink that has received `sink` so far. */
  class FrameWriter {
    var sink: Bytes

    constructor ()
      ensures sink == []
    {
      sink := [];
    }

    method Write(f: Frame)
      modifies this
      ensures sink == old(sink) + Wire(f)
    {
      var encoded := Encode(f);
      for i := 0 to |encoded|
        invariant sink == old(sink) + Flatten(encoded[..i])
      {
        SinkStep(old(sink), encoded, i);
        sink := sink + encoded[i];
      }
      assert encoded[..|encoded|] == encoded;
    }
  }
}
