/**
 * The compositor's video path: aa_emulator.c wraps and sends an H.264 buffer, aa_protocol.c parses the frames
 * and unwraps it (both under radxa/compositor/src), with fragmentation in between.
 */
module Video {
  import opened Prelude
  import opened Fragmentation
  import BigEndian

  const HEADER_SIZE: nat := 6
  const VIDEO_CHANNEL: byte := 3
  const PREAMBLE: nat := 10

  // ----- sending -----

  /** Message type 0x0005, a big-endian timestamp, the H.264 bytes. */
  function Payload(h264: Bytes, ts: u64): Bytes { [0x00, 0x05] + BigEndian.Encode(ts, 8) + h264 }

  /** build_header: both lengths are 16-bit. */
  function Header(channel: byte, flags: byte, payloadLen: u16, totalLen: u16): (r: Bytes)
    ensures |r| == HEADER_SIZE
  {
    [channel, flags] + BigEndian.Encode(payloadLen, 2) + BigEndian.Encode(totalLen, 2)
  }

  function Low16(n: nat): u16 { n % 0x1_0000 }

  /** send_fragment_cb: only the first fragment announces the whole message, modulo 2^16. */
  function Frame(f: Fragment, messageLen: nat): Bytes
  {
    var total := if f.flags == FIRST then Low16(messageLen) else Low16(|f.data|);
    Header(VIDEO_CHANNEL, f.flags, Low16(|f.data|), total) + f.data
  }

  function Frames(fs: seq<Fragment>, messageLen: nat): seq<Bytes>
  {
    if fs == [] then [] else [Frame(fs[0], messageLen)] + Frames(fs[1..], messageLen)
  }

  /** aa_emu_send_video on an open connection; an empty buffer is refused. */
  function SendVideo(h264: Bytes, ts: u64): seq<Bytes>
  {
    if h264 == [] then [] else Frames(Split(Payload(h264, ts)), PREAMBLE + |h264|)
  }

  // ----- receiving -----

  datatype Parsed = Parsed(channel: byte, flags: byte, totalLen: nat, payload: Bytes)

  /** aap_parse_header; the payload is as long as the header says. */
  function ParseHeader(data: Bytes): Option<Parsed>
  {
    if |data| < HEADER_SIZE then None
    else
      var len := BigEndian.Decode(data[2..4]);
      if len > |data| - HEADER_SIZE then None
      else Some(Parsed(data[0], data[1], BigEndian.Decode(data[4..6]), data[HEADER_SIZE..HEADER_SIZE + len]))
  }

  datatype Picture = Picture(h264: Bytes, ts: nat)

  /** aap_extract_h264. */
  function ExtractH264(payload: Bytes): Option<Picture>
  {
    if |payload| < PREAMBLE then None
    else Some(Picture(payload[PREAMBLE..], BigEndian.Decode(payload[2..PREAMBLE])))
  }

  /** Each frame parsed, submitted to its channel and, when that completes a message, unwrapped. */
  function Receive(held: Channels, frames: seq<Bytes>): seq<Picture>
    decreases |frames|
  {
    if frames == [] then []
    else match ParseHeader(frames[0])
      case None => Receive(held, frames[1..])
      case Some(p) =>
        var (r, next) := SubmitTo(held, Arrival(p.channel, Fragment(p.flags, p.payload)));
        var picture := if r.Complete? then ExtractH264(r.message) else None;
        (if picture.Some? then [picture.value] else []) + Receive(next, frames[1..])
  }

  // ----- end to end -----

  lemma ParseHeaderOf(channel: byte, flags: byte, totalLen: u16, data: Bytes)
    requires |data| < 0x1_0000
    ensures ParseHeader(Header(channel, flags, |data|, totalLen) + data) == Some(Parsed(channel, flags, totalLen, data))
  {
    var s := Header(channel, flags, |data|, totalLen) + data;
    assert BigEndian.Limit(2) == 0x1_0000;
    BigEndian.DecodeEncode(|data|, 2);
    BigEndian.DecodeEncode(totalLen, 2);
    assert s[2..4] == BigEndian.Encode(|data|, 2);
    assert s[4..6] == BigEndian.Encode(totalLen, 2);
    assert s[HEADER_SIZE..HEADER_SIZE + |data|] == data;
  }

  /** A fragment is parsed back from its frame whatever the total length was cut to. */
  lemma ParseFrame(f: Fragment, messageLen: nat)
    requires |f.data| <= SPLIT_SIZE
    ensures ParseHeader(Frame(f, messageLen))
      == Some(Parsed(VIDEO_CHANNEL, f.flags, if f.flags == FIRST then messageLen % 0x1_0000 else |f.data|, f.data))
  {
    var total := if f.flags == FIRST then Low16(messageLen) else Low16(|f.data|);
    assert Low16(|f.data|) == |f.data|;
    assert Frame(f, messageLen) == Header(VIDEO_CHANNEL, f.flags, |f.data|, total) + f.data;
    ParseHeaderOf(VIDEO_CHANNEL, f.flags, total, f.data);
  }

  function Pictures(ms: seq<Bytes>): seq<Picture>
  {
    if ms == [] then []
    else (if ExtractH264(ms[0]).Some? then [ExtractH264(ms[0]).value] else []) + Pictures(ms[1..])
  }

  lemma PicturesOfMessage(r: Result, later: seq<Bytes>)
    ensures var picture := if r.Complete? then ExtractH264(r.message) else None;
      Pictures(Message(r) + later) == (if picture.Some? then [picture.value] else []) + Pictures(later)
  {
    if r.Complete? {
      assert (Message(r) + later)[1..] == later;
    } else {
      assert Message(r) + later == later && [] + Pictures(later) == Pictures(later);
    }
  }

  /** Receiving frames is feeding their fragments to the video channel and unwrapping what it delivers. */
  lemma {:induction false} ReceiveFeeds(held: Channels, fs: seq<Fragment>, messageLen: nat)
    requires forall f <- fs :: |f.data| <= SPLIT_SIZE
    ensures Receive(held, Frames(fs, messageLen)) == Pictures(Feed(held[VIDEO_CHANNEL], fs).0)
    decreases |fs|
  {
    if fs != [] {
      var f, rest := fs[0], fs[1..];
      var (r, next) := Submit(held[VIDEO_CHANNEL], f);
      ParseFrame(f, messageLen);
      assert Frames(fs, messageLen)[1..] == Frames(rest, messageLen);
      ReceiveFeeds(held[VIDEO_CHANNEL := next], rest, messageLen);
      PicturesOfMessage(r, Feed(next, rest).0);
    }
  }

  lemma {:induction false} SplitRestFits(data: Bytes)
    ensures forall f <- SplitRest(data) :: |f.data| <= SPLIT_SIZE
    decreases |data|
  {
    if |data| > SPLIT_SIZE { SplitRestFits(data[SPLIT_SIZE..]); }
  }

  lemma UnwrapPayload(h264: Bytes, ts: u64)
    ensures |Payload(h264, ts)| == PREAMBLE + |h264|
    ensures ExtractH264(Payload(h264, ts)) == Some(Picture(h264, ts))
  {
    assert Payload(h264, ts)[2..PREAMBLE] == BigEndian.Encode(ts, 8);
    assert BigEndian.Limit(4) == 0x1_0000_0000;
    assert BigEndian.Limit(8) == TWO64;
    BigEndian.DecodeEncode(ts, 8);
    assert Payload(h264, ts)[PREAMBLE..] == h264;
  }

  /**
   * Every non-empty H.264 buffer and 64-bit timestamp come out of the receiver unchanged, whatever its channels
   * held before, exactly when the wrapped message is at most 512 KiB; a longer one, and an empty buffer, give
   * nothing.
   */
  lemma EndToEnd(held: Channels, h264: Bytes, ts: u64)
    ensures Receive(held, SendVideo(h264, ts))
         == if h264 != [] && 10 + |h264| <= 524288 then [Picture(h264, ts)] else []
  {
    if h264 == [] { return; }
    var m := Payload(h264, ts);
    UnwrapPayload(h264, ts);
    if |m| > SPLIT_SIZE { SplitRestFits(m[SPLIT_SIZE..]); }
    ReceiveFeeds(held, Split(m), |m|);
    FeedSplit(held[VIDEO_CHANNEL], m);
    assert Pictures([m]) == [Picture(h264, ts)] + [];
  }

  /**
   * The length the first fragment announces is the message's exactly when that is below 64 KiB; nothing relies
   * on it.
   */
  lemma AnnouncedTotal(h264: Bytes, ts: u64)
    requires PREAMBLE + |h264| > SPLIT_SIZE
    ensures var p := ParseHeader(SendVideo(h264, ts)[0]);
      p.Some? && p.value.flags == FIRST && (p.value.totalLen == PREAMBLE + |h264| <==> PREAMBLE + |h264| < 0x1_0000)
  {
    UnwrapPayload(h264, ts);
    ParseFrame(Split(Payload(h264, ts))[0], PREAMBLE + |h264|);
  }

  // ----- the bytes on the wire -----

  /** The timestamp, most significant byte first. */
  function TimestampByte(ts: u64, i: nat): nat
    requires i < 8
  {
    ShiftRight(ts, 7 - i) % 256
  }

  /** The wrapped message: type 00 05, the timestamp big-endian, the H.264 bytes. */
  lemma PayloadBytes(h264: Bytes, ts: u64, i: nat)
    requires i < 10 + |h264|
    ensures |Payload(h264, ts)| == 10 + |h264|
    ensures Payload(h264, ts)[i]
      == if i == 0 then 0x00 else if i == 1 then 0x05 else if i < 10 then TimestampByte(ts, i - 2) else h264[i - 10]
  {
    if 2 <= i < 10 { EncodedByte(ts, 8, 7 - (i - 2)); }
  }

  /** A short buffer goes out as one frame on channel 3 whose two lengths agree. */
  lemma ShortVideoBytes(h264: Bytes, ts: u64)
    requires 1 <= |h264| <= 16374
    ensures var n := 10 + |h264|;
      SendVideo(h264, ts) == [[0x03, 0x08, n / 256, n % 256, n / 256, n % 256] + Payload(h264, ts)]
  {
    var m := Payload(h264, ts);
    UnwrapPayload(h264, ts);
    BigEndian.EncodeTwo(|m|);
    assert Low16(|m|) == |m|;
    assert Split(m) == [Fragment(SINGLE, m)];
    assert Frames([Fragment(SINGLE, m)], |m|) == [Frame(Fragment(SINGLE, m), |m|)] + [];
    assert Header(VIDEO_CHANNEL, SINGLE, |m|, |m|) == [0x03, 0x08, |m| / 256, |m| % 256, |m| / 256, |m| % 256];
  }

  /** The first frame of a long buffer is marked 09, is full, and announces the whole length modulo 65536. */
  lemma LongVideoBytes(h264: Bytes, ts: u64)
    requires |h264| > 16374
    ensures var n := (10 + |h264|) % 0x1_0000;
      && |SendVideo(h264, ts)| > 0
      && SendVideo(h264, ts)[0]
         == [0x03, 0x09, 0x40, 0x00, n / 256, n % 256] + Payload(h264, ts)[..16384]
  {
    var m := Payload(h264, ts);
    UnwrapPayload(h264, ts);
    BigEndian.EncodeTwo(Low16(|m|));
    BigEndian.EncodeTwo(16384);
    assert Low16(16384) == 16384 && Split(m)[0] == Fragment(FIRST, m[..16384]);
  }

  /** A frame that is cut anywhere is not parsed, and neither is a message too short for its preamble unwrapped. */
  lemma CutFrame(channel: byte, flags: byte, totalLen: u16, data: Bytes, cut: nat, payload: Bytes)
    requires |data| < 0x1_0000 && cut < 6 + |data|
    ensures ParseHeader((Header(channel, flags, |data|, totalLen) + data)[..cut]) == None
    ensures ExtractH264(payload) == None <==> |payload| < 10
  {
    var s := Header(channel, flags, |data|, totalLen) + data;
    if cut >= 6 {
      assert BigEndian.Limit(2) == 0x1_0000;
      BigEndian.DecodeEncode(|data|, 2);
      assert s[..cut][2..4] == BigEndian.Encode(|data|, 2);
    }
  }

  // ----- the loops -----

  /** v >> (8 * i). */
  function ShiftRight(v: nat, i: nat): nat
  {
    if i == 0 then v else ShiftRight(v / 256, i - 1)
  }

  lemma {:induction false} EncodedByte(v: nat, n: nat, i: nat)
    requires i < n
    ensures BigEndian.Encode(v, n)[n - 1 - i] == ShiftRight(v, i) % 256
  {
    if i > 0 {
      EncodedByte(v / 256, n - 1, i - 1);
    }
  }

  method PutTimestamp(out: array<byte>, ts: u64)
    requires out.Length >= PREAMBLE
    modifies out
    ensures out[2..PREAMBLE] == BigEndian.Encode(ts, 8)
    ensures out[..2] == old(out[..2]) && out[PREAMBLE..] == old(out[PREAMBLE..])
  {
    var i := 7;
    while i >= 0
      invariant -1 <= i <= 7
      invariant forall j | 0 <= j < 7 - i :: out[2 + j] == BigEndian.Encode(ts, 8)[j]
      invariant out[..2] == old(out[..2]) && out[PREAMBLE..] == old(out[PREAMBLE..])
    {
      EncodedByte(ts, 8, i);
      out[2 + (7 - i)] := ShiftRight(ts, i) % 256;
      i := i - 1;
    }
  }

  /** aap_build_video_payload: -1 when the buffer is too small. */
  method BuildPayload(out: array<byte>, h264: Bytes, ts: u64) returns (n: int)
    modifies out
    ensures n == if PREAMBLE + |h264| > out.Length then -1 else PREAMBLE + |h264|
    ensures n >= 0 ==> out[..n] == Payload(h264, ts) && out[n..] == old(out[n..])
    ensures n == -1 ==> out[..] == old(out[..])
  {
    var needed := PREAMBLE + |h264|;
    if needed > out.Length {
      return -1;
    }
    out[0], out[1] := 0x00, 0x05;
    PutTimestamp(out, ts);
    ghost var head := out[..PREAMBLE];
    assert head == out[..2] + out[2..PREAMBLE];
    assert out[needed..] == out[PREAMBLE..][|h264|..];
    forall k | 0 <= k < |h264| {
      out[PREAMBLE + k] := h264[k];
    }
    assert out[..PREAMBLE] == head && out[PREAMBLE..needed] == h264;
    assert out[..needed] == head + h264;
    return needed;
  }

  /** aa_emu_send_video: wrap, split, and send each fragment from the callback. */
  method Send(h264: Bytes, ts: u64) returns (frames: seq<Bytes>)
    ensures frames == SendVideo(h264, ts)
  {
    frames := [];
    if h264 == [] {
      return;
    }
    var payload := new byte[PREAMBLE + |h264|];
    var n := BuildPayload(payload, h264, ts);
    assert payload[..] == payload[..n];
    var rest := SplitMessage(payload[..]);
    ghost var whole := Frames(rest, PREAMBLE + |h264|);
    assert [] + whole == whole;
    while rest != []
      invariant whole == frames + Frames(rest, PREAMBLE + |h264|)
      decreases |rest|
    {
      frames := frames + [Frame(rest[0], PREAMBLE + |h264|)];
      rest := rest[1..];
    }
    assert frames + [] == frames;
  }

  /** The reading loop of aap_extract_h264; shifting a 64-bit word left loses nothing in eight steps from zero. */
  method ReadTimestamp(payload: Bytes) returns (ts: nat)
    requires |payload| >= PREAMBLE
    ensures ts == BigEndian.Decode(payload[2..PREAMBLE]) && ts < TWO64
  {
    ts := 0;
    for i := 0 to 8
      invariant ts == BigEndian.Decode(payload[2..2 + i])
    {
      assert payload[2..2 + i + 1][..i] == payload[2..2 + i];
      ts := ts * 256 + payload[2 + i];
    }
    assert BigEndian.Limit(4) == 0x1_0000_0000;
    assert BigEndian.Limit(8) == TWO64;
  }
}
