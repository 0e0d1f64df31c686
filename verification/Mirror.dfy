/** The AirPlay mirror stream: radxa/carplay/airplay/airplay_mirror.c. */
module Mirror {
  import opened Prelude
  import BigEndian

  const VIDEO_PLAIN: u16 := 0
  const VIDEO_FAIRPLAY: u16 := 1
  const CODEC_INFO: u16 := 2
  const HEARTBEAT: u16 := 5

  const BASE_HEADER: nat := 8
  const TIMESTAMP: nat := 8
  const MAX_FRAME: nat := 0x80_0000
  const FIRST_CAPACITY: nat := 0x1_0000
  const CODEC_INFO_SIZE: nat := 4096

  datatype Codec = Unknown | H264 | H265

  function DetectCodec(s: Bytes): Codec
  {
    if |s| < 5 then Unknown
    else
      var off :=
        if s[0] == 0 && s[1] == 0 && s[2] == 0 && s[3] == 1 then 4
        else if s[0] == 0 && s[1] == 0 && s[2] == 1 then 3
        else 0;
      var t := s[off] / 2 % 64;
      if t == 32 || t == 33 || t == 34 then H265
      else if s[off] % 32 >= 1 then H264
      else Unknown
  }

  /**
   * What the detection makes of an H.264 unit with this nal_ref_idc and type behind a 3- or 4-byte start code:
   * slices with nal_ref_idc 2 look like H.265 parameter sets.
   */
  lemma CodecOfFirstUnit(long: bool, refIdc: nat, unitType: nat, rest: Bytes)
    requires refIdc < 4 && 0 < unitType < 32 && rest != []
    ensures var code: Bytes := if long then [0, 0, 0, 1] else [0, 0, 1];
      DetectCodec(code + [32 * refIdc + unitType] + rest) == if refIdc == 2 && unitType <= 5 then H265 else H264
  {
    var code: Bytes := if long then [0, 0, 0, 1] else [0, 0, 1];
    var s := code + [32 * refIdc + unitType] + rest;
    assert s[..3] == code[..3] && s[|code|] == 32 * refIdc + unitType;
    assert s[0] == 0 && s[1] == 0 && s[2] == code[2] && (long ==> s[3] == 1);
  }

  /** VPS, SPS and PPS of H.265 behind either start code are recognised. */
  lemma H265Headers(long: bool, header: byte, rest: Bytes)
    requires (header == 0x40 || header == 0x42 || header == 0x44) && |rest| > 0
    ensures var code: Bytes := if long then [0, 0, 0, 1] else [0, 0, 1]; DetectCodec(code + [header] + rest) == H265
  {
    var code: Bytes := if long then [0, 0, 0, 1] else [0, 0, 1];
    var s := code + [header] + rest;
    assert s[..3] == code[..3] && s[|code|] == header;
    assert s[0] == 0 && s[1] == 0 && s[2] == code[2] && (long ==> s[3] == 1);
  }

  /**
   * Which codec any bytes tell: the header is the byte behind a start code in front, or else the very first one; the
   * headers of H.265 parameter sets are 40 to 45 below the top bit.
   */
  lemma CodecOfBytes(s: Bytes)
    ensures |s| < 5 ==> DetectCodec(s) == Unknown
    ensures |s| >= 5 ==>
      var header := if s[..4] == [0, 0, 0, 1] then s[4] else if s[..3] == [0, 0, 1] then s[3] else s[0];
      DetectCodec(s) == if 0x40 <= header % 0x80 <= 0x45 then H265 else if header % 0x20 > 0 then H264 else Unknown
  {
    if |s| >= 5 {
      FrontIs(s);
      HeaderTypes(s[0]);
      HeaderTypes(s[3]);
      HeaderTypes(s[4]);
    }
  }

  lemma FrontIs(s: Bytes)
    requires |s| >= 5
    ensures s[..4] == [0, 0, 0, 1] <==> s[0] == 0 && s[1] == 0 && s[2] == 0 && s[3] == 1
    ensures s[..3] == [0, 0, 1] <==> s[0] == 0 && s[1] == 0 && s[2] == 1
  {
    assert s[..4] == [s[0], s[1], s[2], s[3]] && s[..3] == [s[0], s[1], s[2]];
  }

  lemma HeaderTypes(h: byte)
    ensures h / 2 % 64 == 32 || h / 2 % 64 == 33 || h / 2 % 64 == 34 <==> 0x40 <= h % 0x80 <= 0x45
    ensures h % 32 >= 1 <==> h % 0x20 > 0
  {}

  /** FairPlay keys once they are set: what decryption makes of a payload, `None` when the cipher fails. */
  type Cipher = Option<Bytes -> Option<Bytes>>

  /**
   * The keys in force when packet k of the connection is looked at.  Another thread sets them, at any moment and
   * possibly again with other values.
   */
  type Keys = nat -> Cipher

  datatype Frame = Frame(data: Bytes, ts: nat, codec: Codec)

  /** Codec seen so far, capacity of the frame buffer, frames passed to the callback. */
  datatype State = State(codec: Codec, cap: nat, shown: seq<Frame>)

  // ----- the frame buffer -----

  function Double(cap: nat, needed: nat): (r: nat)
    requires cap > 0
    ensures r >= needed
    decreases needed - cap
  {
    if cap < needed then Double(cap * 2, needed) else cap
  }

  function Grow(cap: nat, needed: nat): nat
  {
    if cap >= needed then cap else Double(if cap > 0 then cap else FIRST_CAPACITY, needed)
  }

  /** Never allocated, or a power of two from 2^16 to 2^23. */
  predicate Capacity(cap: nat)
  {
    cap in {0, 0x1_0000, 0x2_0000, 0x4_0000, 0x8_0000, 0x10_0000, 0x20_0000, 0x40_0000, 0x80_0000}
  }

  lemma {:induction false} DoubleStaysCapacity(cap: nat, needed: nat)
    requires cap > 0 && Capacity(cap) && needed <= MAX_FRAME
    ensures Capacity(Double(cap, needed)) && (Double(cap, needed) == cap || Double(cap, needed) < 2 * needed)
    decreases needed - cap
  {
    if cap < needed { DoubleStaysCapacity(cap * 2, needed); }
  }

  /** Growing for an acceptable frame keeps the capacity a power of two below twice what is needed. */
  lemma GrowStaysCapacity(cap: nat, needed: nat)
    requires Capacity(cap) && needed <= MAX_FRAME
    ensures Capacity(Grow(cap, needed)) && Grow(cap, needed) >= needed && Grow(cap, needed) >= cap
    ensures Grow(cap, needed) != cap && Grow(cap, needed) != FIRST_CAPACITY ==> Grow(cap, needed) < 2 * needed
  {
    if cap < needed { DoubleStaysCapacity(if cap > 0 then cap else FIRST_CAPACITY, needed); }
  }

  // ----- packets -----

  datatype Packet = Packet(kind: u16, padding: u16, payload: Bytes)

  predicate Encodable(p: Packet) { |p.payload| < TWO32 }

  function Serialise(p: Packet): Bytes
  {
    BigEndian.Encode(|p.payload|, 4) + BigEndian.Encode(p.kind, 2) + BigEndian.Encode(p.padding, 2) + p.payload
  }

  /** The bytes of a packet: payload length, kind and padding, all big-endian, and the payload. */
  lemma PacketBytes(p: Packet)
    requires |p.payload| < 0x1_0000
    ensures Serialise(p)
      == [0, 0, |p.payload| / 256, |p.payload| % 256, p.kind / 256, p.kind % 256, p.padding / 256, p.padding % 256]
       + p.payload
  {
    BigEndian.EncodeTwo(p.kind);
    BigEndian.EncodeTwo(p.padding);
    BigEndian.EncodeFour(|p.payload|);
  }

  predicate IsVideo(kind: u16) { kind == VIDEO_PLAIN || kind == VIDEO_FAIRPLAY }

  /** The plain bytes a video payload carries, if they can be had. */
  function Reveal(cipher: Cipher, kind: u16, data: Bytes): Option<Bytes>
  {
    if kind == VIDEO_PLAIN then Some(data)
    else if cipher == None then None
    else cipher.value(data)
  }

  function Show(st: State, data: Bytes, ts: nat): State
  {
    var codec := if st.codec.Unknown? then DetectCodec(data) else st.codec;
    st.(codec := codec, shown := st.shown + [Frame(data, ts, codec)])
  }

  /** One packet; `None` when the connection is given up. */
  function Step(cipher: Cipher, st: State, kind: u16, payload: Bytes): Option<State>
  {
    if kind == CODEC_INFO then
      Some(if 0 < |payload| <= CODEC_INFO_SIZE then st.(codec := DetectCodec(payload)) else st)
    else if IsVideo(kind) then
      if |payload| < TIMESTAMP then None
      else
        var data := payload[TIMESTAMP..];
        if data == [] || |data| > MAX_FRAME then Some(st)
        else
          var grown := st.(cap := Grow(st.cap, |data|));
          match Reveal(cipher, kind, data)
          case None => Some(grown)
          case Some(plain) => Some(Show(grown, plain, BigEndian.Decode(payload[..TIMESTAMP])))
    else Some(st)
  }

  /** A payload that ends early: a video frame may still have made the buffer grow. */
  function CutShort(st: State, kind: u16, len: nat, have: nat): State
  {
    if IsVideo(kind) && TIMESTAMP < len <= TIMESTAMP + MAX_FRAME && have >= TIMESTAMP
    then st.(cap := Grow(st.cap, len - TIMESTAMP))
    else st
  }

  function KindOf(header: Bytes): u16
    requires |header| >= 6
  {
    assert BigEndian.Limit(2) == 0x1_0000;
    BigEndian.Decode(header[4..6])
  }

  /**
   * What becomes of the state when packet k, of this kind, has been read (`None` ends the connection), and when
   * the stream breaks off inside a payload of this kind and length.
   */
  datatype Action = Action(
    whole: (nat, State, u16, Bytes) -> Option<State>,
    cut: (State, u16, nat, nat) -> State)

  /** The receive loop from packet k on, over everything the peer will ever send. */
  function Loop(act: Action, k: nat, st: State, input: Bytes): State
    decreases |input|
  {
    if |input| < BASE_HEADER then st
    else
      var len, kind, rest := BigEndian.Decode(input[..4]), KindOf(input), input[BASE_HEADER..];
      if |rest| < len then act.cut(st, kind, len, |rest|)
      else
        match act.whole(k, st, kind, rest[..len])
        case None => st
        case Some(next) => Loop(act, k + 1, next, rest[len..])
  }

  /** Packet k is handled with the keys of its moment. */
  function Handling(keys: Keys): Action
  {
    Action((k: nat, st: State, kind: u16, payload: Bytes) => Step(keys(k), st, kind, payload),
           (st: State, kind: u16, len: nat, have: nat) => CutShort(st, kind, len, have))
  }

  lemma LoopStep(keys: Keys, k: nat, st: State, input: Bytes)
    requires |input| >= BASE_HEADER
    ensures var len, kind, rest := BigEndian.Decode(input[..4]), KindOf(input), input[BASE_HEADER..];
      Loop(Handling(keys), k, st, input) ==
        if |rest| < len then CutShort(st, kind, len, |rest|)
        else
          match Step(keys(k), st, kind, rest[..len])
          case None => st
          case Some(next) => Loop(Handling(keys), k + 1, next, rest[len..])
  {}

  function Run(keys: Keys, st: State, input: Bytes): State { Loop(Handling(keys), 0, st, input) }

  // ----- the packets of a stream -----

  /** The state behind the packets, and the number of the next one; or the state when the connection was given up. */
  datatype Outcome = Open(next: nat, state: State) | GivenUp(state: State)

  function Play(act: Action, k: nat, st: State, ps: seq<Packet>): Outcome
    decreases |ps|
  {
    if ps == [] then Open(k, st)
    else
      match act.whole(k, st, ps[0].kind, ps[0].payload)
      case None => GivenUp(st)
      case Some(next) => Play(act, k + 1, next, ps[1..])
  }

  function SerialiseAll(ps: seq<Packet>): Bytes
  {
    if ps == [] then [] else Serialise(ps[0]) + SerialiseAll(ps[1..])
  }

  /** The base header says how long the packet is and of what kind. */
  lemma HeaderOfPacket(p: Packet, rest: Bytes)
    requires Encodable(p)
    ensures var s := Serialise(p) + rest;
      && |s| >= BASE_HEADER
      && BigEndian.Decode(s[..4]) == |p.payload| && KindOf(s) == p.kind && s[BASE_HEADER..] == p.payload + rest
  {
    var s := Serialise(p) + rest;
    assert BigEndian.Limit(4) == 0x1_0000_0000 && BigEndian.Limit(2) == 0x1_0000;
    BigEndian.DecodeEncode(|p.payload|, 4);
    BigEndian.DecodeEncode(p.kind, 2);
    assert s[..4] == BigEndian.Encode(|p.payload|, 4);
    assert s[4..6] == BigEndian.Encode(p.kind, 2);
    assert s[BASE_HEADER..] == p.payload + rest;
  }

  /** One turn of the loop on a packet that is there completely. */
  lemma LoopTurn(act: Action, k: nat, st: State, input: Bytes, payload: Bytes, rest: Bytes)
    requires |input| >= BASE_HEADER && BigEndian.Decode(input[..4]) == |payload|
    requires input[BASE_HEADER..] == payload + rest
    ensures Loop(act, k, st, input) ==
      match act.whole(k, st, KindOf(input), payload)
      case None => st
      case Some(next) => Loop(act, k + 1, next, rest)
  {
    assert input[BASE_HEADER..][..|payload|] == payload;
    assert input[BASE_HEADER..][|payload|..] == rest;
  }

  lemma LoopPacket(act: Action, k: nat, st: State, p: Packet, rest: Bytes)
    requires Encodable(p)
    ensures Loop(act, k, st, Serialise(p) + rest) ==
      match act.whole(k, st, p.kind, p.payload)
      case None => st
      case Some(next) => Loop(act, k + 1, next, rest)
  {
    HeaderOfPacket(p, rest);
    LoopTurn(act, k, st, Serialise(p) + rest, p.payload, rest);
  }

  lemma SerialiseFirst(ps: seq<Packet>, rest: Bytes)
    requires ps != []
    ensures SerialiseAll(ps) + rest == Serialise(ps[0]) + (SerialiseAll(ps[1..]) + rest)
  {}

  lemma LoopFirst(act: Action, k: nat, st: State, ps: seq<Packet>, rest: Bytes)
    requires ps != [] && Encodable(ps[0])
    ensures Loop(act, k, st, SerialiseAll(ps) + rest) ==
      match act.whole(k, st, ps[0].kind, ps[0].payload)
      case None => st
      case Some(next) => Loop(act, k + 1, next, SerialiseAll(ps[1..]) + rest)
  {
    SerialiseFirst(ps, rest);
    LoopPacket(act, k, st, ps[0], SerialiseAll(ps[1..]) + rest);
  }

  /**
   * Every packet that does not end the connection consumes exactly its own bytes, so the stream stays aligned:
   * a serialised list of packets has the effect of the packets, whatever follows and whatever each of them does.
   */
  lemma {:induction false} StreamAlignment(act: Action, k: nat, st: State, ps: seq<Packet>, rest: Bytes)
    requires forall p <- ps :: Encodable(p)
    ensures Loop(act, k, st, SerialiseAll(ps) + rest) ==
      var o := Play(act, k, st, ps);
      if o.GivenUp? then o.state else Loop(act, o.next, o.state, rest)
    decreases |ps|
  {
    if ps == [] {
      assert SerialiseAll(ps) + rest == rest;
    } else {
      assert Encodable(ps[0]);
      LoopFirst(act, k, st, ps, rest);
      match act.whole(k, st, ps[0].kind, ps[0].payload)
      case None =>
      case Some(next) => StreamAlignment(act, k + 1, next, ps[1..], rest);
    }
  }

  // ----- what the callback sees -----

  datatype Picture = Picture(data: Bytes, ts: nat)

  /** The pictures that can be shown: whole, non-empty, at most 8 MiB, and plain or decryptable with this key. */
  function Deliverable(cipher: Cipher, p: Packet): seq<Picture>
  {
    if IsVideo(p.kind) && TIMESTAMP < |p.payload| <= TIMESTAMP + MAX_FRAME
       && Reveal(cipher, p.kind, p.payload[TIMESTAMP..]).Some?
    then [Picture(Reveal(cipher, p.kind, p.payload[TIMESTAMP..]).value, BigEndian.Decode(p.payload[..TIMESTAMP]))]
    else []
  }

  /** The packets before the first video packet too short for its timestamp. */
  function BeforeShortVideo(ps: seq<Packet>): seq<Packet>
  {
    if ps == [] || (IsVideo(ps[0].kind) && |ps[0].payload| < TIMESTAMP) then []
    else [ps[0]] + BeforeShortVideo(ps[1..])
  }

  /** Each packet looked at with the keys of its own moment. */
  function DeliverableAll(keys: Keys, k: nat, ps: seq<Packet>): seq<Picture>
    decreases |ps|
  {
    if ps == [] then [] else Deliverable(keys(k), ps[0]) + DeliverableAll(keys, k + 1, ps[1..])
  }

  function Pictures(frames: seq<Frame>): seq<Picture>
  {
    if frames == [] then [] else [Picture(frames[0].data, frames[0].ts)] + Pictures(frames[1..])
  }

  lemma {:induction false} PicturesAppend(a: seq<Frame>, b: seq<Frame>)
    ensures Pictures(a + b) == Pictures(a) + Pictures(b)
    decreases |a|
  {
    if a == [] {
      assert a + b == b;
    } else {
      assert (a + b)[1..] == a[1..] + b;
      PicturesAppend(a[1..], b);
    }
  }

  lemma StepShows(cipher: Cipher, st: State, p: Packet)
    requires Step(cipher, st, p.kind, p.payload).Some?
    ensures Pictures(Step(cipher, st, p.kind, p.payload).value.shown) == Pictures(st.shown) + Deliverable(cipher, p)
  {
    var next := Step(cipher, st, p.kind, p.payload).value;
    if Deliverable(cipher, p) == [] {
      assert next.shown == st.shown;
      assert Pictures(st.shown) + [] == Pictures(st.shown);
    } else {
      var f := next.shown[|st.shown|];
      assert next.shown == st.shown + [f];
      PicturesAppend(st.shown, [f]);
      assert Pictures([f]) == [Picture(f.data, f.ts)] + [];
    }
  }

  lemma Associate(a: seq<Picture>, b: seq<Picture>, c: seq<Picture>)
    ensures a + b + c == a + (b + c)
  {}

  lemma {:induction false} PlayShows(keys: Keys, k: nat, st: State, ps: seq<Packet>)
    ensures Pictures(Play(Handling(keys), k, st, ps).state.shown)
         == Pictures(st.shown) + DeliverableAll(keys, k, BeforeShortVideo(ps))
    decreases |ps|
  {
    if ps == [] || Step(keys(k), st, ps[0].kind, ps[0].payload).None? {
      assert Pictures(st.shown) + [] == Pictures(st.shown);
    } else {
      var next := Step(keys(k), st, ps[0].kind, ps[0].payload).value;
      var later := BeforeShortVideo(ps[1..]);
      StepShows(keys(k), st, ps[0]);
      PlayShows(keys, k + 1, next, ps[1..]);
      assert BeforeShortVideo(ps)[1..] == later;
      Associate(Pictures(st.shown), Deliverable(keys(k), ps[0]), DeliverableAll(keys, k + 1, later));
    }
  }

  /** A stream that ends inside a packet shows nothing of it. */
  lemma CutPacketShowsNothing(keys: Keys, k: nat, st: State, p: Packet, cut: nat)
    requires Encodable(p) && cut < |Serialise(p)|
    ensures Loop(Handling(keys), k, st, Serialise(p)[..cut]).shown == st.shown
  {
    if cut >= BASE_HEADER {
      var s := Serialise(p)[..cut];
      assert BigEndian.Limit(4) == 0x1_0000_0000;
      BigEndian.DecodeEncode(|p.payload|, 4);
      assert s[..4] == BigEndian.Encode(|p.payload|, 4);
    }
  }

  lemma HeaderOfCut(p: Packet, cut: nat)
    requires Encodable(p) && 8 <= cut < |Serialise(p)|
    ensures var s := Serialise(p)[..cut];
      BigEndian.Decode(s[..4]) == |p.payload| && KindOf(s) == p.kind && |s[8..]| == cut - 8
  {
    HeaderOfPacket(p, []);
    assert Serialise(p) + [] == Serialise(p);
    assert Serialise(p)[..cut][..4] == Serialise(p)[..4] && Serialise(p)[..cut][4..6] == Serialise(p)[4..6];
  }

  lemma LoopCut(act: Action, k: nat, st: State, s: Bytes, len: nat)
    requires |s| >= 8 && BigEndian.Decode(s[..4]) == len && |s[8..]| < len
    ensures Loop(act, k, st, s) == act.cut(st, KindOf(s), len, |s[8..]|)
  {}

  lemma CutShortBuffer(st: State, kind: u16, len: nat, have: nat)
    requires 8 < len <= 8 + 0x80_0000
    ensures CutShort(st, kind, len, have).cap
         == if (kind == 0 || kind == 1) && have >= 8 then Grow(st.cap, len - 8) else st.cap
  {}

  /** A stream that breaks off inside a video packet has grown the buffer if the timestamp was there. */
  lemma CutPacketBuffer(keys: Keys, k: nat, st: State, p: Packet, cut: nat)
    requires Encodable(p) && cut < |Serialise(p)| && 8 < |p.payload| <= 8 + 0x80_0000
    ensures Loop(Handling(keys), k, st, Serialise(p)[..cut]).cap
         == if (p.kind == 0 || p.kind == 1) && cut >= 16 then Grow(st.cap, |p.payload| - 8) else st.cap
  {
    if cut >= BASE_HEADER {
      HeaderOfCut(p, cut);
      LoopCut(Handling(keys), k, st, Serialise(p)[..cut], |p.payload|);
      CutShortBuffer(st, p.kind, |p.payload|, cut - 8);
    }
  }

  lemma ShownIsPlayed(keys: Keys, st: State, ps: seq<Packet>, last: Packet, cut: nat)
    requires (forall p <- ps :: Encodable(p)) && Encodable(last) && cut < |Serialise(last)|
    ensures Run(keys, st, SerialiseAll(ps) + Serialise(last)[..cut]).shown
         == Play(Handling(keys), 0, st, ps).state.shown
  {
    var o := Play(Handling(keys), 0, st, ps);
    StreamAlignment(Handling(keys), 0, st, ps, Serialise(last)[..cut]);
    if o.Open? { CutPacketShowsNothing(keys, o.next, o.state, last, cut); }
  }

  /**
   * For every list of packets, and a stream that may break off inside one more, the callback sees exactly the
   * pictures deliverable with the keys of their own moment, before the first short video packet, in order and
   * with their timestamps.
   */
  lemma CallbackSees(keys: Keys, st: State, ps: seq<Packet>, last: Packet, cut: nat)
    requires (forall p <- ps :: Encodable(p)) && Encodable(last) && cut < |Serialise(last)|
    ensures Pictures(Run(keys, st, SerialiseAll(ps) + Serialise(last)[..cut]).shown)
         == Pictures(st.shown) + DeliverableAll(keys, 0, BeforeShortVideo(ps))
  {
    ShownIsPlayed(keys, st, ps, last, cut);
    PlayShows(keys, 0, st, ps);
  }

  // ----- a key that arrives in mid-stream -----

  /** No keys for the first n packets, these from then on. */
  function KeyFrom(n: nat, key: Bytes -> Option<Bytes>): Keys
  {
    k => if k < n then None else Some(key)
  }

  predicate IsPlain(p: Packet) { p.kind != VIDEO_FAIRPLAY }

  function PlainOnly(ps: seq<Packet>): seq<Packet>
  {
    if ps == [] then [] else (if IsPlain(ps[0]) then [ps[0]] else []) + PlainOnly(ps[1..])
  }

  /** The pictures of packets that are all looked at with one key. */
  function DeliverableWith(cipher: Cipher, ps: seq<Packet>): seq<Picture>
  {
    if ps == [] then [] else Deliverable(cipher, ps[0]) + DeliverableWith(cipher, ps[1..])
  }

  lemma {:induction false} WithoutKey(cipher: Cipher, ps: seq<Packet>)
    ensures DeliverableWith(None, ps) == DeliverableWith(cipher, PlainOnly(ps))
  {
    if ps != [] {
      WithoutKey(cipher, ps[1..]);
      if IsPlain(ps[0]) {
        assert PlainOnly(ps)[1..] == PlainOnly(ps[1..]);
      } else {
        assert [] + PlainOnly(ps[1..]) == PlainOnly(ps[1..]);
        assert [] + DeliverableWith(None, ps[1..]) == DeliverableWith(None, ps[1..]);
      }
    }
  }

  lemma {:induction false} OnceKeyed(n: nat, key: Bytes -> Option<Bytes>, k: nat, ps: seq<Packet>)
    requires k >= n
    ensures DeliverableAll(KeyFrom(n, key), k, ps) == DeliverableWith(Some(key), ps)
    decreases |ps|
  {
    if ps != [] { OnceKeyed(n, key, k + 1, ps[1..]); }
  }

  /** The packets before the key came, and those after. */
  lemma {:induction false} KeyArrives(
    n: nat, key: Bytes -> Option<Bytes>, k: nat, before: seq<Packet>, after: seq<Packet>)
    requires k + |before| == n
    ensures DeliverableAll(KeyFrom(n, key), k, before + after)
         == DeliverableWith(None, before) + DeliverableWith(Some(key), after)
    decreases |before|
  {
    if before == [] {
      assert before + after == after;
      OnceKeyed(n, key, k, after);
      assert [] + DeliverableWith(Some(key), after) == DeliverableWith(Some(key), after);
    } else {
      var p, rest := before[0], before[1..];
      assert (before + after)[1..] == rest + after && (before + after)[0] == p;
      KeyArrives(n, key, k + 1, rest, after);
      Associate(Deliverable(None, p), DeliverableWith(None, rest), DeliverableWith(Some(key), after));
    }
  }

  lemma {:induction false} NoneShort(ps: seq<Packet>)
    requires forall p <- ps :: IsVideo(p.kind) ==> |p.payload| >= TIMESTAMP
    ensures BeforeShortVideo(ps) == ps
  {
    if ps != [] {
      assert ps[0] in ps;
      NoneShort(ps[1..]);
    }
  }

  lemma KeyedDeliverables(key: Bytes -> Option<Bytes>, before: seq<Packet>, after: seq<Packet>)
    requires forall p <- before + after :: IsVideo(p.kind) ==> |p.payload| >= TIMESTAMP
    ensures DeliverableAll(KeyFrom(|before|, key), 0, BeforeShortVideo(before + after))
         == DeliverableWith(Some(key), PlainOnly(before)) + DeliverableWith(Some(key), after)
  {
    NoneShort(before + after);
    KeyArrives(|before|, key, 0, before, after);
    WithoutKey(Some(key), before);
  }

  /**
   * Encrypted ones only once FairPlay is set: when the key arrives between two packets, the callback sees of
   * those before it only the plain ones, and of those after it every deliverable one.
   */
  lemma EncryptedOnceKeyed(
    key: Bytes -> Option<Bytes>, st: State, before: seq<Packet>, after: seq<Packet>, last: Packet, cut: nat)
    requires (forall p <- before + after :: Encodable(p)) && Encodable(last) && cut < |Serialise(last)|
    requires forall p <- before + after :: IsVideo(p.kind) ==> |p.payload| >= TIMESTAMP
    ensures Pictures(Run(KeyFrom(|before|, key), st, SerialiseAll(before + after) + Serialise(last)[..cut]).shown)
         == Pictures(st.shown) + (DeliverableWith(Some(key), PlainOnly(before)) + DeliverableWith(Some(key), after))
  {
    CallbackSees(KeyFrom(|before|, key), st, before + after, last, cut);
    KeyedDeliverables(key, before, after);
  }

  // ----- the codec a frame is shown with -----

  /** A codec info packet of 1 to 4096 bytes; others are drained and change nothing. */
  predicate IsInfo(p: Packet) { p.kind == 2 && 1 <= |p.payload| <= 4096 }

  predicate NoInfo(ps: seq<Packet>) { forall p <- ps :: !IsInfo(p) }

  /** What the first of these frames that tells a codec tells. */
  function FirstKnown(frames: seq<Frame>): Codec
  {
    if frames == [] then Unknown
    else if DetectCodec(frames[0].data).Unknown? then FirstKnown(frames[1..])
    else DetectCodec(frames[0].data)
  }

  /** The codec that frames shown behind `before` leave, when they started with this one. */
  function Settled(codec: Codec, frames: seq<Frame>): Codec
  {
    if codec.Unknown? then FirstKnown(frames) else codec
  }

  /** Every frame carries the codec known when they started or, if none was, the first one a frame up to it told. */
  predicate Carries(codec: Codec, frames: seq<Frame>)
  {
    forall i | 0 <= i < |frames| :: frames[i].codec == Settled(codec, frames[..i + 1])
  }

  lemma {:induction false} FirstKnownAppend(a: seq<Frame>, f: Frame)
    ensures FirstKnown(a + [f]) == if FirstKnown(a).Unknown? then DetectCodec(f.data) else FirstKnown(a)
    decreases |a|
  {
    if |a| == 0 {
      assert a + [f] == [f];
      assert FirstKnown([f][1..]) == Unknown;
    } else {
      assert (a + [f])[1..] == a[1..] + [f] && (a + [f])[0] == a[0];
      FirstKnownAppend(a[1..], f);
    }
  }

  /** The frames shown since the list was `had` long, and the codec they leave. */
  predicate Since(codec: Codec, had: nat, st: State)
  {
    had <= |st.shown| && Carries(codec, st.shown[had..]) && st.codec == Settled(codec, st.shown[had..])
  }

  lemma ShowKeeps(codec: Codec, had: nat, st: State, data: Bytes, ts: nat)
    requires Since(codec, had, st)
    ensures Since(codec, had, Show(st, data, ts))
  {
    var before, next := st.shown[had..], Show(st, data, ts);
    var f := next.shown[|st.shown|];
    FirstKnownAppend(before, f);
    assert next.shown[had..] == before + [f];
    forall i | 0 <= i < |before| + 1
      ensures (before + [f])[i].codec == Settled(codec, (before + [f])[..i + 1])
    {
      if i < |before| {
        assert (before + [f])[..i + 1] == before[..i + 1];
      } else {
        assert (before + [f])[..i + 1] == before + [f];
      }
    }
  }

  lemma StepKeepsCodec(cipher: Cipher, codec: Codec, had: nat, st: State, p: Packet)
    requires Since(codec, had, st) && !IsInfo(p)
    ensures Step(cipher, st, p.kind, p.payload).Some? ==>
      Since(codec, had, Step(cipher, st, p.kind, p.payload).value)
  {
    if Deliverable(cipher, p) != [] {
      var data := p.payload[TIMESTAMP..];
      var grown := st.(cap := Grow(st.cap, |data|));
      ShowKeeps(codec, had, grown, Reveal(cipher, p.kind, data).value, BigEndian.Decode(p.payload[..TIMESTAMP]));
    }
  }

  lemma {:induction false} PlayKeepsCodec(keys: Keys, k: nat, codec: Codec, had: nat, st: State, ps: seq<Packet>)
    requires Since(codec, had, st) && NoInfo(ps)
    ensures Since(codec, had, Play(Handling(keys), k, st, ps).state)
    decreases |ps|
  {
    if |ps| > 0 {
      assert ps[0] in ps;
      StepKeepsCodec(keys(k), codec, had, st, ps[0]);
      var next := Step(keys(k), st, ps[0].kind, ps[0].payload);
      if next.Some? { PlayKeepsCodec(keys, k + 1, codec, had, next.value, ps[1..]); }
    }
  }

  /**
   * Without codec info, frames are shown with the codec known before; when none was, with the one the first frame
   * that tells one tells, from that frame on.
   */
  lemma CodecWithoutInfo(keys: Keys, k: nat, st: State, ps: seq<Packet>)
    requires NoInfo(ps)
    ensures var end := Play(Handling(keys), k, st, ps).state;
      |st.shown| <= |end.shown| && Carries(st.codec, end.shown[|st.shown|..])
  {
    assert st.shown[|st.shown|..] == [];
    PlayKeepsCodec(keys, k, st.codec, |st.shown|, st, ps);
  }

  lemma {:induction false} PlayJoins(act: Action, k: nat, st: State, a: seq<Packet>, b: seq<Packet>)
    ensures var o := Play(act, k, st, a);
      Play(act, k, st, a + b) == if o.GivenUp? then o else Play(act, o.next, o.state, b)
    decreases |a|
  {
    if |a| == 0 {
      assert a + b == b;
    } else {
      assert (a + b)[1..] == a[1..] + b && (a + b)[0] == a[0];
      match act.whole(k, st, a[0].kind, a[0].payload)
      case None =>
      case Some(next) => PlayJoins(act, k + 1, next, a[1..], b);
    }
  }

  /** A codec info packet decides the codec at once and shows nothing. */
  lemma InfoDecides(keys: Keys, k: nat, st: State, info: Packet, ps: seq<Packet>)
    requires IsInfo(info)
    ensures var told := st.(codec := DetectCodec(info.payload));
      Play(Handling(keys), k, st, [info] + ps) == Play(Handling(keys), k + 1, told, ps)
  {
    var all := [info] + ps;
    assert all[0] == info && all[1..] == ps;
    var told := st.(codec := DetectCodec(info.payload));
    assert Step(keys(k), st, info.kind, info.payload) == Some(told);
    assert Handling(keys).whole(k, st, info.kind, info.payload) == Step(keys(k), st, info.kind, info.payload);
  }

  /**
   * Whatever came before, every frame behind the last codec info is shown with the codec that info tells; when it
   * tells none, with the one the first later frame that tells one tells.
   */
  lemma CodecOfFrames(keys: Keys, k: nat, st: State, before: seq<Packet>, info: Packet, after: seq<Packet>)
    requires IsInfo(info) && NoInfo(after) && Play(Handling(keys), k, st, before).Open?
    ensures var had := |Play(Handling(keys), k, st, before).state.shown|;
      var end := Play(Handling(keys), k, st, before + ([info] + after)).state;
      had <= |end.shown| && Carries(DetectCodec(info.payload), end.shown[had..])
  {
    var o := Play(Handling(keys), k, st, before);
    PlayJoins(Handling(keys), k, st, before, [info] + after);
    InfoDecides(keys, o.next, o.state, info, after);
    CodecWithoutInfo(keys, o.next + 1, o.state.(codec := DetectCodec(info.payload)), after);
  }

  /** The same of the bytes of a connection that may break off inside one more packet. */
  lemma CodecSeen(
    keys: Keys, st: State, before: seq<Packet>, info: Packet, after: seq<Packet>, last: Packet, cut: nat)
    requires IsInfo(info) && NoInfo(after) && Play(Handling(keys), 0, st, before).Open?
    requires (forall p <- before + ([info] + after) :: Encodable(p)) && Encodable(last) && cut < |Serialise(last)|
    ensures var had := |Play(Handling(keys), 0, st, before).state.shown|;
      var shown := Run(keys, st, SerialiseAll(before + ([info] + after)) + Serialise(last)[..cut]).shown;
      had <= |shown| && Carries(DetectCodec(info.payload), shown[had..])
  {
    CodecOfFrames(keys, 0, st, before, info, after);
    ShownIsPlayed(keys, st, before + ([info] + after), last, cut);
  }

  /** Codec info 67 42 behind a start code makes the next frame H.264, although its own header 41 would say H.265. */
  lemma InfoOverFrame(keys: Keys, k: nat, st: State, ts: u64)
    ensures var code: Bytes := [0, 0, 0, 1];
      var frame := code + [0x41, 0x9A];
      var info := Packet(2, 0, code + [0x67, 0x42]);
      var video := Packet(0, 0, BigEndian.Encode(ts, 8) + frame);
      && DetectCodec(frame) == H265
      && Play(Handling(keys), k, st, [info] + [video]).state.shown == st.shown + [Frame(frame, ts, H264)]
  {
    var code: Bytes := [0, 0, 0, 1];
    var frame := code + [0x41, 0x9A];
    var info, video := Packet(2, 0, code + [0x67, 0x42]), Packet(0, 0, BigEndian.Encode(ts, 8) + frame);
    var told := st.(codec := H264);
    CodecOfFirstUnit(true, 2, 1, [0x9A]);
    CodecOfFirstUnit(true, 3, 7, [0x42]);
    assert code + [0x41] + [0x9A] == frame && code + [0x67] + [0x42] == info.payload;
    InfoDecides(keys, k, st, info, [video]);
    PlainShown(keys(k + 1), told, frame, ts);
    assert [video][1..] == [];
  }

  lemma PlainShown(cipher: Cipher, st: State, frame: Bytes, ts: u64)
    requires 1 <= |frame| <= MAX_FRAME && !st.codec.Unknown?
    ensures Step(cipher, st, 0, BigEndian.Encode(ts, 8) + frame)
         == Some(st.(cap := Grow(st.cap, |frame|), shown := st.shown + [Frame(frame, ts, st.codec)]))
  {
    var payload := BigEndian.Encode(ts, 8) + frame;
    assert BigEndian.Limit(4) == 0x1_0000_0000;
    assert BigEndian.Limit(8) == TWO64;
    BigEndian.DecodeEncode(ts, 8);
    assert payload[TIMESTAMP..] == frame && payload[..TIMESTAMP] == BigEndian.Encode(ts, 8);
  }

  // ----- the buffer over a whole connection -----

  /** The buffer has room for every frame that is read into it. */
  lemma FrameFits(cipher: Cipher, st: State, p: Packet)
    requires IsVideo(p.kind) && TIMESTAMP < |p.payload| <= TIMESTAMP + MAX_FRAME
    ensures var next := Step(cipher, st, p.kind, p.payload);
      next.Some? && next.value.cap >= |p.payload| - TIMESTAMP && next.value.cap >= st.cap
  {
    DoubleReaches(st.cap, |p.payload| - TIMESTAMP);
  }

  lemma DoubleReaches(cap: nat, needed: nat)
    ensures Grow(cap, needed) >= needed && Grow(cap, needed) >= cap
  {}

  /** Codec info that is empty or too long, heartbeats and unknown kinds change nothing. */
  lemma OthersChangeNothing(cipher: Cipher, st: State, p: Packet)
    requires p.kind != 0 && p.kind != 1 && !IsInfo(p)
    ensures Step(cipher, st, p.kind, p.payload) == Some(st)
  {}

  lemma StepKeepsCapacity(cipher: Cipher, st: State, kind: u16, payload: Bytes)
    requires Capacity(st.cap)
    ensures Step(cipher, st, kind, payload).Some? ==> Capacity(Step(cipher, st, kind, payload).value.cap)
  {
    if IsVideo(kind) && TIMESTAMP < |payload| <= TIMESTAMP + MAX_FRAME {
      GrowStaysCapacity(st.cap, |payload| - TIMESTAMP);
    }
  }

  lemma {:induction false} LoopKeepsCapacity(keys: Keys, k: nat, st: State, input: Bytes)
    requires Capacity(st.cap)
    ensures Capacity(Loop(Handling(keys), k, st, input).cap)
    decreases |input|
  {
    if |input| >= BASE_HEADER {
      var len, kind, rest := BigEndian.Decode(input[..4]), KindOf(input), input[BASE_HEADER..];
      if |rest| < len {
        if IsVideo(kind) && TIMESTAMP < len <= TIMESTAMP + MAX_FRAME { GrowStaysCapacity(st.cap, len - TIMESTAMP); }
      } else {
        StepKeepsCapacity(keys(k), st, kind, rest[..len]);
        var next := Step(keys(k), st, kind, rest[..len]);
        if next.Some? { LoopKeepsCapacity(keys, k + 1, next.value, rest[len..]); }
      }
    }
  }

  /** Whatever bytes arrive, the buffer stays unallocated or a power of two from 2^16 to 2^23. */
  lemma RunKeepsCapacity(keys: Keys, st: State, input: Bytes)
    requires Capacity(st.cap)
    ensures Capacity(Run(keys, st, input).cap)
  {
    LoopKeepsCapacity(keys, 0, st, input);
  }

  // ----- the connection -----

  class Connection {
    const keys: Keys
    /** What the socket will still deliver. */
    var input: Bytes
    var frameBuf: array<byte>
    var codec: Codec
    var shown: seq<Frame>

    function View(): State
      reads this
    {
      State(codec, frameBuf.Length, shown)
    }

    constructor (keys: Keys, stream: Bytes)
      ensures View() == State(Unknown, 0, []) && this.keys == keys && input == stream
    {
      this.keys, input, codec, shown := keys, stream, Unknown, [];
      frameBuf := new byte[0];
    }

    /** read_exact: all n bytes, or the end of the connection. */
    method ReadExact(n: nat) returns (r: Option<Bytes>)
      modifies this`input
      ensures r.Some? <==> n <= |old(input)|
      ensures r.Some? ==> r.value == old(input)[..n] && input == old(input)[n..]
    {
      if |input| < n {
        input := [];
        return None;
      }
      r := Some(input[..n]);
      input := input[n..];
    }

    /** The draining loops, which read through a small scratch buffer. */
    method Discard(n: nat, scratch: nat) returns (ok: bool)
      requires scratch > 0
      modifies this`input
      ensures ok <==> n <= |old(input)|
      ensures ok ==> input == old(input)[n..]
    {
      var left: nat := n;
      while left > 0
        invariant left <= n && n - left <= |old(input)| && input == old(input)[n - left..]
      {
        var chunk := if left < scratch then left else scratch;
        var got := ReadExact(chunk);
        if got == None {
          return false;
        }
        left := left - chunk;
      }
      return true;
    }

    /** frame_buf_ensure. */
    method Ensure(needed: nat) returns (ok: bool)
      modifies this`frameBuf
      ensures ok <==> needed <= MAX_FRAME
      ensures View() == old(View()).(cap := if ok then Grow(old(frameBuf.Length), needed) else old(frameBuf.Length))
    {
      if needed > MAX_FRAME {
        return false;
      }
      if frameBuf.Length >= needed {
        return true;
      }
      var cap := if frameBuf.Length > 0 then frameBuf.Length else FIRST_CAPACITY;
      while cap < needed
        invariant cap > 0 && Double(cap, needed) == Grow(frameBuf.Length, needed)
        decreases needed - cap
      {
        cap := cap * 2;
      }
      frameBuf := new byte[cap];
      return true;
    }

    /** A video packet behind its base header, with the keys in force; false when the connection ends. */
    method Video(cipher: Cipher, kind: u16, len: nat) returns (open: bool)
      requires IsVideo(kind)
      modifies this`input, this`frameBuf, this`codec, this`shown
      ensures if len <= |old(input)|
        then
          var next := Step(cipher, old(View()), kind, old(input)[..len]);
          (open <==> next.Some?) && View() == (if next.Some? then next.value else old(View()))
          && (open ==> input == old(input)[len..])
        else !open && View() == CutShort(old(View()), kind, len, |old(input)|)
    {
      if len < TIMESTAMP {
        return false;
      }
      var stamp := ReadExact(TIMESTAMP);
      if stamp == None {
        return false;
      }
      var ts := BigEndian.Decode(stamp.value);
      var dataLen := len - TIMESTAMP;
      if dataLen == 0 {
        return true;
      }
      var fits := Ensure(dataLen);
      if !fits {
        open := Discard(dataLen, 512);
        return;
      }
      var data := ReadExact(dataLen);
      if data == None {
        return false;
      }
      assert old(input)[..len][TIMESTAMP..] == data.value && old(input)[..len][..TIMESTAMP] == stamp.value;
      var plain := Reveal(cipher, kind, data.value);
      if plain.Some? {
        if codec.Unknown? {
          codec := DetectCodec(plain.value);
        }
        shown := shown + [Frame(plain.value, ts, codec)];
      }
      return true;
    }

    /** The body of the loop's switch for a packet that is not video; false when the connection ends. */
    method Other(ghost cipher: Cipher, kind: u16, len: nat) returns (open: bool)
      requires !IsVideo(kind)
      modifies this`input, this`codec
      ensures open <==> len <= |old(input)|
      ensures open ==> input == old(input)[len..]
      ensures open ==> Some(View()) == Step(cipher, old(View()), kind, old(input)[..len])
      ensures !open ==> View() == old(View())
    {
      if kind == CODEC_INFO && 0 < len <= CODEC_INFO_SIZE {
        var info := ReadExact(len);
        if info == None {
          return false;
        }
        codec := DetectCodec(info.value);
        return true;
      }
      var scratch := if kind == HEARTBEAT then 64 else if kind == CODEC_INFO then 256 else 512;
      open := Discard(len, scratch);
    }

    /** airplay_mirror_handle_connection. */
    method Handle()
      modifies this
      ensures View() == Run(keys, old(View()), old(input))
    {
      ghost var goal := Run(keys, View(), input);
      var k: nat := 0;
      while true
        invariant Loop(Handling(keys), k, View(), input) == goal
        decreases |input|
      {
        ghost var before, stream := View(), input;
        var hdr := ReadExact(BASE_HEADER);
        if hdr == None {
          return;
        }
        assert hdr.value[..4] == stream[..4] && hdr.value[4..6] == stream[4..6];
        LoopStep(keys, k, before, stream);
        var len, kind := BigEndian.Decode(hdr.value[..4]), KindOf(hdr.value);
        var open: bool;
        if IsVideo(kind) {
          open := Video(keys(k), kind, len);
        } else {
          open := Other(keys(k), kind, len);
        }
        if !open {
          return;
        }
        k := k + 1;
      }
    }
  }
}
