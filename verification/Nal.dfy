/** Finding NAL units in an Annex B stream: radxa/compositor/src/nal_detect.c. */
module Nal {
  import opened Prelude

  datatype Codec = H264 | H265

  // ----- start codes -----

  predicate TripletAt(s: Bytes, i: nat) { i + 3 <= |s| && s[i] == 0x00 && s[i + 1] == 0x00 && s[i + 2] == 0x01 }

  /** Where the first 00 00 01 at position i or later stands. */
  function TripletFrom(s: Bytes, i: nat): (r: Option<nat>)
    ensures r.Some? ==> i <= r.value <= |s| - 3
    decreases |s| - i
  {
    if i + 3 > |s| then None
    else if TripletAt(s, i) then Some(i)
    else TripletFrom(s, i + 1)
  }

  function FirstTriplet(s: Bytes): Option<nat> { TripletFrom(s, 0) }

  function Later(r: Option<nat>, n: nat): Option<nat>
  {
    match r
    case None => None
    case Some(i) => Some(i + n)
  }

  /** What stands before a position does not matter behind it. */
  lemma {:induction false} TripletBehind(s: Bytes, k: nat, t: Bytes, i: nat)
    requires k <= |s| && t == s[k..]
    ensures TripletFrom(s, k + i) == Later(TripletFrom(t, i), k)
    decreases |t| - i
  {
    if i + 3 <= |t| {
      assert t[i] == s[k + i] && t[i + 1] == s[k + i + 1] && t[i + 2] == s[k + i + 2];
      TripletBehind(s, k, t, i + 1);
    }
  }

  /** nal_find_start_code: length 0 when there is none; a zero byte in front makes a 3-byte code a 4-byte one. */
  method FindStartCode(data: Bytes) returns (scLen: nat, offset: nat)
    ensures match FirstTriplet(data)
            case None => scLen == 0
            case Some(i) =>
              if i > 0 && data[i - 1] == 0 then scLen == 4 && offset == i - 1 else scLen == 3 && offset == i
  {
    scLen, offset := 0, 0;
    if |data| < 3 {
      return;
    }
    var i: nat := 0;
    while i + 2 < |data|
      invariant i + 2 <= |data| && FirstTriplet(data) == TripletFrom(data, i)
    {
      if data[i] == 0x00 && data[i + 1] == 0x00 && data[i + 2] == 0x01 {
        if i >= 1 && data[i - 1] == 0x00 {
          return 4, i - 1;
        }
        return 3, i;
      }
      i := i + 1;
    }
  }

  // ----- the scan -----

  /** A byte the scan takes for a NAL header, and how many bytes of the stream stand behind it. */
  datatype Header = Header(value: byte, behind: nat)

  /** The headers visited from a position on. */
  function VisitFrom(data: Bytes, pos: nat): seq<Header>
    decreases |data| - pos
  {
    match TripletFrom(data, pos)
    case None => []
    case Some(i) =>
      if i + 3 >= |data| then [] else [Header(data[i + 3], |data| - i - 4)] + VisitFrom(data, i + 4)
  }

  function Visit(s: Bytes): seq<Header> { VisitFrom(s, 0) }

  lemma {:induction false} VisitBehindPos(s: Bytes, k: nat, t: Bytes, i: nat)
    requires k <= |s| && t == s[k..]
    ensures VisitFrom(s, k + i) == VisitFrom(t, i)
    decreases |t| - i
  {
    TripletBehind(s, k, t, i);
    var first := TripletFrom(t, i);
    if first.Some? && first.value + 3 < |t| {
      var next := first.value + 4;
      VisitBehindPos(s, k, t, next);
      assert t[next - 1] == s[k + next - 1];
      VisitNext(t, i, next);
      VisitNext(s, k + i, k + next);
    }
  }

  lemma VisitNext(s: Bytes, i: nat, next: nat)
    requires TripletFrom(s, i) == Some(next - 4) && 4 <= next <= |s|
    ensures VisitFrom(s, i) == [Header(s[next - 1], |s| - next)] + VisitFrom(s, next)
  {}

  /** Visit, one header at a time. */
  lemma VisitStarts(s: Bytes)
    ensures Visit(s) ==
      match FirstTriplet(s)
      case None => []
      case Some(i) => if i + 3 >= |s| then [] else [Header(s[i + 3], |s| - i - 4)] + Visit(s[i + 4..])
  {
    var first := FirstTriplet(s);
    if first.Some? && first.value + 3 < |s| {
      VisitBehindPos(s, first.value + 4, s[first.value + 4..], 0);
    }
  }

  // ----- Annex B streams -----

  /** A NAL unit: whether its start code has four bytes, its header and what follows it. */
  datatype Unit = Unit(long: bool, header: byte, tail: Bytes)

  function StartCode(u: Unit): (r: Bytes)
    ensures |r| == if u.long then 4 else 3
  {
    if u.long then [0x00, 0x00, 0x00, 0x01] else [0x00, 0x00, 0x01]
  }

  function Stream(units: seq<Unit>): Bytes
  {
    if units == [] then []
    else StartCode(units[0]) + ([units[0].header] + (units[0].tail + Stream(units[1..])))
  }

  /** The headers of the units; what stands behind a header tells its position. */
  function HeadersOf(units: seq<Unit>): seq<Header>
  {
    if units == [] then []
    else [Header(units[0].header, |units[0].tail| + |Stream(units[1..])|)] + HeadersOf(units[1..])
  }

  /** No start code is spelled behind a unit's header, except that the stream may end in one. */
  predicate QuietTail(tail: Bytes, isLast: bool)
  {
    match FirstTriplet(tail)
    case None => true
    case Some(i) => isLast && i + 3 == |tail|
  }

  predicate Quiet(units: seq<Unit>)
  {
    units == [] || (QuietTail(units[0].tail, |units| == 1) && Quiet(units[1..]))
  }

  lemma {:induction false} TripletInTail(tail: Bytes, rest: Bytes, i: nat)
    requires TripletFrom(tail, i).Some?
    ensures TripletFrom(tail + rest, i) == TripletFrom(tail, i)
    decreases |tail| - i
  {
    if !TripletAt(tail, i) { TripletInTail(tail, rest, i + 1); }
  }

  lemma TripletInCode(u: Unit, rest: Bytes)
    ensures FirstTriplet(StartCode(u) + rest) == Some(|StartCode(u)| - 3)
  {
    var s := StartCode(u) + rest;
    if u.long {
      assert TripletAt(s, 1) && !TripletAt(s, 0);
      assert TripletFrom(s, 1) == Some(1);
    } else {
      assert TripletAt(s, 0);
    }
  }

  /** The next start code is found where it is, even behind trailing zeros. */
  lemma {:induction false} TripletBehindTail(tail: Bytes, u: Unit, rest: Bytes, i: nat)
    requires i <= |tail| && TripletFrom(tail, i) == None
    ensures TripletFrom(tail + (StartCode(u) + rest), i) == Some(|tail| + |StartCode(u)| - 3)
    decreases |tail| - i
  {
    var code := StartCode(u) + rest;
    var s := tail + code;
    if i == |tail| {
      assert s[i..] == code;
      TripletBehind(s, i, code, 0);
      TripletInCode(u, rest);
    } else {
      assert s[|tail|] == 0 && s[|tail| + 1] == 0;
      TripletBehindTail(tail, u, rest, i + 1);
      assert !TripletAt(s, i);
    }
  }

  /** A tail that spells a start code makes the scan visit something that is not the next unit's header. */
  lemma LoudTail(tail: Bytes, rest: seq<Unit>)
    requires FirstTriplet(tail).Some?
    ensures Visit(tail + Stream(rest)) == HeadersOf(rest) <==> QuietTail(tail, rest == [])
  {
    TripletInTail(tail, Stream(rest), 0);
    VisitStarts(tail + Stream(rest));
    if rest == [] {
      assert tail + Stream(rest) == tail;
    } else {
      assert HeadersOf(rest)[0].behind < |Stream(rest)| - 1;
      assert Visit(tail + Stream(rest))[0].behind >= |Stream(rest)| - 1;
    }
  }

  lemma Layout(tail: Bytes, code: Bytes, header: byte, after: Bytes)
    ensures var s, n := tail + (code + ([header] + after)), |tail| + |code|;
      |s| == n + 1 + |after| && s[n] == header && s[n + 1..] == after
  {}

  /** Behind a quiet tail the scan reaches the next header and goes on behind it. */
  lemma VisitBehind(tail: Bytes, u: Unit, after: Bytes)
    requires FirstTriplet(tail) == None
    ensures Visit(tail + (StartCode(u) + ([u.header] + after))) == [Header(u.header, |after|)] + Visit(after)
  {
    TripletBehindTail(tail, u, [u.header] + after, 0);
    VisitStarts(tail + (StartCode(u) + ([u.header] + after)));
    Layout(tail, StartCode(u), u.header, after);
  }

  lemma HeadEquality(x: seq<Header>, y: seq<Header>, h: Header, a: seq<Header>, b: seq<Header>)
    requires x == [h] + a && y == [h] + b
    ensures x == y <==> a == b
  {
    assert x[1..] == a && y[1..] == b;
  }

  lemma HeadersCons(rest: seq<Unit>)
    requires rest != []
    ensures var after := rest[0].tail + Stream(rest[1..]);
      HeadersOf(rest) == [Header(rest[0].header, |after|)] + HeadersOf(rest[1..])
  {}

  lemma VisitCons(tail: Bytes, rest: seq<Unit>)
    requires FirstTriplet(tail) == None && rest != []
    ensures var after := rest[0].tail + Stream(rest[1..]);
      Visit(tail + Stream(rest)) == [Header(rest[0].header, |after|)] + Visit(after)
  {
    VisitBehind(tail, rest[0], rest[0].tail + Stream(rest[1..]));
  }

  lemma SilentTail(tail: Bytes, rest: seq<Unit>)
    requires FirstTriplet(tail) == None && rest != []
    ensures Visit(tail + Stream(rest)) == HeadersOf(rest)
        <==> Visit(rest[0].tail + Stream(rest[1..])) == HeadersOf(rest[1..])
  {
    var after := rest[0].tail + Stream(rest[1..]);
    VisitCons(tail, rest);
    HeadersCons(rest);
    HeadEquality(Visit(tail + Stream(rest)), HeadersOf(rest), Header(rest[0].header, |after|),
                 Visit(after), HeadersOf(rest[1..]));
  }

  /** The scan from behind a header whose unit ends with `tail`. */
  lemma {:induction false} VisitTail(tail: Bytes, rest: seq<Unit>)
    ensures Visit(tail + Stream(rest)) == HeadersOf(rest)
        <==> QuietTail(tail, rest == []) && (FirstTriplet(tail).Some? || Quiet(rest))
    decreases |rest|
  {
    if FirstTriplet(tail).Some? {
      LoudTail(tail, rest);
    } else if rest == [] {
      assert tail + Stream(rest) == tail;
      VisitStarts(tail);
    } else {
      SilentTail(tail, rest);
      VisitTail(rest[0].tail, rest[1..]);
      QuietCons(rest);
    }
  }

  lemma QuietCons(units: seq<Unit>)
    requires units != []
    ensures Quiet(units) <==>
      QuietTail(units[0].tail, units[1..] == []) && (FirstTriplet(units[0].tail).Some? || Quiet(units[1..]))
  {}

  /**
   * For every list of units under any mix of 3- and 4-byte start codes, the scan visits exactly the unit
   * headers, in order, if and only if no start code is spelled inside a unit behind its header.
   */
  lemma ScanVisitsUnits(units: seq<Unit>)
    ensures Visit(Stream(units)) == HeadersOf(units) <==> Quiet(units)
  {
    VisitTail([], units);
    assert [] + Stream(units) == Stream(units);
  }

  // ----- keyframes -----

  predicate IsIdr(header: byte, codec: Codec)
  {
    if codec.H264? then header % 32 == 5 else header / 2 % 64 == 19 || header / 2 % 64 == 20
  }

  /** The header bytes of IDR pictures: H.264 type 5 under every nal_ref_idc, H.265 types 19 and 20. */
  lemma IdrHeaders(header: byte)
    ensures IsIdr(header, H264) <==> header in {0x05, 0x25, 0x45, 0x65, 0x85, 0xA5, 0xC5, 0xE5}
    ensures IsIdr(header, H265) <==> header in {0x26, 0x27, 0x28, 0x29, 0xA6, 0xA7, 0xA8, 0xA9}
  {}

  predicate AnyIdr(hs: seq<Header>, codec: Codec)
  {
    hs != [] && (IsIdr(hs[0].value, codec) || AnyIdr(hs[1..], codec))
  }

  /** The next header the loops below look at, and where they go on. */
  method NextHeader(data: Bytes, pos: nat) returns (found: bool, nal: nat)
    requires pos <= |data|
    ensures !found ==> VisitFrom(data, pos) == []
    ensures found ==> pos <= nal < |data|
    ensures found ==>
      VisitFrom(data, pos) == [Header(data[nal], |data| - nal - 1)] + VisitFrom(data, nal + 1)
  {
    var scLen, offset := FindStartCode(data[pos..]);
    TripletBehind(data, pos, data[pos..], 0);
    nal := pos + offset + scLen;
    found := scLen != 0 && nal < |data|;
  }

  /** nal_is_keyframe. */
  method IsKeyframe(data: Bytes, codec: Codec) returns (r: int)
    ensures r == if |data| < 4 then -1 else if AnyIdr(Visit(data), codec) then 1 else 0
  {
    if |data| < 4 {
      return -1;
    }
    var pos: nat := 0;
    while pos < |data|
      invariant pos <= |data| && AnyIdr(Visit(data), codec) == AnyIdr(VisitFrom(data, pos), codec)
      decreases |data| - pos
    {
      var found, nal := NextHeader(data, pos);
      if !found {
        break;
      }
      if IsIdr(data[nal], codec) {
        return 1;
      }
      pos := nal + 1;
    }
    return 0;
  }

  lemma {:induction false} AnyIdrOfUnits(units: seq<Unit>, codec: Codec)
    ensures AnyIdr(HeadersOf(units), codec) <==> exists i :: 0 <= i < |units| && IsIdr(units[i].header, codec)
    decreases |units|
  {
    if units != [] {
      var rest := units[1..];
      AnyIdrOfUnits(rest, codec);
      assert HeadersOf(units)[1..] == HeadersOf(rest) && HeadersOf(units)[0].value == units[0].header;
      if i :| 0 <= i < |rest| && IsIdr(rest[i].header, codec) { assert units[i + 1] == rest[i]; }
      if i :| 0 < i < |units| && IsIdr(units[i].header, codec) { assert rest[i - 1] == units[i]; }
    }
  }

  /** On a quiet stream, a keyframe is reported exactly when some unit is an IDR. */
  lemma KeyframeOfUnits(units: seq<Unit>, codec: Codec)
    requires Quiet(units)
    ensures AnyIdr(Visit(Stream(units)), codec) <==> exists i :: 0 <= i < |units| && IsIdr(units[i].header, codec)
  {
    ScanVisitsUnits(units);
    AnyIdrOfUnits(units, codec);
  }

  // ----- codec detection -----

  function Score264(h: Header): nat
  {
    var t := h.value % 32;
    if t == 7 || t == 8 then 3 else if t == 5 || t == 1 || t == 9 || t == 6 then 1 else 0
  }

  /** The H.265 type is only looked at when a second header byte follows. */
  function Score265(h: Header): nat
  {
    var t := h.value / 2 % 64;
    if h.behind == 0 then 0
    else if t == 32 || t == 33 || t == 34 then 3
    else if t == 19 || t == 20 || t == 1 || t == 35 then 1
    else 0
  }

  function Sum264(hs: seq<Header>): nat
  {
    if hs == [] then 0 else Score264(hs[0]) + Sum264(hs[1..])
  }

  function Sum265(hs: seq<Header>): nat
  {
    if hs == [] then 0 else Score265(hs[0]) + Sum265(hs[1..])
  }

  function Verdict(hs: seq<Header>): Option<Codec>
  {
    if Sum264(hs) == 0 && Sum265(hs) == 0 then None else if Sum265(hs) > Sum264(hs) then Some(H265) else Some(H264)
  }

  lemma SumsNext(h: Header, rest: seq<Header>)
    ensures Sum264([h] + rest) == Score264(h) + Sum264(rest)
    ensures Sum265([h] + rest) == Score265(h) + Sum265(rest)
  {
    assert ([h] + rest)[1..] == rest;
  }

  /** nal_detect_codec; `None` is its -1. */
  method DetectCodec(data: Bytes) returns (r: Option<Codec>)
    ensures r == if |data| < 4 then None else Verdict(Visit(data))
  {
    if |data| < 4 {
      return None;
    }
    var score264, score265 := 0, 0;
    var pos: nat := 0;
    while pos < |data|
      invariant pos <= |data|
      invariant Sum264(Visit(data)) == score264 + Sum264(VisitFrom(data, pos))
      invariant Sum265(Visit(data)) == score265 + Sum265(VisitFrom(data, pos))
      decreases |data| - pos
    {
      var found, nal := NextHeader(data, pos);
      if !found {
        break;
      }
      var h := Header(data[nal], |data| - nal - 1);
      SumsNext(h, VisitFrom(data, nal + 1));
      score264 := score264 + Score264(h);
      score265 := score265 + Score265(h);
      pos := nal + 1;
    }
    if score264 == 0 && score265 == 0 {
      return None;
    }
    return if score265 > score264 then Some(H265) else Some(H264);
  }

  /** How many units have one of these H.264 types. */
  function Count264(units: seq<Unit>, types: set<nat>): nat
  {
    if units == [] then 0
    else (if units[0].header as nat % 32 in types then 1 else 0) + Count264(units[1..], types)
  }

  /** How many units have one of these H.265 types; the very last byte of a stream is not looked at as a header. */
  function Count265(units: seq<Unit>, types: set<nat>): nat
  {
    if units == [] then 0
    else
      var seen := |units| > 1 || |units[0].tail| > 0;
      (if seen && units[0].header as nat / 2 % 64 in types then 1 else 0) + Count265(units[1..], types)
  }

  lemma {:induction false} SumsAreCounts(units: seq<Unit>)
    ensures Sum264(HeadersOf(units)) == 3 * Count264(units, {7, 8}) + Count264(units, {1, 5, 6, 9})
    ensures Sum265(HeadersOf(units)) == 3 * Count265(units, {32, 33, 34}) + Count265(units, {1, 19, 20, 35})
    decreases |units|
  {
    if units != [] {
      var rest := units[1..];
      var h := Header(units[0].header, |units[0].tail| + |Stream(rest)|);
      SumsAreCounts(rest);
      SumsNext(h, HeadersOf(rest));
      assert h.behind == 0 <==> |units[0].tail| == 0 && |rest| == 0;
    }
  }

  /**
   * On a quiet stream the verdict weighs parameter sets three times as much as the other listed types: H.265 only
   * when it has the higher score, H.264 otherwise, and none when neither scores.
   */
  lemma {:induction false} CodecOfUnits(units: seq<Unit>)
    requires Quiet(units)
    ensures var score264 := 3 * Count264(units, {7, 8}) + Count264(units, {1, 5, 6, 9});
      var score265 := 3 * Count265(units, {32, 33, 34}) + Count265(units, {1, 19, 20, 35});
      Verdict(Visit(Stream(units)))
        == if score265 > score264 then Some(H265) else if score264 > 0 then Some(H264) else None
  {
    ScanVisitsUnits(units);
    SumsAreCounts(units);
  }

  /** SPS, PPS and IDR picture of H.264, as encoders write them. */
  predicate UsualH264(header: byte) { header == 0x67 || header == 0x68 || header == 0x65 }

  /** VPS, SPS and PPS of H.265. */
  predicate UsualH265(header: byte) { header == 0x40 || header == 0x42 || header == 0x44 }

  lemma {:induction false} UsualCounts264(units: seq<Unit>)
    requires forall u <- units :: UsualH264(u.header)
    ensures Count264(units, {7, 8}) + Count264(units, {1, 5, 6, 9}) == |units|
    ensures Count265(units, {32, 33, 34}) == 0 && Count265(units, {1, 19, 20, 35}) == 0
    decreases |units|
  {
    if |units| > 0 {
      assert UsualH264(units[0].header);
      UsualCounts264(units[1..]);
    }
  }

  lemma {:induction false} UsualCounts265(units: seq<Unit>)
    requires forall u <- units :: UsualH265(u.header)
    ensures Count264(units, {7, 8}) == 0 && Count264(units, {1, 5, 6, 9}) == 0
    ensures |units| > 0 && (|units| > 1 || |units[0].tail| > 0) ==> Count265(units, {32, 33, 34}) > 0
    decreases |units|
  {
    if |units| > 0 {
      assert UsualH265(units[0].header);
      UsualCounts265(units[1..]);
    }
  }

  /** A stream of H.264 parameter sets and IDR pictures is taken for H.264. */
  lemma {:induction false} H264Stream(units: seq<Unit>)
    requires Quiet(units) && |units| > 0 && forall u <- units :: UsualH264(u.header)
    ensures Verdict(Visit(Stream(units))) == Some(H264)
  {
    CodecOfUnits(units);
    UsualCounts264(units);
  }

  /** A stream of H.265 parameter sets is taken for H.265, unless it ends with the first byte of its only one. */
  lemma {:induction false} H265Stream(units: seq<Unit>)
    requires Quiet(units) && |units| > 0 && forall u <- units :: UsualH265(u.header)
    ensures Verdict(Visit(Stream(units))) == if |units| > 1 || |units[0].tail| > 0 then Some(H265) else None
  {
    CodecOfUnits(units);
    UsualCounts265(units);
  }

  /** n more units with this header. */
  function Slices(header: byte, tail: Bytes, n: nat): (r: seq<Unit>)
    ensures |r| == n
  {
    if n == 0 then [] else [Unit(true, header, tail)] + Slices(header, tail, n - 1)
  }

  lemma {:induction false} SlicesScore(tail: Bytes, n: nat)
    requires |tail| > 0
    ensures var units := Slices(0x41, tail, n);
      && Count264(units, {7, 8}) == 0 && Count264(units, {1, 5, 6, 9}) == n
      && Count265(units, {32, 33, 34}) == n && Count265(units, {1, 19, 20, 35}) == 0
  {
    if n > 0 { SlicesScore(tail, n - 1); }
  }

  lemma {:induction false} SlicesQuiet(tail: Bytes, n: nat)
    requires FirstTriplet(tail) == None
    ensures Quiet(Slices(0x41, tail, n))
  {
    if n > 0 { SlicesQuiet(tail, n - 1); }
  }

  lemma FrontScore(u: Unit, rest: seq<Unit>)
    requires u.header in {0x67, 0x68, 0x65} && |u.tail| > 0
    ensures var units := [u] + rest;
      && Count264(units, {7, 8}) == (if u.header == 0x65 then 0 else 1) + Count264(rest, {7, 8})
      && Count264(units, {1, 5, 6, 9}) == (if u.header == 0x65 then 1 else 0) + Count264(rest, {1, 5, 6, 9})
      && Count265(units, {32, 33, 34}) == Count265(rest, {32, 33, 34})
      && Count265(units, {1, 19, 20, 35}) == Count265(rest, {1, 19, 20, 35})
  {
    assert ([u] + rest)[1..] == rest;
  }

  lemma FrontQuiet(u: Unit, rest: seq<Unit>)
    requires FirstTriplet(u.tail) == None && Quiet(rest)
    ensures Quiet([u] + rest)
  {
    assert ([u] + rest)[1..] == rest;
  }

  /**
   * Slices with header 0x41 (nal_ref_idc 2) look like H.265 parameter sets: behind one SPS, PPS and IDR picture of
   * H.264, four or more of them turn the verdict.
   */
  lemma {:induction false} SlicesTurnTheVerdict(tail: Bytes, n: nat)
    requires |tail| > 0 && FirstTriplet(tail) == None
    ensures var sps, pps, idr := Unit(true, 0x67, tail), Unit(true, 0x68, tail), Unit(true, 0x65, tail);
      Verdict(Visit(Stream([sps] + ([pps] + ([idr] + Slices(0x41, tail, n))))))
        == if n >= 4 then Some(H265) else Some(H264)
  {
    var sps, pps, idr := Unit(true, 0x67, tail), Unit(true, 0x68, tail), Unit(true, 0x65, tail);
    var slices := Slices(0x41, tail, n);
    SlicesScore(tail, n);
    SlicesQuiet(tail, n);
    FrontScore(idr, slices);
    FrontQuiet(idr, slices);
    FrontScore(pps, [idr] + slices);
    FrontQuiet(pps, [idr] + slices);
    FrontScore(sps, [pps] + ([idr] + slices));
    FrontQuiet(sps, [pps] + ([idr] + slices));
    CodecOfUnits([sps] + ([pps] + ([idr] + slices)));
  }
}
