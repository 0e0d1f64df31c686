/** Finding and rewriting the touch point inside an Android Auto input message: radxa/aa-proxy/src/mitm.rs. */
module Touch {
  import opened Prelude
  import opened Varint
  import opened Protobuf

  datatype Point = Point(x: u32, y: u32)

  predicate IsPointer(f: Field) { f.payload.Delimited? && FieldNumber(f.tag) == 3 }

  predicate IsX(f: Field) { f.payload.Number? && FieldNumber(f.tag) == 2 }

  predicate IsY(f: Field) { f.payload.Number? && FieldNumber(f.tag) == 3 }

  // ----- reading: parse_protobuf_touch -----

  function NoteX(f: Field, x: Option<u32>): Option<u32>
  {
    if IsX(f) then Some(f.payload.value % TWO32) else x
  }

  function NoteY(f: Field, y: Option<u32>): Option<u32>
  {
    if IsY(f) then Some(f.payload.value % TWO32) else y
  }

  function Both(x: Option<u32>, y: Option<u32>): Option<Point>
  {
    if x.Some? && y.Some? then Some(Point(x.value, y.value)) else None
  }

  /** The scan of a pointer sub-message, which stops as soon as it holds both coordinates. */
  function ParsePointer(s: Bytes, x: Option<u32>, y: Option<u32>): Option<Point>
    decreases |s|
  {
    if s == [] then Both(x, y)
    else match ReadField(s)
      case None => None
      case Some(f) =>
        if Both(NoteX(f, x), NoteY(f, y)).Some? then Both(NoteX(f, x), NoteY(f, y))
        else ParsePointer(Tail(s), NoteX(f, x), NoteY(f, y))
  }

  /** The body of the first pointer field the scan of the whole message reaches. */
  function FirstPointer(s: Bytes): Option<Bytes>
    decreases |s|
  {
    if s == [] || ReadField(s).None? then None
    else if IsPointer(ReadField(s).value) then Some(ReadField(s).value.payload.body)
    else FirstPointer(Tail(s))
  }

  function Parse(s: Bytes): Option<Point>
  {
    match FirstPointer(s)
    case None => None
    case Some(body) => ParsePointer(body, None, None)
  }

  // ----- rewriting: try_patch_touch_xy and rebuild_pointer_sub -----

  /** As many bytes of the original tag as its value would take when written afresh. */
  function CopiedTag(s: Bytes): Bytes
    requires ReadField(s).Some?
  {
    WriteIsShortest(s);
    s[..VarintLen(ReadField(s).value.tag)]
  }

  function RebuiltField(s: Bytes, p: Point): Bytes
    requires ReadField(s).Some?
  {
    var f := ReadField(s).value;
    if IsX(f) then CopiedTag(s) + WriteVarint(p.x)
    else if IsY(f) then CopiedTag(s) + WriteVarint(p.y)
    else Raw(f)
  }

  function RebuildPointer(s: Bytes, p: Point): Option<Bytes>
    decreases |s|
  {
    if s == [] then Some([])
    else if ReadField(s).None? then None
    else match RebuildPointer(Tail(s), p)
      case None => None
      case Some(rest) => Some(RebuiltField(s, p) + rest)
  }

  function PatchedField(f: Field, p: Point): Option<Bytes>
  {
    if IsPointer(f) then
      match RebuildPointer(f.payload.body, p)
      case None => None
      case Some(sub) => Some(f.tagRaw + WriteVarint(|sub|) + sub)
    else Some(Raw(f))
  }

  function TryPatch(s: Bytes, p: Point): Option<Bytes>
    decreases |s|
  {
    if s == [] then Some([])
    else match ReadField(s)
      case None => None
      case Some(f) =>
        match PatchedField(f, p)
        case None => None
        case Some(piece) =>
          match TryPatch(Tail(s), p)
          case None => None
          case Some(rest) => Some(piece + rest)
  }

  /** patch_touch_xy: on any failure the payload is forwarded as it came. */
  function Patch(s: Bytes, p: Point): Bytes
  {
    match TryPatch(s, p)
    case Some(out) => out
    case None => s
  }

  // ----- the same rewriting said of field lists -----

  function WithValue(f: Field, v: u32): Field
  {
    f.(payload := Number(v, WriteVarint(v)))
  }

  /** Only varint fields 2 and 3 change. */
  function MoveCoordinate(f: Field, p: Point): Field
  {
    if IsX(f) then WithValue(f, p.x) else if IsY(f) then WithValue(f, p.y) else f
  }

  function MoveCoordinates(fs: seq<Field>, p: Point): (r: seq<Field>)
    ensures |r| == |fs|
  {
    if fs == [] then [] else [MoveCoordinate(fs[0], p)] + MoveCoordinates(fs[1..], p)
  }

  predicate Scannable(f: Field) { IsPointer(f) ==> Fields(f.payload.body).Some? }

  /** A message the rewriter can take apart completely. */
  predicate Patchable(s: Bytes)
  {
    Fields(s).Some? && forall f <- Fields(s).value :: Scannable(f)
  }

  /** Only the bodies of pointer fields change, and with them their lengths. */
  function MovePointer(f: Field, p: Point): Field
    requires Scannable(f)
  {
    if IsPointer(f) then
      var body := RawAll(MoveCoordinates(Fields(f.payload.body).value, p));
      f.(payload := Delimited(WriteVarint(|body|), body))
    else f
  }

  function MovePointers(fs: seq<Field>, p: Point): (r: seq<Field>)
    requires forall f <- fs :: Scannable(f)
    ensures |r| == |fs|
  {
    if fs == [] then [] else [MovePointer(fs[0], p)] + MovePointers(fs[1..], p)
  }

  /** If this is a coordinate, its tag is spelled with as few bytes as its value needs. */
  predicate MinimalTag(f: Field) { IsX(f) || IsY(f) ==> |f.tagRaw| == VarintLen(f.tag) }

  predicate MinimalTags(fs: seq<Field>) { forall f <- fs :: MinimalTag(f) }

  lemma MinimalTagsCons(fs: seq<Field>)
    requires fs != []
    ensures MinimalTags(fs) <==> MinimalTag(fs[0]) && MinimalTags(fs[1..])
  {
    assert fs[0] in fs && forall f <- fs[1..] :: f in fs;
    assert forall f <- fs :: f == fs[0] || f in fs[1..];
  }

  predicate MinimalPointer(f: Field)
  {
    IsPointer(f) && Fields(f.payload.body).Some? ==> MinimalTags(Fields(f.payload.body).value)
  }

  predicate MinimalPointers(fs: seq<Field>) { forall f <- fs :: MinimalPointer(f) }

  /** A Rust slice or vector holds at most isize::MAX bytes. */
  predicate Allocatable(s: Bytes) { |s| < 0x8000_0000_0000_0000 }

  // ----- rebuilding one pointer -----

  lemma {:induction false} RebuildDefined(s: Bytes, p: Point)
    ensures RebuildPointer(s, p).Some? <==> Fields(s).Some?
    decreases |s|
  {
    if s != [] && ReadField(s).Some? { RebuildDefined(Tail(s), p); }
  }

  lemma RebuiltFieldIsMoved(s: Bytes, p: Point)
    requires ReadField(s).Some?
    ensures var f := ReadField(s).value;
      var piece := RebuiltField(s, p);
      if MinimalTag(f) then piece == Raw(MoveCoordinate(f, p)) else |piece| < |Raw(MoveCoordinate(f, p))|
  {
    var f := ReadField(s).value;
    WriteIsShortest(s);
    assert f.tagRaw == s[..|f.tagRaw|];
    if (IsX(f) || IsY(f)) && |f.tagRaw| == VarintLen(f.tag) { assert CopiedTag(s) == f.tagRaw; }
  }

  /** The rebuilt pointer spells the moved fields exactly when the coordinate tags are minimal. */
  lemma {:induction false} RebuildIsMove(s: Bytes, p: Point)
    requires Fields(s).Some?
    ensures RebuildPointer(s, p).Some?
    ensures var moved := RawAll(MoveCoordinates(Fields(s).value, p));
      var out := RebuildPointer(s, p).value;
      if MinimalTags(Fields(s).value) then out == moved else |out| < |moved|
    decreases |s|
  {
    if s != [] {
      RebuildIsMove(Tail(s), p);
      RebuiltFieldIsMoved(s, p);
      var f, rest := ReadField(s).value, Fields(Tail(s)).value;
      var fs := Fields(s).value;
      assert fs[0] == f && fs[1..] == rest;
      MinimalTagsCons(fs);
      var moved := MoveCoordinates(fs, p);
      assert moved[0] == MoveCoordinate(f, p) && moved[1..] == MoveCoordinates(rest, p);
    }
  }

  lemma MoveCoordinateWellFormed(f: Field, p: Point)
    requires WellFormed(f)
    ensures WellFormed(MoveCoordinate(f, p))
  {
    ReadInvertsWrite(p.x, []);
    ReadInvertsWrite(p.y, []);
    assert WriteVarint(p.x) + [] == WriteVarint(p.x) && WriteVarint(p.y) + [] == WriteVarint(p.y);
  }

  lemma {:induction false} MoveCoordinatesWellFormed(fs: seq<Field>, p: Point)
    requires forall f <- fs :: WellFormed(f)
    ensures forall f <- MoveCoordinates(fs, p) :: WellFormed(f)
  {
    if fs != [] {
      MoveCoordinateWellFormed(fs[0], p);
      MoveCoordinatesWellFormed(fs[1..], p);
    }
  }

  lemma {:induction false} MoveCoordinatesTwice(fs: seq<Field>, p: Point, q: Point)
    ensures MoveCoordinates(MoveCoordinates(fs, p), q) == MoveCoordinates(fs, q)
    ensures MinimalTags(fs) ==> MinimalTags(MoveCoordinates(fs, p))
  {
    if fs != [] {
      MoveCoordinatesTwice(fs[1..], p, q);
      var moved := MoveCoordinates(fs, p);
      assert moved[0] == MoveCoordinate(fs[0], p) && moved[1..] == MoveCoordinates(fs[1..], p);
      MinimalTagsCons(fs);
      MinimalTagsCons(moved);
    }
  }

  // ----- rebuilding the message -----

  lemma PatchableCons(s: Bytes)
    requires s != [] && ReadField(s).Some?
    ensures Patchable(s) <==> Scannable(ReadField(s).value) && Patchable(Tail(s))
  {
    if Fields(s).Some? {
      var rest := Fields(Tail(s)).value;
      assert Fields(s).value[0] == ReadField(s).value;
      assert forall g <- rest :: g in Fields(s).value;
    }
  }

  lemma PatchedFieldDefined(f: Field, p: Point)
    ensures PatchedField(f, p).Some? <==> Scannable(f)
  {
    if IsPointer(f) { RebuildDefined(f.payload.body, p); }
  }

  /** The rewriter gives up exactly on the messages it cannot take apart. */
  lemma {:induction false} PatchDefined(s: Bytes, p: Point)
    ensures TryPatch(s, p).Some? <==> Patchable(s)
    decreases |s|
  {
    if s != [] && ReadField(s).Some? {
      PatchDefined(Tail(s), p);
      PatchedFieldDefined(ReadField(s).value, p);
      PatchableCons(s);
    }
  }

  lemma DelimitedLength(tagRaw: Bytes, a: Bytes, b: Bytes)
    requires |a| <= |b|
    ensures tagRaw + WriteVarint(|b|) + b == tagRaw + (WriteVarint(|b|) + b)
    ensures |a| < |b| ==> |tagRaw + WriteVarint(|a|) + a| < |tagRaw + (WriteVarint(|b|) + b)|
  {
    LenMonotone(|a|, |b|);
  }

  lemma PatchedFieldIsMoved(f: Field, p: Point)
    requires Scannable(f)
    ensures PatchedField(f, p).Some?
    ensures var piece := PatchedField(f, p).value;
      if MinimalPointer(f) then piece == Raw(MovePointer(f, p)) else |piece| < |Raw(MovePointer(f, p))|
  {
    if IsPointer(f) {
      var fs := Fields(f.payload.body).value;
      var body := RawAll(MoveCoordinates(fs, p));
      var minimal := MinimalTags(fs);
      assert MinimalPointer(f) <==> minimal;
      assert RebuildPointer(f.payload.body, p).Some? &&
        var sub := RebuildPointer(f.payload.body, p).value;
        if minimal then sub == body else |sub| < |body|
      by { RebuildIsMove(f.payload.body, p); }
      var sub := RebuildPointer(f.payload.body, p).value;
      DelimitedLength(f.tagRaw, sub, body);
    }
  }

  /** A field of the message as the rewriter leaves it. */
  function Patched(f: Field, p: Point): Field
    requires Scannable(f)
  {
    if IsPointer(f) then
      RebuildDefined(f.payload.body, p);
      var sub := RebuildPointer(f.payload.body, p).value;
      f.(payload := Delimited(WriteVarint(|sub|), sub))
    else f
  }

  function PatchedAll(fs: seq<Field>, p: Point): (r: seq<Field>)
    requires forall f <- fs :: Scannable(f)
    ensures |r| == |fs| && forall i | 0 <= i < |r| :: r[i] == Patched(fs[i], p)
  {
    if fs == [] then [] else [Patched(fs[0], p)] + PatchedAll(fs[1..], p)
  }

  lemma PatchedFieldIsRaw(f: Field, p: Point)
    requires Scannable(f)
    ensures PatchedField(f, p) == Some(Raw(Patched(f, p)))
  {
    if IsPointer(f) {
      RebuildDefined(f.payload.body, p);
      var sub := RebuildPointer(f.payload.body, p).value;
      assert f.tagRaw + WriteVarint(|sub|) + sub == f.tagRaw + (WriteVarint(|sub|) + sub);
    }
  }

  lemma {:induction false} PatchIsPatchedAll(s: Bytes, p: Point)
    requires Patchable(s)
    ensures TryPatch(s, p) == Some(RawAll(PatchedAll(Fields(s).value, p)))
    decreases |s|
  {
    if s != [] {
      var f, rest := ReadField(s).value, Fields(Tail(s)).value;
      assert Fields(s).value[0] == f && Fields(s).value[1..] == rest;
      PatchableCons(s);
      PatchIsPatchedAll(Tail(s), p);
      PatchedFieldIsRaw(f, p);
    }
  }

  lemma MinimalPointersCons(fs: seq<Field>)
    requires fs != []
    ensures MinimalPointers(fs) <==> MinimalPointer(fs[0]) && MinimalPointers(fs[1..])
  {
    assert fs[0] in fs && forall f <- fs[1..] :: f in fs;
    assert forall f <- fs :: f == fs[0] || f in fs[1..];
  }

  lemma {:induction false} PatchedAllIsMoved(fs: seq<Field>, p: Point)
    requires forall f <- fs :: Scannable(f)
    ensures var out, moved := RawAll(PatchedAll(fs, p)), RawAll(MovePointers(fs, p));
      if MinimalPointers(fs) then out == moved else |out| < |moved|
  {
    if fs != [] {
      PatchedAllIsMoved(fs[1..], p);
      PatchedFieldIsRaw(fs[0], p);
      PatchedFieldIsMoved(fs[0], p);
      MinimalPointersCons(fs);
    }
  }

  lemma PatchIsMove(s: Bytes, p: Point)
    requires Patchable(s)
    ensures TryPatch(s, p).Some?
    ensures var moved := RawAll(MovePointers(Fields(s).value, p));
      var out := TryPatch(s, p).value;
      if MinimalPointers(Fields(s).value) then out == moved else |out| < |moved|
  {
    PatchIsPatchedAll(s, p);
    PatchedAllIsMoved(Fields(s).value, p);
  }

  lemma MovePointerWellFormed(f: Field, p: Point)
    requires Scannable(f) && WellFormed(f)
    requires Allocatable(Raw(MovePointer(f, p)))
    ensures WellFormed(MovePointer(f, p))
    ensures Scannable(MovePointer(f, p))
    ensures IsPointer(f) ==>
      Fields(MovePointer(f, p).payload.body) == Some(MoveCoordinates(Fields(f.payload.body).value, p))
  {
    if IsPointer(f) {
      RawAllOfFields(f.payload.body);
      var fs := MoveCoordinates(Fields(f.payload.body).value, p);
      MoveCoordinatesWellFormed(Fields(f.payload.body).value, p);
      FieldsOfRawAll(fs);
      ReadInvertsWrite(|RawAll(fs)|, []);
      assert WriteVarint(|RawAll(fs)|) + [] == WriteVarint(|RawAll(fs)|);
    }
  }

  /** Moving pointers twice is moving them once, and keeps everything later steps rely on. */
  lemma {:induction false} MovePointersTwice(fs: seq<Field>, p: Point, q: Point)
    requires forall f <- fs :: Scannable(f) && WellFormed(f)
    requires MinimalPointers(fs)
    requires Allocatable(RawAll(MovePointers(fs, p)))
    ensures forall f <- MovePointers(fs, p) :: WellFormed(f) && Scannable(f)
    ensures MinimalPointers(MovePointers(fs, p))
    ensures MovePointers(MovePointers(fs, p), q) == MovePointers(fs, q)
  {
    if fs != [] {
      var moved := MovePointers(fs, p);
      var f, rest := fs[0], fs[1..];
      assert moved[0] == MovePointer(f, p) && moved[1..] == MovePointers(rest, p);
      MovePointersTwice(rest, p, q);
      MovePointerWellFormed(f, p);
      if IsPointer(f) { MoveCoordinatesTwice(Fields(f.payload.body).value, p, q); }
    }
  }

  /**
   * Patching preserves structure.  Read as a field list, the patched message is the original list with only
   * the coordinates inside pointer fields replaced and only the pointer lengths re-encoded; and this holds
   * exactly when every coordinate tag is minimal, because a longer tag loses its last bytes.
   */
  lemma PatchPreservesStructure(s: Bytes, p: Point)
    requires TryPatch(s, p).Some? && Allocatable(TryPatch(s, p).value)
    ensures Patchable(s)
    ensures Fields(TryPatch(s, p).value) == Some(MovePointers(Fields(s).value, p))
        <==> MinimalPointers(Fields(s).value)
  {
    PatchDefined(s, p);
    PatchIsMove(s, p);
    RawAllOfFields(s);
    var fs, out := Fields(s).value, TryPatch(s, p).value;
    if MinimalPointers(fs) {
      MovePointersTwice(fs, p, p);
      FieldsOfRawAll(MovePointers(fs, p));
    } else if Fields(out).Some? {
      RawAllOfFields(out);
    }
  }

  lemma PatchTwiceMinimal(s: Bytes, p: Point, q: Point)
    requires Patchable(s) && Allocatable(Patch(s, p)) && MinimalPointers(Fields(s).value)
    ensures TryPatch(Patch(s, p), q) == TryPatch(s, q)
  {
    PatchDefined(s, p);
    var fs, out := Fields(s).value, TryPatch(s, p).value;
    PatchPreservesStructure(s, p);
    PatchIsMove(s, q);
    PatchIsMove(s, p);
    RawAllOfFields(s);
    MovePointersTwice(fs, p, q);
    PatchIsMove(out, q);
  }

  // ----- the rewriter on the bytes of a field list -----

  /** As much of the tag as its value would take when written afresh. */
  function TagHead(f: Field): (r: Bytes)
    requires WellFormed(f)
    ensures |r| == VarintLen(f.tag) <= |f.tagRaw|
  {
    WriteIsShortest(f.tagRaw);
    f.tagRaw[..VarintLen(f.tag)]
  }

  /** One field as the rewriter leaves it: a coordinate keeps only the front of its tag. */
  function Rewritten(f: Field, p: Point): Bytes
    requires WellFormed(f)
  {
    if IsX(f) then TagHead(f) + WriteVarint(p.x)
    else if IsY(f) then TagHead(f) + WriteVarint(p.y)
    else Raw(f)
  }

  function RewrittenAll(fs: seq<Field>, p: Point): Bytes
    requires forall f <- fs :: WellFormed(f)
  {
    if fs == [] then [] else Rewritten(fs[0], p) + RewrittenAll(fs[1..], p)
  }

  lemma RebuiltIsRewritten(f: Field, suffix: Bytes, p: Point)
    requires WellFormed(f)
    ensures ReadField(Raw(f) + suffix) == Some(f) && Tail(Raw(f) + suffix) == suffix
    ensures RebuiltField(Raw(f) + suffix, p) == Rewritten(f, p)
  {
    ReadFieldOfRaw(f, suffix);
    assert (Raw(f) + suffix)[..|TagHead(f)|] == TagHead(f);
  }

  lemma {:induction false} RebuildOfRawAll(fs: seq<Field>, p: Point)
    requires forall f <- fs :: WellFormed(f)
    ensures RebuildPointer(RawAll(fs), p) == Some(RewrittenAll(fs, p))
  {
    if fs != [] {
      RebuildOfRawAll(fs[1..], p);
      RebuiltIsRewritten(fs[0], RawAll(fs[1..]), p);
    }
  }

  lemma RewrittenMinimal(f: Field, p: Point)
    requires WellFormed(f) && MinimalTag(f)
    ensures Rewritten(f, p) == Raw(MoveCoordinate(f, p))
  {
    if IsX(f) || IsY(f) { assert TagHead(f) == f.tagRaw; }
  }

  // ----- patch then parse -----

  function Moved(c: Option<u32>, v: u32): Option<u32>
  {
    if c.Some? then Some(v) else None
  }

  lemma ParsePointerStep(f: Field, suffix: Bytes, x: Option<u32>, y: Option<u32>)
    requires WellFormed(f)
    ensures var (x', y') := (NoteX(f, x), NoteY(f, y));
      ParsePointer(Raw(f) + suffix, x, y) == if Both(x', y').Some? then Both(x', y') else ParsePointer(suffix, x', y')
  {
    ReadFieldOfRaw(f, suffix);
  }

  lemma FirstPointerStep(f: Field, suffix: Bytes)
    requires WellFormed(f)
    ensures FirstPointer(Raw(f) + suffix) == if IsPointer(f) then Some(f.payload.body) else FirstPointer(suffix)
  {
    ReadFieldOfRaw(f, suffix);
  }

  lemma NoteMoved(f: Field, p: Point, x: Option<u32>, y: Option<u32>)
    ensures NoteX(MoveCoordinate(f, p), Moved(x, p.x)) == Moved(NoteX(f, x), p.x)
    ensures NoteY(MoveCoordinate(f, p), Moved(y, p.y)) == Moved(NoteY(f, y), p.y)
  {}

  /** The coordinates among the fields the scan reads, up to the one where it stops, have minimal tags. */
  predicate MinimalRead(fs: seq<Field>, x: Option<u32>, y: Option<u32>)
    decreases |fs|
  {
    Both(x, y).Some? || fs == [] ||
    (MinimalTag(fs[0]) && MinimalRead(fs[1..], NoteX(fs[0], x), NoteY(fs[0], y)))
  }

  lemma {:induction false} ParseRewritten(fs: seq<Field>, p: Point, x: Option<u32>, y: Option<u32>)
    requires forall f <- fs :: WellFormed(f)
    requires Both(x, y).None? && MinimalRead(fs, x, y)
    requires ParsePointer(RawAll(fs), x, y).Some?
    ensures ParsePointer(RewrittenAll(fs, p), Moved(x, p.x), Moved(y, p.y)) == Some(p)
  {
    if fs != [] {
      var f, rest := fs[0], fs[1..];
      var g := MoveCoordinate(f, p);
      RewrittenMinimal(f, p);
      ParsePointerStep(f, RawAll(rest), x, y);
      MoveCoordinateWellFormed(f, p);
      ParsePointerStep(g, RewrittenAll(rest, p), Moved(x, p.x), Moved(y, p.y));
      NoteMoved(f, p, x, y);
      if Both(NoteX(f, x), NoteY(f, y)).None? {
        ParseRewritten(rest, p, NoteX(f, x), NoteY(f, y));
      }
    }
  }

  lemma RebuiltPointerIsRead(f: Field, sub: Bytes, rest: Bytes)
    requires WellFormed(f) && IsPointer(f) && Allocatable(sub)
    ensures FirstPointer(f.tagRaw + WriteVarint(|sub|) + sub + rest) == Some(sub)
  {
    var g := f.(payload := Delimited(WriteVarint(|sub|), sub));
    assert f.tagRaw + WriteVarint(|sub|) + sub + rest == Raw(g) + rest;
    ReadInvertsWrite(|sub|, []);
    assert WriteVarint(|sub|) + [] == WriteVarint(|sub|);
    FirstPointerStep(g, rest);
  }

  lemma {:induction false} FirstPointerRebuilt(s: Bytes, p: Point)
    requires FirstPointer(s).Some? && TryPatch(s, p).Some? && Allocatable(TryPatch(s, p).value)
    ensures RebuildPointer(FirstPointer(s).value, p).Some?
    ensures FirstPointer(TryPatch(s, p).value) == RebuildPointer(FirstPointer(s).value, p)
    decreases |s|
  {
    var f := ReadField(s).value;
    var rest, out := TryPatch(Tail(s), p).value, TryPatch(s, p).value;
    assert out == PatchedField(f, p).value + rest;
    ReadFieldIsWellFormed(s);
    if IsPointer(f) {
      var sub := RebuildPointer(f.payload.body, p).value;
      RebuiltPointerIsRead(f, sub, rest);
    } else {
      assert FirstPointer(s) == FirstPointer(Tail(s));
      FirstPointerRebuilt(Tail(s), p);
      FirstPointerStep(f, rest);
    }
  }

  /** The coordinate tags the parser reads are minimal; what stands behind them may be spelled in any way. */
  predicate MinimalFirstPointer(s: Bytes)
  {
    FirstPointer(s).Some? && Fields(FirstPointer(s).value).Some? ==>
      MinimalRead(Fields(FirstPointer(s).value).value, None, None)
  }

  /** Patch then parse: whenever the parser finds a point and the patch succeeds, the new point is found. */
  lemma PatchThenParse(s: Bytes, p: Point)
    requires Parse(s).Some? && TryPatch(s, p).Some? && Allocatable(TryPatch(s, p).value)
    requires MinimalFirstPointer(s)
    ensures Parse(TryPatch(s, p).value) == Some(p)
  {
    var body := FirstPointer(s).value;
    FirstPointerRebuilt(s, p);
    RebuildDefined(body, p);
    RawAllOfFields(body);
    RebuildOfRawAll(Fields(body).value, p);
    ParseRewritten(Fields(body).value, p, None, None);
  }

  // ----- patch twice -----

  lemma PatchedWellFormed(f: Field, p: Point)
    requires Scannable(f) && WellFormed(f) && Allocatable(Raw(Patched(f, p)))
    ensures WellFormed(Patched(f, p))
  {
    if IsPointer(f) {
      RebuildDefined(f.payload.body, p);
      var sub := RebuildPointer(f.payload.body, p).value;
      ReadInvertsWrite(|sub|, []);
      assert WriteVarint(|sub|) + [] == WriteVarint(|sub|);
    }
  }

  lemma {:induction false} PatchedAllWellFormed(fs: seq<Field>, p: Point)
    requires forall f <- fs :: Scannable(f) && WellFormed(f)
    requires Allocatable(RawAll(PatchedAll(fs, p)))
    ensures forall f <- PatchedAll(fs, p) :: WellFormed(f)
  {
    if fs != [] {
      PatchedWellFormed(fs[0], p);
      PatchedAllWellFormed(fs[1..], p);
    }
  }

  lemma CancelPrefix(a: Bytes, b: Bytes, c: Bytes)
    requires a + b == a + c
    ensures b == c
  {
    assert (a + b)[|a|..] == b && (a + c)[|a|..] == c;
  }

  lemma RewrittenTwice(f: Field, p: Point, q: Point)
    requires WellFormed(f) && MinimalTag(f)
    ensures WellFormed(MoveCoordinate(f, p)) && Rewritten(MoveCoordinate(f, p), q) == Rewritten(f, q)
  {
    MoveCoordinateWellFormed(f, p);
  }

  const ONES := Point(1, 1)
  const TWOS := Point(2, 2)

  lemma ShortTag(f: Field)
    requires WellFormed(f) && !MinimalTag(f)
    ensures var t := TagHead(f);
      && |t| <= 9 && (forall i | 0 <= i < |t| :: t[i] >= 0x80)
      && Rewritten(f, ONES) == t + [1] && Rewritten(f, TWOS) == t + [2]
  {
    ReadShape(f.tagRaw);
  }

  /** A shortened tag takes the first new coordinate in for good: the second rewrite copies it as part of the tag. */
  lemma SwallowedForGood(t: Bytes, rest: Bytes, q: Point)
    requires |t| <= 9 && forall i | 0 <= i < |t| :: t[i] >= 0x80
    ensures var again := RebuildPointer(t + ([1] + rest), q);
      again.Some? ==> |again.value| > |t| && again.value[|t|] == 1
  {
    var s := t + ([1] + rest);
    if RebuildPointer(s, q).Some? {
      ReadContinued(t, rest);
      var f := ReadField(s).value;
      assert f.tagRaw == s[..|t| + 1] && VarintLen(f.tag) == |t| + 1;
      assert RebuiltField(s, q)[..|t| + 1] == s[..|t| + 1];
      assert s[|t|] == 1;
    }
  }

  lemma LongTagDiffers(f: Field, rest: Bytes, other: Bytes)
    requires WellFormed(f) && !MinimalTag(f)
    ensures RebuildPointer(Rewritten(f, ONES) + rest, TWOS) != Some(Rewritten(f, TWOS) + other)
  {
    var t := TagHead(f);
    ShortTag(f);
    assert t + [1] + rest == t + ([1] + rest);
    SwallowedForGood(t, rest, TWOS);
    assert (t + [2] + other)[|t|] == 2;
  }

  /** A field with a minimal tag is rewritten the same way again, so a difference behind it stays one. */
  lemma DifferenceBehind(f: Field, rest: Bytes, other: Bytes)
    requires WellFormed(f) && MinimalTag(f) && RebuildPointer(rest, TWOS) != Some(other)
    ensures RebuildPointer(Rewritten(f, ONES) + rest, TWOS) != Some(Rewritten(f, TWOS) + other)
  {
    var moved := MoveCoordinate(f, ONES);
    RewrittenMinimal(f, ONES);
    RewrittenTwice(f, ONES, TWOS);
    RebuiltIsRewritten(moved, rest, TWOS);
    var again := RebuildPointer(rest, TWOS);
    if again.Some? && Rewritten(f, TWOS) + again.value == Rewritten(f, TWOS) + other {
      CancelPrefix(Rewritten(f, TWOS), again.value, other);
    }
  }

  lemma {:induction false} LongTagsDiffer(fs: seq<Field>)
    requires (forall f <- fs :: WellFormed(f)) && !MinimalTags(fs)
    ensures RebuildPointer(RewrittenAll(fs, ONES), TWOS) != Some(RewrittenAll(fs, TWOS))
  {
    var f, rest := fs[0], fs[1..];
    if MinimalTag(f) {
      MinimalTagsCons(fs);
      LongTagsDiffer(rest);
      DifferenceBehind(f, RewrittenAll(rest, ONES), RewrittenAll(rest, TWOS));
    } else {
      LongTagDiffers(f, RewrittenAll(rest, ONES), RewrittenAll(rest, TWOS));
    }
  }

  lemma LongTagsBreakTwice(s: Bytes)
    requires Patchable(s) && !MinimalPointers(Fields(s).value)
    requires Allocatable(Patch(s, ONES)) && Allocatable(Patch(s, TWOS))
    ensures TryPatch(Patch(s, ONES), TWOS) != TryPatch(s, TWOS)
  {
    var fs := Fields(s).value;
    var once, last := PatchedAll(fs, ONES), PatchedAll(fs, TWOS);
    RawAllOfFields(s);
    PatchIsPatchedAll(s, ONES);
    PatchIsPatchedAll(s, TWOS);
    PatchedAllWellFormed(fs, ONES);
    FieldsOfRawAll(once);
    PatchDefined(RawAll(once), TWOS);
    if TryPatch(RawAll(once), TWOS) == Some(RawAll(last)) {
      var twice := PatchedAll(once, TWOS);
      PatchIsPatchedAll(RawAll(once), TWOS);
      PatchedAllWellFormed(once, TWOS);
      PatchedAllWellFormed(fs, TWOS);
      FieldsOfRawAll(twice);
      FieldsOfRawAll(last);
      var i :| 0 <= i < |fs| && !MinimalPointer(fs[i]);
      assert twice[i] == last[i];
      PatchedTwice(fs[i]);
    }
  }

  lemma PatchedTwice(f: Field)
    requires Scannable(f) && !MinimalPointer(f) && Scannable(Patched(f, ONES))
    ensures Patched(Patched(f, ONES), TWOS) != Patched(f, TWOS)
  {
    var body := f.payload.body;
    RawAllOfFields(body);
    RebuildOfRawAll(Fields(body).value, ONES);
    RebuildOfRawAll(Fields(body).value, TWOS);
    LongTagsDiffer(Fields(body).value);
    RebuildDefined(Patched(f, ONES).payload.body, TWOS);
  }

  /**
   * Patching twice is patching once with the last point, for all points, if and only if every coordinate tag is
   * minimal or the message cannot be patched at all.
   */
  lemma PatchTwice(s: Bytes)
    requires forall p: Point :: Allocatable(Patch(s, p))
    ensures (forall p: Point, q: Point :: TryPatch(Patch(s, p), q) == TryPatch(s, q))
        <==> (Patchable(s) ==> MinimalPointers(Fields(s).value))
  {
    forall p: Point, q: Point | Patchable(s) ==> MinimalPointers(Fields(s).value)
      ensures TryPatch(Patch(s, p), q) == TryPatch(s, q)
    {
      assert Allocatable(Patch(s, p));
      if Patchable(s) { PatchTwiceMinimal(s, p, q); } else { PatchDefined(s, p); }
    }
    if Patchable(s) && !MinimalPointers(Fields(s).value) {
      assert Allocatable(Patch(s, ONES)) && Allocatable(Patch(s, TWOS));
      LongTagsBreakTwice(s);
    }
  }

  // ----- the documented layout -----

  /** A pointer field with this body. */
  function PointerField(body: Bytes): Field { Field(0x1A, [0x1A], Delimited(WriteVarint(|body|), body)) }

  /** A varint field with a small number, spelled minimally. */
  function NumberField(n: nat, v: u64): Field
    requires n < 16
  {
    Field(8 * n, [8 * n], Number(v, WriteVarint(v)))
  }

  /** The coordinates as they stand in a message, where they may have 64 bits. */
  datatype Sent = Sent(x: u64, y: u64)

  function Cut(p: Sent): Point { Point(p.x % TWO32, p.y % TWO32) }

  /** id, x, y, pressure. */
  function PointerFields(id: u64, p: Sent, pressure: u64): seq<Field>
  {
    [NumberField(1, id), NumberField(2, p.x), NumberField(3, p.y), NumberField(4, pressure)]
  }

  /** action type, pointer count, one pointer. */
  function TouchFields(action: u64, count: u64, id: u64, p: Sent, pressure: u64): seq<Field>
  {
    [NumberField(1, action), NumberField(2, count), PointerField(RawAll(PointerFields(id, p, pressure)))]
  }

  lemma NumberFieldWellFormed(n: nat, v: u64)
    requires n < 16
    ensures WellFormed(NumberField(n, v)) && FieldNumber(NumberField(n, v).tag) == n
    ensures VarintLen(8 * n) == 1
  {
    ReadInvertsWrite(v, []);
    assert WriteVarint(v) + [] == WriteVarint(v);
  }

  lemma PointerFieldsWellFormed(id: u64, p: Sent, pressure: u64)
    ensures forall f <- PointerFields(id, p, pressure) :: WellFormed(f)
    ensures MinimalTags(PointerFields(id, p, pressure))
  {
    NumberFieldWellFormed(1, id);
    NumberFieldWellFormed(2, p.x);
    NumberFieldWellFormed(3, p.y);
    NumberFieldWellFormed(4, pressure);
  }

  lemma PointerFieldsMoved(id: u64, p: Sent, q: Point, pressure: u64)
    ensures MoveCoordinates(PointerFields(id, p, pressure), q) == PointerFields(id, Sent(q.x, q.y), pressure)
  {
    var fs := PointerFields(id, p, pressure);
    NumberFieldWellFormed(1, id);
    NumberFieldWellFormed(2, p.x);
    NumberFieldWellFormed(3, p.y);
    NumberFieldWellFormed(4, pressure);
    assert fs[1..] == [fs[1], fs[2], fs[3]] && fs[1..][1..] == [fs[2], fs[3]] && fs[1..][1..][1..] == [fs[3]];
    assert MoveCoordinates([fs[3]], q) == [fs[3]];
    assert MoveCoordinates([fs[2], fs[3]], q) == [NumberField(3, q.y), fs[3]];
    assert MoveCoordinates(fs[1..], q) == [NumberField(2, q.x), NumberField(3, q.y), fs[3]];
  }

  /** What the pointer scan finds, said of a field list: the coordinates held when both first are. */
  function PointOf(fs: seq<Field>, x: Option<u32>, y: Option<u32>): Option<Point>
  {
    if Both(x, y).Some? || fs == [] then Both(x, y)
    else PointOf(fs[1..], NoteX(fs[0], x), NoteY(fs[0], y))
  }

  lemma {:induction false} ParsePointerIsPointOf(fs: seq<Field>, x: Option<u32>, y: Option<u32>)
    requires forall f <- fs :: WellFormed(f)
    requires Both(x, y).None?
    ensures ParsePointer(RawAll(fs), x, y) == PointOf(fs, x, y)
  {
    if fs != [] {
      var f, rest := fs[0], fs[1..];
      ParsePointerStep(f, RawAll(rest), x, y);
      if Both(NoteX(f, x), NoteY(f, y)).None? { ParsePointerIsPointOf(rest, NoteX(f, x), NoteY(f, y)); }
    }
  }

  /** A pointer list whose second and third fields are x and y, once they are cut to 32 bits. */
  predicate Spells(fs: seq<Field>, p: Point)
  {
    && |fs| >= 3
    && !IsX(fs[0]) && !IsY(fs[0])
    && IsX(fs[1]) && fs[1].payload.value % TWO32 == p.x
    && IsY(fs[2]) && fs[2].payload.value % TWO32 == p.y
  }

  lemma SpelledPoint(fs: seq<Field>, p: Point)
    requires Spells(fs, p)
    ensures PointOf(fs, None, None) == Some(p)
  {
    var r := fs[1..];
    var t := r[1..];
    assert r[0] == fs[1] && t[0] == fs[2];
    assert PointOf(t, Some(p.x), None) == PointOf(t[1..], Some(p.x), Some(p.y));
    assert PointOf(r, None, None) == PointOf(t, Some(p.x), None);
  }

  lemma ThirdFieldIsFirstPointer(fs: seq<Field>)
    requires |fs| == 3 && WellFormed(fs[0]) && WellFormed(fs[1]) && WellFormed(fs[2])
    requires !IsPointer(fs[0]) && !IsPointer(fs[1]) && IsPointer(fs[2])
    ensures FirstPointer(RawAll(fs)) == Some(fs[2].payload.body)
  {
    var r := fs[1..];
    var t := r[1..];
    assert r[0] == fs[1] && t[0] == fs[2];
    FirstPointerStep(fs[0], RawAll(r));
    FirstPointerStep(r[0], RawAll(t));
    FirstPointerStep(t[0], RawAll(t[1..]));
  }

  lemma ThirdFieldMoves(fs: seq<Field>, p: Point)
    requires |fs| == 3 && !IsPointer(fs[0]) && !IsPointer(fs[1]) && Scannable(fs[2])
    ensures forall f <- fs :: Scannable(f)
    ensures MovePointers(fs, p) == [fs[0], fs[1], MovePointer(fs[2], p)]
  {
    var r := fs[1..];
    var t := r[1..];
    assert r[0] == fs[1] && t[0] == fs[2] && t[1..] == [];
    assert MovePointers(t, p) == [MovePointer(fs[2], p)] + [];
    assert MovePointers(r, p) == [fs[1]] + MovePointers(t, p);
  }

  lemma PointerFieldsSpell(id: u64, p: Sent, pressure: u64)
    ensures Spells(PointerFields(id, p, pressure), Cut(p))
  {
    NumberFieldWellFormed(1, id);
    NumberFieldWellFormed(2, p.x);
    NumberFieldWellFormed(3, p.y);
  }

  lemma PointerBodySmall(id: u64, p: Sent, pressure: u64)
    ensures |RawAll(PointerFields(id, p, pressure))| <= 44
  {
    var fs := PointerFields(id, p, pressure);
    ReadInvertsWrite(id, []);
    ReadInvertsWrite(p.x, []);
    ReadInvertsWrite(p.y, []);
    ReadInvertsWrite(pressure, []);
    assert RawAll(fs) == Raw(fs[0]) + RawAll(fs[1..]);
    assert RawAll(fs[1..]) == Raw(fs[1]) + RawAll(fs[1..][1..]);
    assert RawAll(fs[1..][1..]) == Raw(fs[2]) + RawAll(fs[1..][1..][1..]);
    assert RawAll(fs[1..][1..][1..]) == Raw(fs[3]) + [];
  }

  lemma PointerFieldWellFormed(body: Bytes)
    requires Allocatable(body)
    ensures WellFormed(PointerField(body)) && IsPointer(PointerField(body))
  {
    ReadInvertsWrite(|body|, []);
    assert WriteVarint(|body|) + [] == WriteVarint(|body|);
  }

  /** Everything the layout theorem needs to know of the three top-level fields. */
  lemma TouchFieldsWellFormed(action: u64, count: u64, id: u64, p: Sent, pressure: u64)
    ensures var fs := TouchFields(action, count, id, p, pressure);
      && WellFormed(fs[0]) && WellFormed(fs[1]) && WellFormed(fs[2])
      && !IsPointer(fs[0]) && !IsPointer(fs[1]) && IsPointer(fs[2])
      && Fields(fs[2].payload.body) == Some(PointerFields(id, p, pressure))
      && Fields(RawAll(fs)) == Some(fs)
  {
    var body := RawAll(PointerFields(id, p, pressure));
    PointerFieldsWellFormed(id, p, pressure);
    FieldsOfRawAll(PointerFields(id, p, pressure));
    NumberFieldWellFormed(1, action);
    NumberFieldWellFormed(2, count);
    PointerBodySmall(id, p, pressure);
    PointerFieldWellFormed(body);
    FieldsOfRawAll(TouchFields(action, count, id, p, pressure));
  }

  lemma TouchFieldsMoved(action: u64, count: u64, id: u64, p: Sent, q: Point, pressure: u64)
    ensures var fs := TouchFields(action, count, id, p, pressure);
      && (forall f <- fs :: Scannable(f))
      && MinimalPointers(fs)
      && MovePointers(fs, q) == TouchFields(action, count, id, Sent(q.x, q.y), pressure)
  {
    var fs := TouchFields(action, count, id, p, pressure);
    TouchFieldsWellFormed(action, count, id, p, pressure);
    ThirdFieldMoves(fs, q);
    PointerFieldsWellFormed(id, p, pressure);
    PointerFieldsMoved(id, p, q, pressure);
  }

  /**
   * In a message of the documented layout the parser finds the pointer's x and y, cut to 32 bits, whatever the other
   * values, and patching makes it the message with the new point and nothing else changed.
   */
  lemma DocumentedLayout(action: u64, count: u64, id: u64, p: Sent, q: Point, pressure: u64)
    ensures var s := RawAll(TouchFields(action, count, id, p, pressure));
      && Parse(s) == Some(Point(p.x % 0x1_0000_0000, p.y % 0x1_0000_0000))
      && TryPatch(s, q) == Some(RawAll(TouchFields(action, count, id, Sent(q.x, q.y), pressure)))
  {
    var fs := TouchFields(action, count, id, p, pressure);
    TouchFieldsWellFormed(action, count, id, p, pressure);
    ThirdFieldIsFirstPointer(fs);
    PointerFieldsSpell(id, p, pressure);
    SpelledPoint(PointerFields(id, p, pressure), Cut(p));
    PointerFieldsWellFormed(id, p, pressure);
    ParsePointerIsPointOf(PointerFields(id, p, pressure), None, None);
    TouchFieldsMoved(action, count, id, p, q, pressure);
    PatchIsMove(RawAll(fs), q);
  }

  // ----- what a long tag does -----

  const X_LONG := Field(0x10, [0x90, 0x00], Number(7, [7]))
  const Y_SHORT := Field(0x18, [0x18], Number(9, [9]))
  const LONG_BODY: Bytes := [0x90, 0x00, 7, 0x18, 9]

  lemma LongBodyFields()
    ensures WellFormed(X_LONG) && WellFormed(Y_SHORT)
    ensures LONG_BODY == Raw(X_LONG) + Raw(Y_SHORT)
    ensures ReadField(LONG_BODY) == Some(X_LONG) && Tail(LONG_BODY) == [0x18, 9]
    ensures ReadField([0x18, 9]) == Some(Y_SHORT) && Tail([0x18, 9]) == []
  {
    assert [0x90, 0x00][1..] == [0x00];
    assert Groups([0x90, 0x00], 0) == Some(Read(0x10, 2));
    assert Raw(X_LONG) + [0x18, 9] == LONG_BODY;
    ReadFieldOfRaw(X_LONG, [0x18, 9]);
    ReadFieldOfRaw(Y_SHORT, []);
    assert Raw(Y_SHORT) + [] == [0x18, 9];
  }

  lemma LongBodyRebuilt()
    ensures Fields(LONG_BODY).Some? && !MinimalRead(Fields(LONG_BODY).value, None, None)
    ensures RebuildPointer(LONG_BODY, Point(1, 2)) == Some([0x90, 1, 0x18, 2])
  {
    LongBodyFields();
    var p := Point(1, 2);
    assert Fields([0x18, 9]) == Some([Y_SHORT] + []);
    assert Fields(LONG_BODY).value[0] == X_LONG && VarintLen(0x10) == 1;
    assert RebuiltField([0x18, 9], p) == [0x18, 2];
    assert RebuildPointer([0x18, 9], p) == Some([0x18, 2] + []);
    assert RebuiltField(LONG_BODY, p) == [0x90, 1];
    assert [0x90, 1] + ([0x18, 2] + []) == [0x90, 1, 0x18, 2];
  }

  lemma LongBodyParsed()
    ensures ParsePointer(LONG_BODY, None, None) == Some(Point(7, 9))
  {
    LongBodyFields();
    ParsePointerStep(Y_SHORT, [], Some(7), None);
    assert Raw(Y_SHORT) + [] == Raw(Y_SHORT);
    ParsePointerStep(X_LONG, Raw(Y_SHORT), None, None);
  }

  lemma LoneTag()
    ensures ParsePointer([2], None, None) == None
  {
    assert ReadField([2]) == None;
  }

  lemma SwallowedPoint()
    ensures ParsePointer([0x90, 1, 0x18, 2], None, None) == None
  {
    var z := Field(0x90, [0x90, 1], Number(0x18, [0x18]));
    assert [0x90, 1][1..] == [1];
    assert Groups([0x90, 1], 0) == Some(Read(0x90, 2));
    ParsePointerStep(z, [2], None, None);
    assert Raw(z) + [2] == [0x90, 1, 0x18, 2];
    LoneTag();
  }

  lemma SinglePointer(f: Field, p: Point)
    requires WellFormed(f) && IsPointer(f)
    ensures FirstPointer(Raw(f)) == Some(f.payload.body)
    ensures TryPatch(Raw(f), p) == PatchedField(f, p)
  {
    FirstPointerStep(f, []);
    ReadFieldOfRaw(f, []);
    assert Raw(f) + [] == Raw(f);
    var piece := PatchedField(f, p);
    if piece.Some? { assert piece.value + [] == piece.value; }
  }

  lemma PointerMessage(body: Bytes, p: Point)
    requires Allocatable(body)
    ensures Parse(Raw(PointerField(body))) == ParsePointer(body, None, None)
    ensures FirstPointer(Raw(PointerField(body))) == Some(body)
    ensures TryPatch(Raw(PointerField(body)), p)
         == if RebuildPointer(body, p).Some? then Some(Raw(PointerField(RebuildPointer(body, p).value))) else None
  {
    var f := PointerField(body);
    PointerFieldWellFormed(body);
    SinglePointer(f, p);
    if RebuildPointer(body, p).Some? {
      var sub := RebuildPointer(body, p).value;
      assert f.tagRaw + WriteVarint(|sub|) + sub == f.tagRaw + (WriteVarint(|sub|) + sub);
    }
  }

  /**
   * Without minimal tags the point can be lost: x under the two-byte tag 90 00, y under 18.  The copy keeps
   * only 90, which then swallows the new x.
   */
  lemma LongTagBreaksPatch()
    ensures var s := Raw(PointerField(LONG_BODY));
      && Parse(s) == Some(Point(7, 9))
      && !MinimalFirstPointer(s)
      && TryPatch(s, Point(1, 2)).Some?
      && Parse(TryPatch(s, Point(1, 2)).value) == None
  {
    var sub: Bytes := [0x90, 1, 0x18, 2];
    LongBodyRebuilt();
    LongBodyParsed();
    SwallowedPoint();
    PointerMessage(LONG_BODY, Point(1, 2));
    PointerMessage(sub, Point(1, 2));
  }

  // ----- and what it need not do -----

  const PAD := Field(0x2D, [0x2D], Fixed32([8, 0, 8, 0]))
  const X_SHORT := Field(0x10, [0x10], Number(7, [7]))
  const SWALLOWING := Field(0x90, [0x90, 1], Number(0x2D, [0x2D]))
  const ZERO := Field(8, [8], Number(0, [0]))
  const NEW_X := Field(0x10, [0x10], Number(1, [1]))
  const NEW_Y := Field(0x18, [0x18], Number(2, [2]))

  function LuckyFields(): seq<Field> { [X_LONG, PAD, X_SHORT, Y_SHORT] }

  function ResyncFields(): seq<Field> { [SWALLOWING, ZERO, ZERO, NEW_X, NEW_Y] }

  lemma OneByte(b: byte)
    requires b < 0x80
    ensures ReadVarint([b]) == Some(Read(b, 1))
  {}

  lemma LuckyWellFormed()
    ensures forall f <- LuckyFields() :: WellFormed(f)
  {
    LongBodyFields();
    OneByte(0x2D);
    OneByte(0x10);
    OneByte(7);
  }

  lemma ResyncWellFormed()
    ensures forall f <- ResyncFields() :: WellFormed(f)
  {
    assert [0x90, 1][1..] == [1];
    assert Groups([0x90, 1], 0) == Some(Read(0x90, 2));
    OneByte(0x2D);
    OneByte(8);
    OneByte(0);
    OneByte(0x10);
    OneByte(1);
    OneByte(0x18);
    OneByte(2);
  }

  lemma LuckyPoint()
    ensures PointOf(LuckyFields(), None, None) == Some(Point(7, 9))
  {
    var fs := LuckyFields();
    assert fs[1..] == [PAD, X_SHORT, Y_SHORT] && fs[1..][1..] == [X_SHORT, Y_SHORT] && fs[1..][1..][1..] == [Y_SHORT];
    assert PointOf([Y_SHORT], Some(7), None) == Some(Point(7, 9));
    assert PointOf([X_SHORT, Y_SHORT], Some(7), None) == Some(Point(7, 9));
    assert PointOf([PAD, X_SHORT, Y_SHORT], Some(7), None) == Some(Point(7, 9));
  }

  lemma ResyncPoint()
    ensures PointOf(ResyncFields(), None, None) == Some(Point(1, 2))
  {
    var fs := ResyncFields();
    var r := fs[1..];
    var t := r[1..];
    assert r == [ZERO, ZERO, NEW_X, NEW_Y] && t == [ZERO, NEW_X, NEW_Y] && t[1..] == [NEW_X, NEW_Y];
    assert t[1..][1..] == [NEW_Y];
    assert PointOf([NEW_Y], Some(1), None) == Some(Point(1, 2));
    assert PointOf(t[1..], None, None) == Some(Point(1, 2));
    assert PointOf(t, None, None) == Some(Point(1, 2));
    assert PointOf(r, None, None) == Some(Point(1, 2));
  }

  lemma LuckyRebuilt()
    requires forall f <- LuckyFields() :: WellFormed(f)
    ensures RewrittenAll(LuckyFields(), Point(1, 2)) == [0x90, 1] + (Raw(PAD) + ([0x10, 1] + ([0x18, 2] + [])))
  {
    var p, fs := Point(1, 2), LuckyFields();
    var r := fs[1..];
    var t := r[1..];
    assert r == [PAD, X_SHORT, Y_SHORT] && t == [X_SHORT, Y_SHORT] && t[1..] == [Y_SHORT];
    assert fs[0] == X_LONG && r[0] == PAD && t[0] == X_SHORT && t[1..][0] == Y_SHORT;
    assert Rewritten(X_LONG, p) == [0x90, 1];
    assert Rewritten(X_SHORT, p) == [0x10, 1];
    assert Rewritten(Y_SHORT, p) == [0x18, 2];
    assert RewrittenAll(t[1..], p) == [0x18, 2] + [];
    assert RewrittenAll(t, p) == [0x10, 1] + RewrittenAll(t[1..], p);
    assert RewrittenAll(r, p) == Raw(PAD) + RewrittenAll(t, p);
  }

  lemma ResyncRegroup(tail: Bytes)
    ensures [0x90, 1, 0x2D] + ([8, 0] + ([8, 0] + tail)) == [0x90, 1] + ([0x2D, 8, 0, 8, 0] + tail)
  {}

  lemma ResyncTail()
    ensures RawAll([NEW_X, NEW_Y]) == [0x10, 1] + ([0x18, 2] + [])
  {
    assert [NEW_X, NEW_Y][1..] == [NEW_Y];
    assert Raw(NEW_X) == [0x10, 1] && Raw(NEW_Y) == [0x18, 2];
    assert RawAll([NEW_Y]) == Raw(NEW_Y) + [];
  }

  lemma ResyncBytes()
    ensures RawAll(ResyncFields()) == [0x90, 1] + (Raw(PAD) + ([0x10, 1] + ([0x18, 2] + [])))
  {
    var fs := ResyncFields();
    var r := fs[1..];
    var t := r[1..];
    assert r == [ZERO, ZERO, NEW_X, NEW_Y] && t == [ZERO, NEW_X, NEW_Y] && t[1..] == [NEW_X, NEW_Y];
    assert Raw(SWALLOWING) == [0x90, 1, 0x2D] && Raw(ZERO) == [8, 0] && Raw(PAD) == [0x2D, 8, 0, 8, 0];
    ResyncTail();
    ResyncRegroup(RawAll(t[1..]));
  }

  lemma SurvivesWhen(fs: seq<Field>, gs: seq<Field>, was: Point, p: Point)
    requires forall f <- fs :: WellFormed(f)
    requires forall g <- gs :: WellFormed(g)
    requires PointOf(fs, None, None) == Some(was) && PointOf(gs, None, None) == Some(p)
    requires RewrittenAll(fs, p) == RawAll(gs) && Allocatable(RawAll(fs)) && Allocatable(RawAll(gs))
    ensures var s := Raw(PointerField(RawAll(fs)));
      && Parse(s) == Some(was)
      && (MinimalFirstPointer(s) <==> MinimalRead(fs, None, None))
      && TryPatch(s, p).Some? && Parse(TryPatch(s, p).value) == Some(p)
  {
    FieldsOfRawAll(fs);
    ParsePointerIsPointOf(fs, None, None);
    ParsePointerIsPointOf(gs, None, None);
    RebuildOfRawAll(fs, p);
    PointerMessage(RawAll(fs), p);
    PointerMessage(RawAll(gs), p);
  }

  lemma LuckySize()
    ensures |RawAll(LuckyFields())| == 12 && !MinimalRead(LuckyFields(), None, None)
  {
    var fs := LuckyFields();
    var r := fs[1..];
    var t := r[1..];
    assert r == [PAD, X_SHORT, Y_SHORT] && t == [X_SHORT, Y_SHORT] && t[1..] == [Y_SHORT];
    assert |RawAll(t[1..])| == 2;
    assert |RawAll(t)| == 4;
    assert |RawAll(r)| == 9;
    assert fs[0] == X_LONG && VarintLen(0x10) == 1;
  }

  /**
   * Nor are minimal tags necessary: bytes behind the shortened tag can bring the scan back in step, so no
   * condition on the tags alone says exactly when the new point is found.
   */
  lemma LongTagCanSurvive()
    ensures var s := Raw(PointerField(RawAll(LuckyFields())));
      && Parse(s) == Some(Point(7, 9))
      && !MinimalFirstPointer(s)
      && TryPatch(s, Point(1, 2)).Some?
      && Parse(TryPatch(s, Point(1, 2)).value) == Some(Point(1, 2))
  {
    LuckyWellFormed();
    ResyncWellFormed();
    LuckyPoint();
    ResyncPoint();
    LuckyRebuilt();
    ResyncBytes();
    LuckySize();
    SurvivesWhen(LuckyFields(), ResyncFields(), Point(7, 9), Point(1, 2));
  }
}
