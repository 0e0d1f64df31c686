/** The scanning and rewriting loops of radxa/aa-proxy/src/mitm.rs, each proved to compute its function in Touch. */
module TouchLoops {
  import opened Prelude
  import opened Varint
  import opened Protobuf
  import opened Touch

  lemma SliceOfDrop(data: Bytes, a: nat, b: nat)
    requires a <= b <= |data|
    ensures data[a..][..b - a] == data[a..b] && data[a..][b - a..] == data[b..]
  {}

  lemma JoinSlices(data: Bytes, a: nat, b: nat, c: nat)
    requires a <= b <= c <= |data|
    ensures data[a..b] + data[b..c] == data[a..c]
    ensures data[a..][b - a..c - a] == data[b..c]
  {}

  lemma FieldAhead(s: Bytes, tagSize: nat, tag: u64, p: Payload)
    requires ReadVarint(s) == Some(Read(tag, tagSize)) && ReadPayload(WireType(tag), s[tagSize..]) == Some(p)
    ensures ReadField(s) == Some(Field(tag, s[..tagSize], p))
  {}

  lemma NoTagAhead(s: Bytes)
    requires ReadVarint(s) == None
    ensures ReadField(s) == None
  {}

  lemma NoPayloadAhead(s: Bytes, tagSize: nat, tag: u64)
    requires ReadVarint(s) == Some(Read(tag, tagSize)) && ReadPayload(WireType(tag), s[tagSize..]) == None
    ensures ReadField(s) == None
  {}

  lemma FieldAt(data: Bytes, start: nat, tagEnd: nat, end: nat, tag: u64, p: Payload)
    requires start < tagEnd <= end <= |data|
    requires ReadVarint(data[start..]) == Some(Read(tag, tagEnd - start))
    requires ReadPayload(WireType(tag), data[tagEnd..]) == Some(p) && PayloadRaw(p) == data[tagEnd..end]
    ensures ReadField(data[start..]) == Some(Field(tag, data[start..tagEnd], p))
    ensures Raw(Field(tag, data[start..tagEnd], p)) == data[start..end] && Tail(data[start..]) == data[end..]
  {
    SliceOfDrop(data, start, tagEnd);
    SliceOfDrop(data, start, end);
    JoinSlices(data, start, tagEnd, end);
    FieldAhead(data[start..], tagEnd - start, tag, p);
  }

  /** A length and as many bytes behind it. */
  method ScanDelimited(data: Bytes, pos: nat) returns (p: Option<Payload>, next: nat)
    requires pos <= |data|
    ensures p == ReadPayload(2, data[pos..])
    ensures p.Some? ==> pos <= next <= |data| && PayloadRaw(p.value) == data[pos..next]
  {
    next := pos;
    var len, body := ReadAt(data, pos);
    if len == None || body + len.value > |data| {
      return None, next;
    }
    next := body + len.value;
    SliceOfDrop(data, pos, body);
    JoinSlices(data, pos, body, next);
    return Some(Delimited(data[pos..body], data[body..next])), next;
  }

  /** The wire-type dispatch that each of the three scanning loops performs behind a tag. */
  method ScanPayload(data: Bytes, pos: nat, wireType: nat) returns (p: Option<Payload>, next: nat)
    requires pos <= |data|
    ensures p == ReadPayload(wireType, data[pos..])
    ensures p.Some? ==> pos <= next <= |data| && PayloadRaw(p.value) == data[pos..next]
  {
    next := pos;
    if wireType == 0 {
      var v, end := ReadAt(data, pos);
      if v == None {
        return None, next;
      }
      SliceOfDrop(data, pos, end);
      return Some(Number(v.value, data[pos..end])), end;
    } else if wireType == 1 {
      if pos + 8 > |data| {
        return None, next;
      }
      SliceOfDrop(data, pos, pos + 8);
      return Some(Fixed64(data[pos..pos + 8])), pos + 8;
    } else if wireType == 2 {
      p, next := ScanDelimited(data, pos);
    } else if wireType == 5 {
      if pos + 4 > |data| {
        return None, next;
      }
      SliceOfDrop(data, pos, pos + 4);
      return Some(Fixed32(data[pos..pos + 4])), pos + 4;
    } else {
      return None, next;
    }
  }

  /** The field at `start`. */
  method ScanField(data: Bytes, start: nat) returns (f: Option<Field>, next: nat)
    requires start <= |data|
    ensures f == ReadField(data[start..])
    ensures f.Some? ==>
      start < next <= |data| && Raw(f.value) == data[start..next] && Tail(data[start..]) == data[next..]
  {
    var tag, pos := ReadAt(data, start);
    next := pos;
    if tag == None {
      NoTagAhead(data[start..]);
      return None, next;
    }
    SliceOfDrop(data, start, pos);
    var payload, end := ScanPayload(data, pos, WireType(tag.value));
    next := end;
    if payload == None {
      NoPayloadAhead(data[start..], pos - start, tag.value);
      return None, next;
    }
    FieldAt(data, start, pos, next, tag.value, payload.value);
    f := Some(Field(tag.value, data[start..pos], payload.value));
  }

  /** parse_protobuf_touch: the outer scan for a pointer field and the inner scan for its coordinates. */
  method ParseTouch(data: Bytes) returns (r: Option<Point>)
    ensures r == Parse(data)
  {
    var pos := 0;
    while pos < |data|
      invariant pos <= |data| && FirstPointer(data) == FirstPointer(data[pos..])
    {
      var f, next := ScanField(data, pos);
      if f == None {
        return None;
      }
      if IsPointer(f.value) {
        var sub := f.value.payload.body;
        var spos := 0;
        var x: Option<u32>, y: Option<u32> := None, None;
        while spos < |sub|
          invariant spos <= |sub| && Both(x, y) == None
          invariant ParsePointer(sub, None, None) == ParsePointer(sub[spos..], x, y)
        {
          var g, snext := ScanField(sub, spos);
          if g == None {
            return None;
          }
          if IsX(g.value) {
            x := Some(g.value.payload.value % TWO32);
          } else if IsY(g.value) {
            y := Some(g.value.payload.value % TWO32);
          }
          spos := snext;
          if x.Some? && y.Some? {
            return Some(Point(x.value, y.value));
          }
        }
        return None;
      }
      pos := next;
    }
    return None;
  }

  ghost function Prepend(done: Bytes, rest: Option<Bytes>): Option<Bytes>
  {
    match rest
    case None => None
    case Some(bytes) => Some(done + bytes)
  }

  lemma PrependNothing(rest: Option<Bytes>)
    ensures Prepend([], rest) == rest
  {
    if rest.Some? { assert [] + rest.value == rest.value; }
  }

  lemma PrependTwice(done: Bytes, piece: Bytes, rest: Option<Bytes>)
    ensures Prepend(done, Prepend(piece, rest)) == Prepend(done + piece, rest)
  {
    if rest.Some? { assert done + (piece + rest.value) == done + piece + rest.value; }
  }

  lemma Regroup(a: Bytes, b: Bytes, c: Bytes)
    ensures a + b + c == a + (b + c)
  {}

  lemma SliceOfRaw(data: Bytes, pos: nat, next: nat, f: Field, n: nat)
    requires pos <= next <= |data| && Raw(f) == data[pos..next] && n <= |f.tagRaw|
    ensures pos + n <= |data| && f.tagRaw[..n] == data[pos..pos + n]
  {
    assert Raw(f)[..n] == f.tagRaw[..n];
  }

  lemma RebuiltAhead(s: Bytes, f: Field, p: Point)
    requires ReadField(s) == Some(f)
    ensures WellFormed(f) && RebuiltField(s, p) == Rewritten(f, p)
  {
    ReadFieldIsWellFormed(s);
    RebuiltIsRewritten(f, Tail(s), p);
  }

  lemma RebuildStep(whole: Option<Bytes>, out: Bytes, s: Bytes, p: Point)
    requires s != [] && ReadField(s).Some?
    requires whole == Prepend(out, RebuildPointer(s, p))
    ensures whole == Prepend(out + RebuiltField(s, p), RebuildPointer(Tail(s), p))
  {
    var rest := RebuildPointer(Tail(s), p);
    assert RebuildPointer(s, p) == Prepend(RebuiltField(s, p), rest);
    PrependTwice(out, RebuiltField(s, p), rest);
  }

  lemma RebuildDone(whole: Option<Bytes>, out: Bytes, p: Point)
    requires whole == Prepend(out, RebuildPointer([], p))
    ensures whole == Some(out)
  {
    assert out + [] == out;
  }

  /** The body of the loop of rebuild_pointer_sub: copy the field, or the front of its tag and a new coordinate. */
  method RebuildOne(out: Bytes, sub: Bytes, pos: nat, next: nat, f: Field, p: Point) returns (out': Bytes)
    requires pos < next <= |sub| && WellFormed(f) && Raw(f) == sub[pos..next]
    ensures out' == out + Rewritten(f, p)
  {
    var tagLen := EncodedLen(f.tag);
    assert tagLen == |TagHead(f)|;
    SliceOfRaw(sub, pos, next, f, tagLen);
    if IsX(f) {
      Regroup(out, TagHead(f), WriteVarint(p.x));
      out' := Append(out + sub[pos..pos + tagLen], p.x);
    } else if IsY(f) {
      Regroup(out, TagHead(f), WriteVarint(p.y));
      out' := Append(out + sub[pos..pos + tagLen], p.y);
    } else {
      out' := out + sub[pos..next];
    }
  }

  /** rebuild_pointer_sub. */
  method RebuildPointerSub(sub: Bytes, p: Point) returns (r: Option<Bytes>)
    ensures r == RebuildPointer(sub, p)
  {
    var out: Bytes := [];
    var pos := 0;
    ghost var whole := RebuildPointer(sub, p);
    PrependNothing(whole);
    assert sub[0..] == sub;
    while pos < |sub|
      invariant pos <= |sub|
      invariant whole == Prepend(out, RebuildPointer(sub[pos..], p))
    {
      var f, next := ScanField(sub, pos);
      if f == None {
        return None;
      }
      RebuildStep(whole, out, sub[pos..], p);
      RebuiltAhead(sub[pos..], f.value, p);
      out := RebuildOne(out, sub, pos, next, f.value, p);
      pos := next;
    }
    assert sub[pos..] == [];
    RebuildDone(whole, out, p);
    return Some(out);
  }

  lemma PatchStep(out: Bytes, s: Bytes, p: Point)
    requires s != [] && ReadField(s).Some?
    ensures var piece := PatchedField(ReadField(s).value, p);
      Prepend(out, TryPatch(s, p)) == if piece == None then None else Prepend(out + piece.value, TryPatch(Tail(s), p))
  {
    var piece := PatchedField(ReadField(s).value, p);
    if piece.Some? {
      assert TryPatch(s, p) == Prepend(piece.value, TryPatch(Tail(s), p));
      PrependTwice(out, piece.value, TryPatch(Tail(s), p));
    }
  }

  /** try_patch_touch_xy. */
  method TryPatchTouch(data: Bytes, p: Point) returns (r: Option<Bytes>)
    ensures r == TryPatch(data, p)
  {
    var out: Bytes := [];
    var pos := 0;
    ghost var whole := TryPatch(data, p);
    PrependNothing(whole);
    assert data[0..] == data;
    while pos < |data|
      invariant pos <= |data|
      invariant whole == Prepend(out, TryPatch(data[pos..], p))
    {
      var f, next := ScanField(data, pos);
      if f == None {
        return None;
      }
      PatchStep(out, data[pos..], p);
      if IsPointer(f.value) {
        var rebuilt := RebuildPointerSub(f.value.payload.body, p);
        if rebuilt == None {
          return None;
        }
        var sub := rebuilt.value;
        var head := f.value.tagRaw;
        Regroup(out, head, WriteVarint(|sub|));
        Regroup(out, head + WriteVarint(|sub|), sub);
        out := Append(out + head, |sub|);
        out := out + sub;
      } else {
        out := out + data[pos..next];
      }
      pos := next;
    }
    assert data[pos..] == [] && out + [] == out;
    return Some(out);
  }

  /** patch_touch_xy: the original payload goes out when the rewrite fails. */
  method PatchTouch(payload: Bytes, p: Point) returns (out: Bytes)
    ensures out == Patch(payload, p)
  {
    var patched := TryPatchTouch(payload, p);
    if patched.Some? {
      out := patched.value;
    } else {
      out := payload;
    }
  }
}
