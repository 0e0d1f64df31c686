/** A protobuf message as the list of its fields, every field with the exact bytes that spelled it. */
module Protobuf {
  import opened Prelude
  import opened Varint

  datatype Payload =
    | Number(value: u64, raw: Bytes)
    | Fixed64(body: Bytes)
    | Delimited(lenRaw: Bytes, body: Bytes)
    | Fixed32(body: Bytes)

  datatype Field = Field(tag: u64, tagRaw: Bytes, payload: Payload)

  function WireType(tag: u64): nat { tag % 8 }

  /** `(tag >> 3) as u32`: the field number is cut to 32 bits. */
  function FieldNumber(tag: u64): u32 { tag / 8 % TWO32 }

  function PayloadRaw(p: Payload): Bytes
  {
    match p
    case Number(_, raw) => raw
    case Fixed64(body) => body
    case Delimited(lenRaw, body) => lenRaw + body
    case Fixed32(body) => body
  }

  function Raw(f: Field): Bytes { f.tagRaw + PayloadRaw(f.payload) }

  function RawAll(fs: seq<Field>): Bytes
  {
    if fs == [] then [] else Raw(fs[0]) + RawAll(fs[1..])
  }

  function ReadPayload(wireType: nat, s: Bytes): (r: Option<Payload>)
    ensures r.Some? ==> PayloadRaw(r.value) <= s
  {
    if wireType == 0 then
      match ReadVarint(s)
      case None => None
      case Some(d) => Some(Number(d.value, s[..d.size]))
    else if wireType == 1 then
      if |s| < 8 then None else Some(Fixed64(s[..8]))
    else if wireType == 2 then
      match ReadVarint(s)
      case None => None
      case Some(d) =>
        if d.size + d.value > |s| then None
        else Some(Delimited(s[..d.size], s[d.size..d.size + d.value]))
    else if wireType == 5 then
      if |s| < 4 then None else Some(Fixed32(s[..4]))
    else None
  }

  /** The wire types: 0 a varint, 1 eight bytes, 2 a length and as many bytes, 5 four bytes, and no others. */
  lemma WireTypes(wireType: nat, s: Bytes)
    ensures wireType == 1 ==> ReadPayload(wireType, s) == if |s| < 8 then None else Some(Fixed64(s[..8]))
    ensures wireType == 5 ==> ReadPayload(wireType, s) == if |s| < 4 then None else Some(Fixed32(s[..4]))
    ensures wireType == 0 ==> (ReadPayload(wireType, s).Some? <==> ReadVarint(s).Some?)
    ensures wireType == 2 ==>
      (ReadPayload(wireType, s).Some? <==>
        ReadVarint(s).Some? && ReadVarint(s).value.size + ReadVarint(s).value.value <= |s|)
    ensures wireType != 0 && wireType != 1 && wireType != 2 && wireType != 5 ==> ReadPayload(wireType, s) == None
  {}

  /** A tag is eight times the field number, cut to 32 bits, and the wire type. */
  lemma TagParts(number: nat, wireType: nat)
    requires wireType < 8 && 8 * number + wireType < TWO64
    ensures FieldNumber(8 * number + wireType) == number % 0x1_0000_0000
    ensures WireType(8 * number + wireType) == wireType
  {}

  function ReadField(s: Bytes): (r: Option<Field>)
    ensures r.Some? ==> Raw(r.value) <= s && 0 < |Raw(r.value)|
  {
    match ReadVarint(s)
    case None => None
    case Some(t) =>
      match ReadPayload(WireType(t.value), s[t.size..])
      case None => None
      case Some(p) =>
        assert s == s[..t.size] + s[t.size..];
        Some(Field(t.value, s[..t.size], p))
  }

  /** What follows the first field. */
  function Tail(s: Bytes): (r: Bytes)
    requires ReadField(s).Some?
    ensures |r| < |s| && s == Raw(ReadField(s).value) + r
  {
    s[|Raw(ReadField(s).value)|..]
  }

  function Fields(s: Bytes): (r: Option<seq<Field>>)
  {
    if s == [] then Some([])
    else if ReadField(s).None? then None
    else match Fields(Tail(s))
      case None => None
      case Some(fs) => Some([ReadField(s).value] + fs)
  }

  /** A field whose raw parts spell its contents. */
  predicate Spells(p: Payload, wireType: nat)
  {
    match p
    case Number(v, raw) => wireType == 0 && ReadVarint(raw) == Some(Read(v, |raw|))
    case Fixed64(body) => wireType == 1 && |body| == 8
    case Delimited(lenRaw, body) => wireType == 2 && ReadVarint(lenRaw) == Some(Read(|body|, |lenRaw|))
    case Fixed32(body) => wireType == 5 && |body| == 4
  }

  predicate WellFormed(f: Field)
  {
    ReadVarint(f.tagRaw) == Some(Read(f.tag, |f.tagRaw|)) && Spells(f.payload, WireType(f.tag))
  }

  lemma ReadOfRaw(raw: Bytes, v: u64, suffix: Bytes)
    requires ReadVarint(raw) == Some(Read(v, |raw|))
    ensures ReadVarint(raw + suffix) == Some(Read(v, |raw|))
  {
    ReadLocal(raw, suffix);
    assert raw[..|raw|] == raw;
  }

  lemma ReadAsRaw(s: Bytes)
    requires ReadVarint(s).Some?
    ensures var d := ReadVarint(s).value; ReadVarint(s[..d.size]) == Some(d)
  {
    var d := ReadVarint(s).value;
    ReadLocal(s, []);
    assert s[..d.size] + [] == s[..d.size];
  }

  lemma ReadPayloadOfRaw(p: Payload, wireType: nat, suffix: Bytes)
    requires Spells(p, wireType)
    ensures ReadPayload(wireType, PayloadRaw(p) + suffix) == Some(p)
  {
    var s := PayloadRaw(p) + suffix;
    match p
    case Number(v, raw) =>
      ReadOfRaw(raw, v, suffix);
      assert s[..|raw|] == raw;
    case Fixed64(body) => assert s[..8] == body;
    case Delimited(lenRaw, body) =>
      assert s == lenRaw + (body + suffix);
      ReadOfRaw(lenRaw, |body|, body + suffix);
      assert s[..|lenRaw|] == lenRaw;
      assert s[|lenRaw|..|lenRaw| + |body|] == body;
    case Fixed32(body) => assert s[..4] == body;
  }

  /** A well-formed field is read back whatever follows it. */
  lemma ReadFieldOfRaw(f: Field, suffix: Bytes)
    requires WellFormed(f)
    ensures ReadField(Raw(f) + suffix) == Some(f) && Tail(Raw(f) + suffix) == suffix
  {
    var s := Raw(f) + suffix;
    assert s == f.tagRaw + (PayloadRaw(f.payload) + suffix);
    ReadOfRaw(f.tagRaw, f.tag, PayloadRaw(f.payload) + suffix);
    assert s[|f.tagRaw|..] == PayloadRaw(f.payload) + suffix;
    assert s[..|f.tagRaw|] == f.tagRaw;
    ReadPayloadOfRaw(f.payload, WireType(f.tag), suffix);
    assert s[|Raw(f)|..] == suffix;
  }

  /** Whatever the scanner reads is well-formed. */
  lemma ReadFieldIsWellFormed(s: Bytes)
    requires ReadField(s).Some?
    ensures WellFormed(ReadField(s).value)
  {
    ReadAsRaw(s);
    var t := ReadVarint(s).value;
    var rest := s[t.size..];
    if WireType(t.value) == 0 || WireType(t.value) == 2 { ReadAsRaw(rest); }
  }

  /** Scanning well-formed fields gives exactly those fields... */
  lemma {:induction false} FieldsOfRawAll(fs: seq<Field>)
    requires forall f <- fs :: WellFormed(f)
    ensures Fields(RawAll(fs)) == Some(fs)
  {
    if fs != [] {
      FieldsOfRawAll(fs[1..]);
      ReadFieldOfRaw(fs[0], RawAll(fs[1..]));
      assert fs == [fs[0]] + fs[1..];
    }
  }

  /** ...and the fields scanned from a message spell that message: Fields and RawAll are mutually inverse. */
  lemma {:induction false} RawAllOfFields(s: Bytes)
    requires Fields(s).Some?
    ensures RawAll(Fields(s).value) == s
    ensures forall f <- Fields(s).value :: WellFormed(f)
    decreases |s|
  {
    if s != [] {
      ReadFieldIsWellFormed(s);
      RawAllOfFields(Tail(s));
      var fs := Fields(s).value;
      assert fs[1..] == Fields(Tail(s)).value;
    }
  }
}
