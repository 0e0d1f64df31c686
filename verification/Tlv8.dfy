/** TLV8 items of the pairing messages: radxa/carplay/airplay/airplay_pair.c. */
module Tlv8 {
  import opened Prelude

  datatype Item = Item(kind: byte, value: Bytes)

  function Chunk(value: Bytes): nat { if |value| > 255 then 255 else |value| }

  function Fragment(kind: byte, bytes: Bytes): (r: Bytes)
    requires |bytes| <= 255
    ensures |r| == 2 + |bytes|
  {
    [kind, |bytes|] + bytes
  }

  // ----- encoding -----

  /** One item: fragments of 255 bytes and a last one, or a single empty fragment. */
  function EncodeItem(kind: byte, value: Bytes): (r: Bytes)
    ensures |r| >= 2
  {
    if |value| <= 255 then Fragment(kind, value)
    else Fragment(kind, value[..255]) + EncodeItem(kind, value[255..])
  }

  /**
   * What tlv8_encode_item leaves in a buffer with `room` free bytes: it stops before the first fragment that does
   * not fit.
   */
  function EncodeInto(kind: byte, value: Bytes, room: int): (r: Bytes)
    ensures room >= 0 ==> |r| <= room
    decreases |value|
  {
    var n := Chunk(value);
    if room < 2 + n then []
    else if |value| <= 255 then Fragment(kind, value)
    else Fragment(kind, value[..n]) + EncodeInto(kind, value[n..], room - 2 - n)
  }

  function CeilDiv255(n: nat): nat { (n + 254) / 255 }

  function Max(a: int, b: int): int { if a < b then b else a }

  /** An item of n bytes takes n + 2 * max(1, ceil(n / 255)) bytes. */
  lemma {:induction false} EncodedSize(kind: byte, value: Bytes)
    ensures |EncodeItem(kind, value)| == |value| + 2 * Max(1, CeilDiv255(|value|))
    decreases |value|
  {
    if |value| > 255 {
      EncodedSize(kind, value[255..]);
      assert CeilDiv255(|value|) == 1 + CeilDiv255(|value| - 255);
    }
  }

  /** The item comes out whole exactly when there is room for it; otherwise a proper prefix does. */
  lemma {:induction false} EncodeIntoIsPrefix(kind: byte, value: Bytes, room: nat)
    ensures EncodeInto(kind, value, room) <= EncodeItem(kind, value)
    ensures EncodeInto(kind, value, room) == EncodeItem(kind, value) <==> |EncodeItem(kind, value)| <= room
    decreases |value|
  {
    if |value| > 255 && room >= 257 {
      EncodeIntoIsPrefix(kind, value[255..], room - 257);
      var head := Fragment(kind, value[..255]);
      assert EncodeInto(kind, value, room) == head + EncodeInto(kind, value[255..], room - 257);
      assert EncodeItem(kind, value) == head + EncodeItem(kind, value[255..]);
    }
  }

  /** What does not fit stops at the last whole fragment of 255 bytes that does. */
  lemma {:induction false} EncodeIntoStops(kind: byte, value: Bytes, room: nat)
    requires room < |EncodeItem(kind, value)|
    ensures |EncodeInto(kind, value, room)| == 257 * (room / 257)
    decreases |value|
  {
    if |value| > 255 && room >= 257 { EncodeIntoStops(kind, value[255..], room - 257); }
  }

  function EncodeAll(items: seq<Item>): Bytes
  {
    if items == [] then [] else EncodeItem(items[0].kind, items[0].value) + EncodeAll(items[1..])
  }

  // ----- decoding -----

  /** Whether a complete fragment stands at the front. */
  predicate Complete(data: Bytes) { |data| >= 2 && 2 + data[1] <= |data| }

  function Value(data: Bytes): Bytes
    requires Complete(data)
  {
    data[2..2 + data[1]]
  }

  function Rest(data: Bytes): (r: Bytes)
    requires Complete(data)
    ensures |r| < |data|
  {
    data[2 + data[1]..]
  }

  /** tlv8_find: the first fragment of the type, unless it is cut short. */
  function Find(data: Bytes, kind: byte): Option<Bytes>
    decreases |data|
  {
    if !Complete(data) then None
    else if data[0] == kind then Some(Value(data))
    else Find(Rest(data), kind)
  }

  /** The fragments tlv8_find_reassemble collects: the first run of consecutive fragments of the type. */
  function Run(data: Bytes, kind: byte, inRun: bool): seq<Bytes>
    decreases |data|
  {
    if !Complete(data) then []
    else if data[0] == kind then [Value(data)] + Run(Rest(data), kind, true)
    else if inRun then []
    else Run(Rest(data), kind, false)
  }

  function Reassemble(data: Bytes, kind: byte): Option<Bytes>
  {
    if Run(data, kind, false) == [] then None else Some(Flatten(Run(data, kind, false)))
  }

  // ----- round trip -----

  /** The values of the items of this type at the front of the list. */
  function LeadingValues(items: seq<Item>, kind: byte): Bytes
  {
    if items == [] || items[0].kind != kind then [] else items[0].value + LeadingValues(items[1..], kind)
  }

  /** The items from the first one of this type on. */
  function From(items: seq<Item>, kind: byte): seq<Item>
  {
    if items == [] || items[0].kind == kind then items else From(items[1..], kind)
  }

  predicate AdjacentDistinct(items: seq<Item>)
  {
    forall i | 0 <= i < |items| - 1 :: items[i].kind != items[i + 1].kind
  }

  lemma FragmentAhead(kind: byte, value: Bytes, suffix: Bytes)
    requires |value| <= 255
    ensures var s := Fragment(kind, value) + suffix;
      Complete(s) && s[0] == kind && Value(s) == value && Rest(s) == suffix
  {}

  /** Another item's fragments are passed over, or end the run. */
  lemma {:induction false} RunSkips(kind: byte, item: Item, suffix: Bytes, inRun: bool)
    requires item.kind != kind
    ensures Run(EncodeItem(item.kind, item.value) + suffix, kind, inRun)
         == if inRun then [] else Run(suffix, kind, false)
    decreases |item.value|
  {
    var v := item.value;
    if |v| <= 255 {
      FragmentAhead(item.kind, v, suffix);
    } else {
      var tail := EncodeItem(item.kind, v[255..]) + suffix;
      assert EncodeItem(item.kind, v) + suffix == Fragment(item.kind, v[..255]) + tail;
      FragmentAhead(item.kind, v[..255], tail);
      RunSkips(kind, Item(item.kind, v[255..]), suffix, inRun);
    }
  }

  lemma FlattenCons(head: Bytes, tail: seq<Bytes>)
    ensures Flatten([head] + tail) == head + Flatten(tail)
  {}

  lemma EncodeLong(kind: byte, value: Bytes, suffix: Bytes)
    requires |value| > 255
    ensures EncodeItem(kind, value) + suffix
         == Fragment(kind, value[..255]) + (EncodeItem(kind, value[255..]) + suffix)
  {}

  lemma Rejoin(value: Bytes, after: Bytes)
    requires |value| > 255
    ensures value[..255] + (value[255..] + after) == value + after
  {}

  lemma RunOfFragment(kind: byte, value: Bytes, suffix: Bytes, inRun: bool)
    requires |value| <= 255
    ensures var run := Run(Fragment(kind, value) + suffix, kind, inRun);
      run != [] && Flatten(run) == value + Flatten(Run(suffix, kind, true))
  {
    FragmentAhead(kind, value, suffix);
    FlattenCons(value, Run(suffix, kind, true));
  }

  /** The item's own fragments join into its value. */
  lemma {:induction false} RunTakes(kind: byte, value: Bytes, suffix: Bytes, inRun: bool)
    ensures Run(EncodeItem(kind, value) + suffix, kind, inRun) != []
    ensures Flatten(Run(EncodeItem(kind, value) + suffix, kind, inRun)) == value + Flatten(Run(suffix, kind, true))
    decreases |value|
  {
    if |value| <= 255 {
      RunOfFragment(kind, value, suffix, inRun);
    } else {
      EncodeLong(kind, value, suffix);
      RunTakes(kind, value[255..], suffix, true);
      RunOfFragment(kind, value[..255], EncodeItem(kind, value[255..]) + suffix, inRun);
      Rejoin(value, Flatten(Run(suffix, kind, true)));
    }
  }

  lemma {:induction false} RunOfLeading(items: seq<Item>, kind: byte)
    ensures Flatten(Run(EncodeAll(items), kind, true)) == LeadingValues(items, kind)
  {
    if items != [] {
      if items[0].kind == kind {
        RunOfLeading(items[1..], kind);
        RunTakes(kind, items[0].value, EncodeAll(items[1..]), true);
      } else {
        RunSkips(kind, items[0], EncodeAll(items[1..]), true);
      }
    }
  }

  /**
   * Reassembly of an encoded list gives the values of the first run of items of the type, joined; whatever the
   * sizes and the neighbours.
   */
  lemma {:induction false} ReassembleOfEncode(items: seq<Item>, kind: byte)
    ensures Reassemble(EncodeAll(items), kind)
      == if From(items, kind) == [] then None else Some(LeadingValues(From(items, kind), kind))
  {
    if items != [] {
      if items[0].kind == kind {
        RunOfLeading(items[1..], kind);
        RunTakes(kind, items[0].value, EncodeAll(items[1..]), false);
      } else {
        ReassembleOfEncode(items[1..], kind);
        RunSkips(kind, items[0], EncodeAll(items[1..]), false);
      }
    }
  }

  /**
   * The first item of the type comes back whole exactly when the items of the same type directly behind it are
   * empty, as they are when adjacent types differ.
   */
  lemma RoundTrip(items: seq<Item>, kind: byte)
    requires From(items, kind) != []
    ensures var first, behind := From(items, kind)[0], From(items, kind)[1..];
      && first.kind == kind
      && (Reassemble(EncodeAll(items), kind) == Some(first.value) <==> LeadingValues(behind, kind) == [])
      && (AdjacentDistinct(items) ==> Reassemble(EncodeAll(items), kind) == Some(first.value))
  {
    ReassembleOfEncode(items, kind);
    FromKeepsOrder(items, kind);
    var first, rest := From(items, kind)[0], LeadingValues(From(items, kind)[1..], kind);
    assert first.value + rest == first.value <==> rest == [] by {
      if rest != [] { assert |first.value + rest| > |first.value|; }
    }
  }

  lemma {:induction false} FromKeepsOrder(items: seq<Item>, kind: byte)
    ensures From(items, kind) != [] ==> From(items, kind)[0].kind == kind
    ensures AdjacentDistinct(items) ==> AdjacentDistinct(From(items, kind))
  {
    if items != [] && items[0].kind != kind {
      FromKeepsOrder(items[1..], kind);
      if AdjacentDistinct(items) {
        forall i | 0 <= i < |items| - 2
          ensures items[1..][i].kind != items[1..][i + 1].kind
        {
          assert items[i + 1].kind != items[i + 2].kind;
        }
      }
    }
  }

  lemma {:induction false} FindSkips(kind: byte, item: Item, suffix: Bytes)
    requires item.kind != kind
    ensures Find(EncodeItem(item.kind, item.value) + suffix, kind) == Find(suffix, kind)
    decreases |item.value|
  {
    var v := item.value;
    if |v| <= 255 {
      FragmentAhead(item.kind, v, suffix);
    } else {
      var tail := EncodeItem(item.kind, v[255..]) + suffix;
      assert EncodeItem(item.kind, v) + suffix == Fragment(item.kind, v[..255]) + tail;
      FragmentAhead(item.kind, v[..255], tail);
      FindSkips(kind, Item(item.kind, v[255..]), suffix);
    }
  }

  /** tlv8_find sees at most the first 255 bytes of the first item of the type. */
  lemma {:induction false} FindOfEncode(items: seq<Item>, kind: byte)
    ensures Find(EncodeAll(items), kind)
      == if From(items, kind) == [] then None else Some(From(items, kind)[0].value[..Chunk(From(items, kind)[0].value)])
  {
    if items != [] {
      var v, suffix := items[0].value, EncodeAll(items[1..]);
      if items[0].kind != kind {
        FindOfEncode(items[1..], kind);
        FindSkips(kind, items[0], suffix);
      } else if |v| <= 255 {
        FragmentAhead(kind, v, suffix);
        assert v[..|v|] == v;
      } else {
        var tail := EncodeItem(kind, v[255..]) + suffix;
        assert EncodeItem(kind, v) + suffix == Fragment(kind, v[..255]) + tail;
        FragmentAhead(kind, v[..255], tail);
      }
    }
  }

  // ----- malformed input -----

  /** Whole fragments and nothing else. */
  predicate Framed(data: Bytes)
    decreases |data|
  {
    data == [] || (Complete(data) && Framed(Rest(data)))
  }

  /** Every input is whole fragments and a tail that is none: nothing, a lone byte or a fragment cut short. */
  lemma {:induction false} FramedFront(data: Bytes) returns (front: Bytes, tail: Bytes)
    ensures data == front + tail && Framed(front) && !Complete(tail)
    decreases |data|
  {
    if !Complete(data) {
      front, tail := [], data;
    } else {
      var first := Fragment(data[0], Value(data));
      var rest, end := FramedFront(Rest(data));
      front, tail := first + rest, end;
      assert data == first + Rest(data);
      FragmentAhead(data[0], Value(data), rest);
    }
  }

  /** A tail that is no whole fragment is ignored, whatever type and length it declares. */
  lemma {:induction false} TailIgnored(front: Bytes, tail: Bytes, kind: byte, inRun: bool)
    requires Framed(front) && !Complete(tail)
    ensures Find(front + tail, kind) == Find(front, kind)
    ensures Run(front + tail, kind, inRun) == Run(front, kind, inRun)
    decreases |front|
  {
    if |front| == 0 {
      assert front + tail == tail;
    } else {
      var data := front + tail;
      assert Complete(data) && data[0] == front[0] && Value(data) == Value(front) && Rest(data) == Rest(front) + tail;
      TailIgnored(Rest(front), tail, kind, true);
      TailIgnored(Rest(front), tail, kind, false);
    }
  }

  // ----- the pair-setup M2 message -----

  const STATE: byte := 0x06
  const SALT: byte := 0x02
  const PUBLIC_KEY: byte := 0x03

  lemma FromSkips(item: Item, rest: seq<Item>, kind: byte)
    ensures item.kind != kind ==> From([item] + rest, kind) == From(rest, kind)
  {
    assert ([item] + rest)[1..] == rest;
  }

  lemma SetupReplyBytes(salt: Bytes, B: Bytes)
    requires |salt| == 16 && |B| == 384
    ensures EncodeAll([Item(STATE, [2]), Item(SALT, salt), Item(PUBLIC_KEY, B)])
         == [6, 1, 2] + ([2, 16] + salt + ([3, 255] + B[..255] + ([3, 129] + B[255..])))
  {
    var items := [Item(STATE, [2]), Item(SALT, salt), Item(PUBLIC_KEY, B)];
    var key := [items[2]];
    assert items[1..] == [items[1]] + key && items[1..][1..] == key && key[1..] == [];
    assert EncodeItem(STATE, [2]) == [6, 1, 2] && EncodeItem(SALT, salt) == [2, 16] + salt;
    assert EncodeItem(PUBLIC_KEY, B) == [3, 255] + B[..255] + ([3, 129] + B[255..]);
    assert EncodeAll(key) == EncodeItem(PUBLIC_KEY, B) + [];
    assert EncodeAll(items[1..]) == EncodeItem(SALT, salt) + EncodeAll(key);
  }

  /** The reply to M1 fits its 4096-byte buffer, and the phone reads back state, salt and all 384 bytes of B. */
  lemma SetupReply(salt: Bytes, B: Bytes)
    requires |salt| == 16 && |B| == 384
    ensures var reply := EncodeAll([Item(STATE, [2]), Item(SALT, salt), Item(PUBLIC_KEY, B)]);
      && |reply| == 409
      && reply == [6, 1, 2] + ([2, 16] + salt + ([3, 255] + B[..255] + ([3, 129] + B[255..])))
      && Find(reply, STATE) == Some([2])
      && Reassemble(reply, SALT) == Some(salt)
      && Reassemble(reply, PUBLIC_KEY) == Some(B)
  {
    var items := [Item(STATE, [2]), Item(SALT, salt), Item(PUBLIC_KEY, B)];
    var (state, public) := (items[0], items[2]);
    assert items == [state] + items[1..] && items[1..] == [items[1]] + [public];
    assert EncodeAll([public]) == EncodeItem(PUBLIC_KEY, B) + [];
    assert EncodeAll(items[1..]) == EncodeItem(SALT, salt) + EncodeAll([public]);
    EncodedSize(STATE, [2]);
    EncodedSize(SALT, salt);
    EncodedSize(PUBLIC_KEY, B);
    FromSkips(state, items[1..], SALT);
    FromSkips(state, items[1..], PUBLIC_KEY);
    FromSkips(items[1], [public], PUBLIC_KEY);
    FindOfEncode(items, STATE);
    RoundTrip(items, SALT);
    RoundTrip(items, PUBLIC_KEY);
    SetupReplyBytes(salt, B);
  }

  // ----- the loops -----

  /** What the loop still has to write of `rest` when `room` bytes are free. */
  ghost function Remaining(kind: byte, rest: Bytes, started: bool, room: nat): Bytes
  {
    if rest != [] || !started then EncodeInto(kind, rest, room) else []
  }

  /** One turn: a fragment of `bytes`, after which `later` and `room'` are left. */
  lemma RemainingStep(
    done: Bytes, kind: byte, rest: Bytes, started: bool, room: nat, bytes: Bytes, later: Bytes, room': nat)
    requires (started ==> rest != []) && bytes == rest[..Chunk(rest)] && later == rest[Chunk(rest)..]
    requires room == room' + 2 + |bytes|
    ensures done + Remaining(kind, rest, started, room)
         == done + Fragment(kind, bytes) + Remaining(kind, later, true, room')
  {}

  lemma NoRoom(done: Bytes, kind: byte, rest: Bytes, started: bool, room: nat)
    requires room < 2 + Chunk(rest)
    ensures done + Remaining(kind, rest, started, room) == done
  {
    assert done + [] == done;
  }

  /** The buffer once `done` has been written at `at`. */
  ghost function Layout(was: Bytes, at: nat, done: Bytes): Bytes
    requires at + |done| <= |was|
  {
    was[..at] + done + was[at + |done|..]
  }

  lemma Splice(was: Bytes, at: nat, done: Bytes, fragment: Bytes)
    requires at + |done| + |fragment| <= |was|
    ensures var before, k := Layout(was, at, done), at + |done|;
      before[..k] + fragment + before[k + |fragment|..] == Layout(was, at, done + fragment)
  {}

  /** One fragment, copied in place. */
  method PutFragment(buf: array<byte>, k: nat, kind: byte, bytes: Bytes)
    requires |bytes| <= 255 && k + 2 + |bytes| <= buf.Length
    modifies buf
    ensures buf[..] == old(buf[..])[..k] + Fragment(kind, bytes) + old(buf[..])[k + 2 + |bytes|..]
  {
    buf[k], buf[k + 1] := kind, |bytes|;
    forall i | 0 <= i < |bytes| {
      buf[k + 2 + i] := bytes[i];
    }
  }

  method WriteFragment(
    buf: array<byte>, at: nat, ghost was: Bytes, ghost done: Bytes, written: nat, kind: byte, bytes: Bytes)
    requires |bytes| <= 255 && written == |done| && |was| == buf.Length
    requires at + written + 2 + |bytes| <= buf.Length
    requires buf[..] == Layout(was, at, done)
    modifies buf
    ensures buf[..] == Layout(was, at, done + Fragment(kind, bytes))
  {
    Splice(was, at, done, Fragment(kind, bytes));
    PutFragment(buf, at + written, kind, bytes);
  }

  /** tlv8_encode_item writing at buf + at, with cap bytes allowed. */
  method Encode(buf: array<byte>, at: nat, cap: nat, kind: byte, value: Bytes) returns (written: nat)
    requires at + cap <= buf.Length
    modifies buf
    ensures written == |EncodeInto(kind, value, cap)|
    ensures buf[..] == old(buf[..at]) + EncodeInto(kind, value, cap) + old(buf[at + written..])
  {
    written := 0;
    var rest := value;
    ghost var was, whole := buf[..], EncodeInto(kind, value, cap);
    ghost var done: Bytes := [];
    assert [] + whole == whole;
    while rest != [] || written == 0
      invariant written == |done| <= cap
      invariant whole == done + Remaining(kind, rest, written > 0, cap - written)
      invariant buf[..] == Layout(was, at, done)
      decreases |rest|, written == 0
    {
      var chunk := Chunk(rest);
      if cap < written + 2 + chunk {
        NoRoom(done, kind, rest, written > 0, cap - written);
        return;
      }
      var bytes, later := rest[..chunk], rest[chunk..];
      RemainingStep(done, kind, rest, written > 0, cap - written, bytes, later, cap - (written + 2 + chunk));
      WriteFragment(buf, at, was, done, written, kind, bytes);
      done := done + Fragment(kind, bytes);
      written := written + 2 + chunk;
      rest := later;
    }
    assert done + [] == done;
  }

  /** tlv8_find. */
  method FindFirst(data: Bytes, kind: byte) returns (r: Option<Bytes>)
    ensures r == Find(data, kind)
  {
    var i := 0;
    while i + 2 <= |data|
      invariant i <= |data| ==> Find(data, kind) == Find(data[i..], kind)
      invariant i > |data| ==> Find(data, kind) == None
      decreases |data| - i
    {
      var t, l := data[i], data[i + 1];
      if t == kind {
        if i + 2 + l > |data| {
          return None;
        }
        assert data[i..][2..2 + l] == data[i + 2..i + 2 + l];
        return Some(data[i + 2..i + 2 + l]);
      }
      i := i + 2 + l;
    }
    return None;
  }

  /** How many bytes the fragments of a run hold. */
  function Total(run: seq<Bytes>): nat
  {
    if run == [] then 0 else |run[0]| + Total(run[1..])
  }

  lemma {:induction false} TotalIsLength(run: seq<Bytes>)
    ensures Total(run) == |Flatten(run)|
  {
    if run != [] { TotalIsLength(run[1..]); }
  }

  /** The first pass of tlv8_find_reassemble: whether the type occurs, and how long its first run is. */
  method CountRun(data: Bytes, kind: byte) returns (found: bool, total: nat)
    ensures found <==> Run(data, kind, false) != []
    ensures total == Total(Run(data, kind, false))
  {
    found, total := false, 0;
    var inRun := false;
    var i := 0;
    ghost var run := Run(data, kind, false);
    assert data[0..] == data;
    while i + 2 <= |data|
      invariant i <= |data| && inRun == found
      invariant Total(run) == total + Total(Run(data[i..], kind, inRun))
      invariant found ==> run != []
      invariant !found ==> run == Run(data[i..], kind, false)
      decreases |data| - i
    {
      var t, l := data[i], data[i + 1];
      if i + 2 + l > |data| {
        break;
      }
      assert Rest(data[i..]) == data[i + 2 + l..];
      if t == kind {
        found, inRun := true, true;
        total := total + l;
      } else if inRun {
        break;
      }
      i := i + 2 + l;
    }
  }

  method CopyAt(buf: array<byte>, off: nat, bytes: Bytes)
    requires off + |bytes| <= buf.Length
    modifies buf
    ensures buf[..off + |bytes|] == old(buf[..off]) + bytes
  {
    forall j | 0 <= j < |bytes| {
      buf[off + j] := bytes[j];
    }
  }

  /** One turn of the copying pass, on the fragment at the front of what is left. */
  lemma CopyStep(copied: Bytes, rest: Bytes, kind: byte, inRun: bool)
    requires Complete(rest) && rest[0] == kind
    ensures copied + Flatten(Run(rest, kind, inRun)) == copied + Value(rest) + Flatten(Run(Rest(rest), kind, true))
  {
    FlattenCons(Value(rest), Run(Rest(rest), kind, true));
  }

  /**
   * The second pass, into a buffer of exactly the size the first pass counted: no copy leaves it and none of it
   * stays unwritten, whatever the input.  `rest` is the input from index i on.
   */
  method CopyRun(data: Bytes, kind: byte, buf: array<byte>)
    requires buf.Length == |Flatten(Run(data, kind, false))|
    modifies buf
    ensures buf[..] == Flatten(Run(data, kind, false))
  {
    var off: nat := 0;
    var inRun := false;
    var rest := data;
    ghost var value, copied: Bytes := Flatten(Run(data, kind, false)), [];
    assert [] + value == value;
    while |rest| >= 2
      invariant off == |copied| <= buf.Length && buf[..off] == copied
      invariant value == copied + Flatten(Run(rest, kind, inRun))
      decreases |rest|
    {
      if !Complete(rest) {
        break;
      }
      if rest[0] == kind {
        CopyStep(copied, rest, kind, inRun);
        inRun := true;
        CopyAt(buf, off, Value(rest));
        copied := copied + Value(rest);
        off := off + |Value(rest)|;
      } else if inRun {
        break;
      }
      rest := Rest(rest);
    }
    assert Run(rest, kind, inRun) == [];
    assert copied + [] == copied && buf[..off] == buf[..];
  }

  /** tlv8_find_reassemble. */
  method FindReassemble(data: Bytes, kind: byte) returns (r: Option<array<byte>>)
    ensures r.Some? <==> Reassemble(data, kind).Some?
    ensures r.Some? ==> fresh(r.value) && r.value[..] == Reassemble(data, kind).value
  {
    var found, total := CountRun(data, kind);
    if !found {
      return None;
    }
    TotalIsLength(Run(data, kind, false));
    var buf := new byte[total];
    CopyRun(data, kind, buf);
    r := Some(buf);
  }
}
