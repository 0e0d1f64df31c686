/** Machine integers, options and the few sequence facts every component shares. */
module Prelude {

  datatype Option<+T> = None | Some(value: T)

  const TWO32: int := 0x1_0000_0000
  const TWO64: int := 0x1_0000_0000_0000_0000

  type byte = b: int | 0 <= b < 0x100
  type u16 = n: int | 0 <= n < 0x1_0000
  type u32 = n: int | 0 <= n < 0x1_0000_0000
  type u64 = n: int | 0 <= n < 0x1_0000_0000_0000_0000

  type Bytes = seq<byte>

  /** The concatenation of a list of pieces. */
  function Flatten<T>(parts: seq<seq<T>>): seq<T>
  {
    if parts == [] then [] else parts[0] + Flatten(parts[1..])
  }

  lemma {:induction false} FlattenAppend<T>(a: seq<seq<T>>, b: seq<seq<T>>)
    ensures Flatten(a + b) == Flatten(a) + Flatten(b)
  {
    if a == [] {
      assert a + b == b;
    } else {
      assert (a + b)[0] == a[0] && (a + b)[1..] == a[1..] + b;
      FlattenAppend(a[1..], b);
    }
  }
}

/** Big-endian numbers: the order every header in this system uses. */
module BigEndian {
  import opened Prelude

  function Limit(n: nat): (r: nat)
  {
    if n == 0 then 1 else 256 * Limit(n - 1)
  }

  function Decode(s: Bytes): (r: nat)
    ensures r < Limit(|s|)
  {
    if s == [] then 0 else 256 * Decode(s[..|s| - 1]) + s[|s| - 1]
  }

  function Encode(v: nat, n: nat): (r: Bytes)
    ensures |r| == n
  {
    if n == 0 then [] else Encode(v / 256, n - 1) + [v % 256]
  }

  lemma {:induction false} DecodeEncode(v: nat, n: nat)
    requires v < Limit(n)
    ensures Decode(Encode(v, n)) == v
  {
    if n > 0 {
      DecodeEncode(v / 256, n - 1);
      assert Encode(v, n)[..n - 1] == Encode(v / 256, n - 1);
    }
  }

  /** The most significant byte comes first. */
  lemma EncodeTwo(v: u16)
    ensures v / 256 < 256 && Encode(v, 2) == [v / 256, v % 256]
  {
    assert v / 256 / 256 == 0;
    assert Encode(v / 256, 1) == [] + [v / 256 % 256];
  }

  lemma EncodeFour(v: u16)
    ensures v / 256 < 256 && Encode(v, 4) == [0, 0, v / 256, v % 256]
  {
    assert v / 256 / 256 == 0;
    assert Encode(0, 1) == [] + [0] && Encode(0, 2) == [0] + [0];
    assert Encode(v / 256, 3) == [0, 0] + [v / 256 % 256];
  }

  lemma DecodeTwo(high: byte, low: byte)
    ensures Decode([high, low]) == high as nat * 256 + low
  {
    assert [high, low][..1] == [high] && [high][..0] == [];
    assert Decode([high]) == 256 * Decode([]) + high;
  }
}
