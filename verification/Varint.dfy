/** Base-128 varints of radxa/aa-proxy/src/mitm.rs (Protocol Buffers "Encoding", section "Base 128 Varints"). */
module Varint {
  import opened Prelude

  /** A decoded number and how many bytes it took. */
  datatype Read = Read(value: nat, size: nat)

  /**
   * The number spelled by the 7-bit groups at the front of s, least significant first, before it is cut to
   * 64 bits.  k groups have been read already; the shift of group k is 7 * k and the reader gives up when the
   * next shift would reach 64, so group 9 is the last one it looks at.
   */
  function Groups(s: Bytes, k: nat): (r: Option<Read>)
    ensures r.Some? ==> 0 < r.value.size <= |s|
  {
    if s == [] then None
    else if s[0] < 0x80 then Some(Read(s[0], 1))
    else if 7 * (k + 1) >= 64 then None
    else
      match Groups(s[1..], k + 1)
      case None => None
      case Some(d) => Some(Read(s[0] - 0x80 + 0x80 * d.value, d.size + 1))
  }

  function ReadVarint(s: Bytes): (r: Option<Read>)
    ensures r.Some? ==> 0 < r.value.size <= |s| && r.value.value < TWO64
  {
    match Groups(s, 0)
    case None => None
    case Some(d) => Some(Read(d.value % TWO64, d.size))
  }

  function WriteVarint(v: nat): (r: Bytes)
    ensures |r| > 0
  {
    if v < 0x80 then [v] else [v % 0x80 + 0x80] + WriteVarint(v / 0x80)
  }

  function VarintLen(v: nat): nat { |WriteVarint(v)| }

  /** 2^(64 - 7k): what still fits into 64 bits when k groups have been written. */
  function Room(k: nat): nat
    requires k <= 9
    decreases 9 - k
  {
    if k == 9 then 2 else 0x80 * Room(k + 1)
  }

  lemma RoomForU64()
    ensures Room(0) == TWO64
  {
    assert Room(8) == 0x100;
    assert Room(6) == 0x40_0000;
    assert Room(4) == 0x10_0000_0000;
    assert Room(2) == 0x4_0000_0000_0000;
  }

  lemma {:induction false} GroupsOfWrite(v: nat, suffix: Bytes, k: nat)
    requires k <= 9 && v < Room(k)
    ensures Groups(WriteVarint(v) + suffix, k) == Some(Read(v, VarintLen(v)))
    ensures VarintLen(v) <= 10 - k
    decreases v
  {
    var s := WriteVarint(v) + suffix;
    if v >= 0x80 {
      GroupsOfWrite(v / 0x80, suffix, k + 1);
      assert s[1..] == WriteVarint(v / 0x80) + suffix;
    }
  }

  /** read_varint inverts write_varint for every u64 and every following byte, and takes at most ten bytes. */
  lemma ReadInvertsWrite(v: u64, suffix: Bytes)
    ensures ReadVarint(WriteVarint(v) + suffix) == Some(Read(v, VarintLen(v)))
    ensures VarintLen(v) <= 10
  {
    RoomForU64();
    GroupsOfWrite(v, suffix, 0);
  }

  lemma {:induction false} GroupsLocal(s: Bytes, k: nat, suffix: Bytes)
    requires Groups(s, k).Some?
    ensures Groups(s[..Groups(s, k).value.size] + suffix, k) == Groups(s, k)
  {
    if s[0] >= 0x80 {
      GroupsLocal(s[1..], k + 1, suffix);
      var n := Groups(s, k).value.size;
      assert (s[..n] + suffix)[1..] == s[1..][..n - 1] + suffix;
    }
  }

  /** Only the bytes a read consumed matter to it. */
  lemma ReadLocal(s: Bytes, suffix: Bytes)
    requires ReadVarint(s).Some?
    ensures ReadVarint(s[..ReadVarint(s).value.size] + suffix) == ReadVarint(s)
  {
    GroupsLocal(s, 0, suffix);
  }

  lemma {:induction false} LenMonotone(a: nat, b: nat)
    requires a <= b
    ensures VarintLen(a) <= VarintLen(b)
    decreases b
  {
    if a >= 0x80 {
      LenMonotone(a / 0x80, b / 0x80);
    }
  }

  lemma {:induction false} GroupsAtLeastMinimal(s: Bytes, k: nat)
    requires Groups(s, k).Some?
    ensures VarintLen(Groups(s, k).value.value) <= Groups(s, k).value.size
  {
    if s[0] >= 0x80 {
      GroupsAtLeastMinimal(s[1..], k + 1);
      var v := Groups(s, k).value.value;
      if v >= 0x80 {
        assert v / 0x80 == Groups(s[1..], k + 1).value.value;
      }
    }
  }

  /** No encoding the reader accepts is shorter than the one the writer produces. */
  lemma WriteIsShortest(s: Bytes)
    requires ReadVarint(s).Some?
    ensures VarintLen(ReadVarint(s).value.value) <= ReadVarint(s).value.size
  {
    GroupsAtLeastMinimal(s, 0);
    LenMonotone(Groups(s, 0).value.value % TWO64, Groups(s, 0).value.value);
  }

  lemma {:induction false} GroupsShape(s: Bytes, k: nat)
    requires k <= 9 && Groups(s, k).Some?
    ensures Groups(s, k).value.size + k <= 10
    ensures forall i | 0 <= i < Groups(s, k).value.size - 1 :: s[i] >= 0x80
  {
    if s[0] >= 0x80 {
      GroupsShape(s[1..], k + 1);
      forall i | 0 < i < Groups(s, k).value.size - 1
        ensures s[i] >= 0x80
      {
        assert s[i] == s[1..][i - 1];
      }
    }
  }

  /** All but the last byte of a number carry the continuation bit, and there are at most ten. */
  lemma ReadShape(s: Bytes)
    requires ReadVarint(s).Some?
    ensures ReadVarint(s).value.size <= 10
    ensures forall i | 0 <= i < ReadVarint(s).value.size - 1 :: s[i] >= 0x80
  {
    GroupsShape(s, 0);
  }

  lemma {:induction false} GroupsContinued(t: Bytes, rest: Bytes, k: nat)
    requires |t| + k <= 9 && forall i | 0 <= i < |t| :: t[i] >= 0x80
    ensures var d := Groups(t + ([1] + rest), k);
      && d.Some? && d.value.size == |t| + 1
      && 0 < d.value.value < 2 * Weight(|t|) && VarintLen(d.value.value) == |t| + 1
    decreases |t|
  {
    var s := t + ([1] + rest);
    if t == [] {
      assert s == [1] + rest;
    } else {
      assert s[1..] == t[1..] + ([1] + rest);
      GroupsContinued(t[1..], rest, k + 1);
      var low, d := t[0] - 0x80, Groups(s[1..], k + 1).value;
      assert Groups(s, k) == Some(Read(low + 0x80 * d.value, d.size + 1));
    }
  }

  /** Continuation bytes closed by a 1 spell a number that needs all of them. */
  lemma ReadContinued(t: Bytes, rest: Bytes)
    requires |t| <= 9 && forall i | 0 <= i < |t| :: t[i] >= 0x80
    ensures var d := ReadVarint(t + ([1] + rest));
      d.Some? && d.value.size == |t| + 1 && VarintLen(d.value.value) == |t| + 1
  {
    GroupsContinued(t, rest, 0);
    WeightGrows(|t|);
    WeightsInU64(9);
  }

  lemma {:induction false} WeightGrows(k: nat)
    requires k <= 9
    ensures Weight(k) <= Weight(9)
    decreases 9 - k
  {
    if k < 9 { WeightGrows(k + 1); }
  }

  /** The example of the Protocol Buffers documentation, and the ends of the one-byte range. */
  lemma Documented()
    ensures WriteVarint(0) == [0x00] && WriteVarint(1) == [0x01] && WriteVarint(127) == [0x7F]
    ensures WriteVarint(128) == [0x80, 0x01] && WriteVarint(150) == [0x96, 0x01] && WriteVarint(300) == [0xAC, 0x02]
  {
    assert WriteVarint(2) == [0x02];
  }

  lemma {:induction false} GroupsFail(s: Bytes, k: nat)
    requires k <= 9
    ensures Groups(s, k) == None <==> forall i | 0 <= i < |s| && i < 10 - k :: s[i] >= 0x80
    decreases |s|
  {
    if |s| > 0 && s[0] >= 0x80 && k < 9 {
      GroupsFail(s[1..], k + 1);
      assert forall i | 0 < i < |s| :: s[i] == s[1..][i - 1];
      assert forall i | 0 <= i < |s| - 1 :: s[1..][i] == s[i + 1];
    }
  }

  /** The reader gives up exactly when none of the first ten bytes ends the number. */
  lemma ReadFails(s: Bytes)
    ensures ReadVarint(s) == None <==> forall i | 0 <= i < |s| && i < 10 :: s[i] >= 0x80
  {
    GroupsFail(s, 0);
  }

  function Empties(n: nat): (r: Bytes)
    ensures |r| == n
  {
    if n == 0 then [] else [0x80] + Empties(n - 1)
  }

  lemma {:induction false} GroupsBehindEmpties(n: nat, b: byte, k: nat)
    requires n + k <= 9 && b < 0x80
    ensures Groups(Empties(n) + [b], k) == Some(Read(b * Weight(n), n + 1))
    decreases n
  {
    var s := Empties(n) + [b];
    if n == 0 {
      assert s == [b];
    } else {
      assert s[1..] == Empties(n - 1) + [b];
      GroupsBehindEmpties(n - 1, b, k + 1);
      assert b * Weight(n) == 0x80 * (b * Weight(n - 1));
    }
  }

  /** Of a tenth byte only the lowest bit is kept. */
  lemma TenthByte(b: byte)
    requires b < 0x80
    ensures ReadVarint(Empties(9) + [b]) == Some(Read(if b % 2 == 1 then 0x8000_0000_0000_0000 else 0, 10))
  {
    GroupsBehindEmpties(9, b, 0);
    WeightsInU64(9);
    SplitGroup(b, Weight(9));
    Wrap(b as nat % 2 * Weight(9), b as nat / 2);
  }

  // ----- the loops -----

  /** 128^k, the weight of group k. */
  function Weight(k: nat): nat
  {
    if k == 0 then 1 else 0x80 * Weight(k - 1)
  }

  lemma WeightsInU64(k: nat)
    requires k <= 9
    ensures k < 9 ==> 0x80 * Weight(k) <= Weight(9)
    ensures 2 * Weight(9) == TWO64
    decreases 9 - k
  {
    assert Weight(2) == 0x4000;
    assert Weight(4) == 0x1000_0000;
    assert Weight(6) == 0x400_0000_0000;
    assert Weight(8) == 0x100_0000_0000_0000;
    if k < 9 { WeightsInU64(k + 1); }
  }

  ghost function After(result: nat, k: nat, rest: Option<Read>): Option<Read>
  {
    match rest
    case None => None
    case Some(d) => Some(Read(result + Weight(k) * d.value, k + d.size))
  }

  lemma AfterStep(result: nat, k: nat, low: nat, rest: Read)
    ensures After(result, k, Some(Read(low + 0x80 * rest.value, rest.size + 1)))
         == After(result + Weight(k) * low, k + 1, Some(rest))
  {
    assert Weight(k) * (low + 0x80 * rest.value) == Weight(k) * low + (0x80 * Weight(k)) * rest.value;
  }

  lemma MulMonotone(a: nat, b: nat, w: nat)
    requires a <= b
    ensures a * w <= b * w
  {}

  lemma Wrap(a: nat, q: nat)
    requires a < TWO64
    ensures (a + q * TWO64) % TWO64 == a
  {}

  /** A group before the last keeps the accumulator below 128^(k+1), inside 64 bits. */
  lemma AccumulateFits(result: nat, k: nat, low: nat)
    requires k < 9 && result < Weight(k) && low < 0x80
    ensures low * Weight(k) < TWO64 && result + low * Weight(k) < Weight(k + 1) <= Weight(9) < TWO64
  {
    WeightsInU64(k);
    WeightsInU64(9);
    MulMonotone(low, 0x7F, Weight(k));
  }

  lemma SplitGroup(low: nat, w: nat)
    requires 2 * w == TWO64
    ensures low * w == low % 2 * w + low / 2 * TWO64
  {
    assert low == low % 2 + 2 * (low / 2);
    assert low * w == low % 2 * w + 2 * (low / 2) * w;
  }

  /** A weight of 2^63 keeps only the lowest bit of a group. */
  lemma AccumulateWraps(result: nat, w: nat, low: nat)
    requires 2 * w == TWO64 && result < w
    ensures result + low * w % TWO64 < TWO64
  {
    SplitGroup(low, w);
    MulMonotone(low % 2, 1, w);
    Wrap(low % 2 * w, low / 2);
  }

  lemma WrapSum(a: nat, b: nat)
    requires a + b % TWO64 < TWO64
    ensures a + b % TWO64 == (a + b) % TWO64
  {
    Wrap(a + b % TWO64, b / TWO64);
  }

  lemma Accumulate(result: nat, w: nat, low: nat)
    requires result + low * w < TWO64 || (2 * w == TWO64 && result < w)
    ensures result + low * w % TWO64 < TWO64
    ensures result + low * w % TWO64 == (result + low * w) % TWO64
  {
    if result + low * w < TWO64 {
      Wrap(low * w, 0);
    } else {
      AccumulateWraps(result, w, low);
    }
    WrapSum(result, low * w);
  }

  /** The 64-bit left shift of a group. */
  function Shifted(group: nat, shift: nat): u64 { group * Power2(shift) % TWO64 }

  lemma ShiftedIsWeighted(group: nat, k: nat)
    ensures Shifted(group, 7 * k) == group * Weight(k) % TWO64
  {
    Power2IsWeight(k);
  }

  /** The number a reader holds after taking one more group. */
  ghost function Next(result: nat, k: nat, group: nat): nat { result + Shifted(group, 7 * k) }

  lemma ReadLast(s: Bytes, result: nat, k: nat)
    requires k <= 9 && result < Weight(k) && s != [] && s[0] < 0x80
    ensures var whole := After(result, k, Groups(s, k));
      whole.Some? && whole.value.size == k + 1 && whole.value.value % TWO64 == Next(result, k, s[0]) < TWO64
  {
    if k == 9 { WeightsInU64(9); } else { AccumulateFits(result, k, s[0]); }
    Accumulate(result, Weight(k), s[0]);
    ShiftedIsWeighted(s[0], k);
    Commute(s[0], Weight(k));
  }

  lemma NextFits(result: nat, k: nat, low: nat)
    requires k < 9 && result < Weight(k) && low < 0x80
    ensures Next(result, k, low) == result + Weight(k) * low < Weight(k + 1) < TWO64
  {
    AccumulateFits(result, k, low);
    ShiftedIsWeighted(low, k);
    Commute(low, Weight(k));
    Wrap(low * Weight(k), 0);
  }

  lemma AfterMore(s: Bytes, result: nat, k: nat)
    requires k < 9 && s != [] && s[0] >= 0x80
    ensures After(result, k, Groups(s, k)) == After(result + Weight(k) * (s[0] - 0x80), k + 1, Groups(s[1..], k + 1))
  {
    var rest := Groups(s[1..], k + 1);
    if rest.Some? {
      assert Groups(s, k) == Some(Read(s[0] - 0x80 + 0x80 * rest.value.value, rest.value.size + 1));
      AfterStep(result, k, s[0] - 0x80, rest.value);
    }
  }

  lemma ReadMore(s: Bytes, result: nat, k: nat)
    requires k < 9 && result < Weight(k) && s != [] && s[0] >= 0x80
    ensures var next := Next(result, k, s[0] - 0x80);
      && next < Weight(k + 1) && next < TWO64
      && After(result, k, Groups(s, k)) == After(next, k + 1, Groups(s[1..], k + 1))
  {
    NextFits(result, k, s[0] - 0x80);
    AfterMore(s, result, k);
  }

  /** The reading loop from its k-th turn on. */
  function Loop(s: Bytes, result: nat, k: nat): Option<Read>
    decreases |s|
  {
    if s == [] then None
    else
      var next := result + Shifted(s[0] % 0x80, 7 * k);
      if s[0] < 0x80 then Some(Read(next, k + 1))
      else if 7 * k + 7 >= 64 then None
      else Loop(s[1..], next, k + 1)
  }

  function Wrapped(d: Option<Read>): Option<Read>
  {
    match d
    case None => None
    case Some(r) => Some(Read(r.value % TWO64, r.size))
  }

  lemma LoopLast(s: Bytes, result: nat, k: nat)
    requires s != [] && s[0] < 0x80
    ensures Loop(s, result, k) == Some(Read(Next(result, k, s[0]), k + 1))
  {
    LowBits(s[0]);
  }

  lemma LoopMore(s: Bytes, result: nat, k: nat)
    requires s != [] && s[0] >= 0x80
    ensures Loop(s, result, k) == if k >= 9 then None else Loop(s[1..], Next(result, k, s[0] - 0x80), k + 1)
  {
    LowBits(s[0]);
  }

  lemma LowBits(b: byte)
    ensures b % 0x80 == if b < 0x80 then b else b - 0x80
  {}

  lemma {:induction false} LoopReads(s: Bytes, result: nat, k: nat)
    requires k <= 9 && result < Weight(k)
    ensures Loop(s, result, k) == Wrapped(After(result, k, Groups(s, k)))
    decreases |s|
  {
    if s != [] {
      if s[0] < 0x80 {
        LoopLast(s, result, k);
        ReadLast(s, result, k);
      } else if k < 9 {
        LoopMore(s, result, k);
        ReadMore(s, result, k);
        LoopReads(s[1..], Next(result, k, s[0] - 0x80), k + 1);
      }
    }
  }

  lemma LoopIsReadVarint(s: Bytes)
    ensures Loop(s, 0, 0) == ReadVarint(s)
  {
    LoopReads(s, 0, 0);
  }

  lemma Commute(a: nat, b: nat)
    ensures a * b == b * a
  {}

  /**
   * read_varint.  Group k is below 2^7 and result is below 2^(7k), so or-ing the shifted group in is an
   * addition; the shift drops whatever leaves the 64 bits, which only group 9 can do.
   */
  method ReadAt(data: Bytes, start: nat) returns (r: Option<u64>, pos: nat)
    requires start <= |data|
    ensures start <= pos <= |data|
    ensures match ReadVarint(data[start..])
            case None => r == None
            case Some(d) => r == Some(d.value) && pos == start + d.size
  {
    LoopIsReadVarint(data[start..]);
    pos := start;
    var result: nat := 0;
    var shift := 0;
    while true
      invariant start <= pos <= |data| && shift == 7 * (pos - start)
      invariant ReadVarint(data[start..]) == Loop(data[pos..], result, pos - start)
      decreases |data| - pos
    {
      if pos >= |data| {
        return None, pos;
      }
      var b := data[pos];
      pos := pos + 1;
      result := result + Shifted(b % 0x80, shift);
      if b < 0x80 {
        return Some(result), pos;
      }
      shift := shift + 7;
      if shift >= 64 {
        return None, pos;
      }
    }
  }

  function Power2(n: nat): nat
  {
    if n == 0 then 1 else 2 * Power2(n - 1)
  }

  lemma Power2IsWeight(k: nat)
    ensures Power2(7 * k) == Weight(k)
  {
    if k > 0 {
      Power2IsWeight(k - 1);
      assert Power2(7 * k) == 2 * Power2(7 * k - 1) == 4 * Power2(7 * k - 2) == 8 * Power2(7 * k - 3);
      assert Power2(7 * k - 3) == 2 * Power2(7 * k - 4) == 4 * Power2(7 * k - 5) == 8 * Power2(7 * k - 6);
    }
  }

  /** write_varint.  Lengths are written through it too, so the value is any natural number. */
  method Append(buf: Bytes, value: nat) returns (out: Bytes)
    ensures out == buf + WriteVarint(value)
  {
    out := buf;
    var v := value;
    while true
      invariant buf + WriteVarint(value) == out + WriteVarint(v)
      decreases v
    {
      if v < 0x80 {
        out := out + [v];
        return;
      }
      out := out + [v % 0x80 + 0x80];
      v := v / 0x80;
    }
  }

  /** encode_varint_len. */
  method EncodedLen(v: u64) returns (n: nat)
    ensures n == VarintLen(v)
  {
    var tmp := Append([], v);
    n := |tmp|;
  }
}
