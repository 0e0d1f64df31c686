/** Splitting and per-channel reassembly in the compositor: radxa/compositor/src/fragmentation.c. */
module Fragmentation {
  import opened Prelude

  const MAX_MESSAGE: nat := 524288
  const MAX_CHANNELS: nat := 16
  const SPLIT_SIZE: nat := 16384

  const SINGLE: byte := 0x08
  const FIRST: byte := 0x09
  const CONT: byte := 0x0A
  const LAST: byte := 0x0B

  datatype Fragment = Fragment(flags: byte, data: Bytes)

  // ----- splitting -----

  function SplitRest(data: Bytes): seq<Fragment>
  {
    if |data| <= SPLIT_SIZE then [Fragment(LAST, data)]
    else [Fragment(CONT, data[..SPLIT_SIZE])] + SplitRest(data[SPLIT_SIZE..])
  }

  function Split(data: Bytes): seq<Fragment>
  {
    if |data| <= SPLIT_SIZE then [Fragment(SINGLE, data)]
    else [Fragment(FIRST, data[..SPLIT_SIZE])] + SplitRest(data[SPLIT_SIZE..])
  }

  // ----- one channel -----

  datatype Result = Error | Pending | Complete(message: Bytes)

  /** What frag_submit answers and what the channel holds afterwards, given what it held: `None` when idle. */
  function Submit(held: Option<Bytes>, f: Fragment): (Result, Option<Bytes>)
  {
    if f.flags == SINGLE then (Complete(f.data), None)
    else if f.flags == FIRST then
      if |f.data| > MAX_MESSAGE then (Error, None) else (Pending, Some(f.data))
    else if f.flags == CONT || f.flags == LAST then
      if held == None || |held.value| + |f.data| > MAX_MESSAGE then (Error, None)
      else if f.flags == CONT then (Pending, Some(held.value + f.data))
      else (Complete(held.value + f.data), None)
    else (Error, held)
  }

  function Message(r: Result): seq<Bytes>
  {
    if r.Complete? then [r.message] else []
  }

  /** The messages one channel delivers from a sequence of fragments, and what it holds in the end. */
  function Feed(held: Option<Bytes>, fs: seq<Fragment>): (seq<Bytes>, Option<Bytes>)
    decreases |fs|
  {
    if fs == [] then ([], held)
    else
      var (r, next) := Submit(held, fs[0]);
      var (later, end) := Feed(next, fs[1..]);
      (Message(r) + later, end)
  }

  lemma FeedCons(held: Option<Bytes>, f: Fragment, fs: seq<Fragment>)
    ensures var (r, next) := Submit(held, f);
      && Feed(held, [f] + fs) == (Message(r) + Feed(next, fs).0, Feed(next, fs).1)
      && (!r.Complete? ==> Feed(held, [f] + fs) == Feed(next, fs))
  {
    assert ([f] + fs)[1..] == fs;
    var later := Feed(Submit(held, f).1, fs).0;
    assert [] + later == later;
  }

  lemma FeedOne(held: Option<Bytes>, f: Fragment)
    ensures var (r, next) := Submit(held, f); Feed(held, [f]) == (Message(r), next)
  {
    FeedCons(held, f, []);
    assert [f] + [] == [f];
    assert Message(Submit(held, f).0) + [] == Message(Submit(held, f).0);
  }

  lemma {:induction false} FeedAppend(held: Option<Bytes>, a: seq<Fragment>, b: seq<Fragment>)
    ensures Feed(held, a + b) == (Feed(held, a).0 + Feed(Feed(held, a).1, b).0, Feed(Feed(held, a).1, b).1)
    decreases |a|
  {
    if a == [] {
      assert a + b == b && [] + Feed(held, b).0 == Feed(held, b).0;
    } else {
      var (r, next) := Submit(held, a[0]);
      assert a + b == [a[0]] + (a[1..] + b) && a == [a[0]] + a[1..];
      FeedCons(held, a[0], a[1..] + b);
      FeedCons(held, a[0], a[1..]);
      FeedAppend(next, a[1..], b);
      Associate(Message(r), Feed(next, a[1..]).0, Feed(Feed(next, a[1..]).1, b).0);
    }
  }

  lemma Associate(a: seq<Bytes>, b: seq<Bytes>, c: seq<Bytes>)
    ensures a + (b + c) == a + b + c
  {}

  /** The fragments after the first complete the message if it still fits, and leave nothing behind either way. */
  lemma {:induction false} FeedRest(held: Option<Bytes>, data: Bytes)
    ensures Feed(held, SplitRest(data))
      == (if held.Some? && |held.value| + |data| <= MAX_MESSAGE then [held.value + data] else [], None)
    decreases |data|
  {
    if |data| <= SPLIT_SIZE {
      FeedOne(held, Fragment(LAST, data));
    } else {
      var head, tail := data[..SPLIT_SIZE], data[SPLIT_SIZE..];
      FeedCons(held, Fragment(CONT, head), SplitRest(tail));
      FeedRest(Submit(held, Fragment(CONT, head)).1, tail);
      if held.Some? { assert held.value + head + tail == held.value + data; }
    }
  }

  /** The messages a channel can deliver. */
  function Deliverable(ms: seq<Bytes>): seq<Bytes>
  {
    if ms == [] then []
    else (if |ms[0]| <= MAX_MESSAGE then [ms[0]] else []) + Deliverable(ms[1..])
  }

  /**
   * Whatever a channel held, the fragments of one message deliver exactly that message if it is at most
   * 512 KiB and nothing otherwise, and leave the channel idle.
   */
  lemma FeedSplit(held: Option<Bytes>, m: Bytes)
    ensures Feed(held, Split(m)) == (if |m| <= MAX_MESSAGE then [m] else [], None)
  {
    if |m| <= SPLIT_SIZE {
      FeedOne(held, Fragment(SINGLE, m));
    } else {
      var head, tail := m[..SPLIT_SIZE], m[SPLIT_SIZE..];
      FeedCons(held, Fragment(FIRST, head), SplitRest(tail));
      FeedRest(Some(head), tail);
      assert head + tail == m;
    }
  }

  function SplitAll(ms: seq<Bytes>): seq<Fragment>
  {
    if ms == [] then [] else Split(ms[0]) + SplitAll(ms[1..])
  }

  lemma {:induction false} FeedSplitAll(held: Option<Bytes>, ms: seq<Bytes>)
    ensures Feed(held, SplitAll(ms)).0 == Deliverable(ms)
    ensures ms != [] ==> Feed(held, SplitAll(ms)).1 == None
    decreases |ms|
  {
    if ms != [] {
      FeedSplit(held, ms[0]);
      FeedAppend(held, Split(ms[0]), SplitAll(ms[1..]));
      FeedSplitAll(None, ms[1..]);
    }
  }

  // ----- what the flags are, and what is refused -----

  function PieceCount(size: nat): nat { if size == 0 then 1 else (size + 16383) / 16384 }

  lemma {:induction false} LaterPieces(data: Bytes, i: nat)
    requires i < |SplitRest(data)|
    ensures |data| > 0 ==> |SplitRest(data)| == PieceCount(|data|)
    ensures var f := SplitRest(data)[i];
      if i < |SplitRest(data)| - 1 then f.flags == 0x0A && |f.data| == 16384 else f.flags == 0x0B
    decreases |data|
  {
    if |data| > SPLIT_SIZE {
      var rest := data[SPLIT_SIZE..];
      if i > 0 { LaterPieces(rest, i - 1); } else { LaterPieces(rest, 0); }
    }
  }

  lemma {:induction false} JoinedRest(data: Bytes)
    ensures Flatten(DataOf(SplitRest(data))) == data
    decreases |data|
  {
    if |data| > SPLIT_SIZE {
      JoinedRest(data[SPLIT_SIZE..]);
      assert SplitRest(data)[1..] == SplitRest(data[SPLIT_SIZE..]);
    } else {
      assert SplitRest(data)[1..] == [] && data + [] == data;
    }
  }

  function DataOf(fs: seq<Fragment>): seq<Bytes>
  {
    if fs == [] then [] else [fs[0].data] + DataOf(fs[1..])
  }

  /**
   * A message is split into ceil(n / 16384) pieces, full ones but for the last, that join to it: a single one is
   * marked 08, else the first 09, the last 0B and those between them 0A.
   */
  lemma PiecesOfMessage(data: Bytes, i: nat)
    requires i < |Split(data)|
    ensures |Split(data)| == PieceCount(|data|) && Flatten(DataOf(Split(data))) == data
    ensures var f, n := Split(data)[i], |Split(data)|;
      && f.flags == (if n == 1 then 0x08 else if i == 0 then 0x09 else if i == n - 1 then 0x0B else 0x0A)
      && (i < n - 1 ==> |f.data| == 16384)
  {
    if |data| > SPLIT_SIZE {
      var rest := data[SPLIT_SIZE..];
      LaterPieces(rest, if i > 0 then i - 1 else 0);
      JoinedRest(rest);
      assert Split(data)[1..] == SplitRest(rest);
      assert data[..SPLIT_SIZE] + rest == data;
    } else {
      assert Split(data)[1..] == [] && data + [] == data;
    }
  }

  /**
   * A continuation without a first piece is an error, and so is a piece that makes the message longer than 512 KiB;
   * both leave the channel idle.  Unknown flags are an error that leaves it as it is.
   */
  lemma Refused(held: Option<Bytes>, data: Bytes, flags: byte)
    ensures flags == 0x0A || flags == 0x0B ==>
      (Submit(held, Fragment(flags, data)) == (Error, None) <==> held == None || |held.value| + |data| > 524288)
    ensures Submit(held, Fragment(0x09, data)) == (Error, None) <==> |data| > 524288
    ensures flags < 0x08 || flags > 0x0B ==> Submit(held, Fragment(flags, data)) == (Error, held)
  {}

  // ----- all channels -----

  datatype Arrival = Arrival(channel: byte, fragment: Fragment)

  datatype Delivery = Delivery(channel: byte, message: Bytes)

  /** What every channel holds. */
  type Channels = s: seq<Option<Bytes>> | |s| == MAX_CHANNELS witness seq(MAX_CHANNELS, i => None)

  function SubmitTo(held: Channels, a: Arrival): (Result, Channels)
  {
    if a.channel >= MAX_CHANNELS then (Error, held)
    else
      var (r, next) := Submit(held[a.channel], a.fragment);
      (r, held[a.channel := next])
  }

  /** A channel number of 16 or more is refused and touches nothing. */
  lemma NoSuchChannel(held: Channels, a: Arrival)
    ensures SubmitTo(held, a) == (Error, held) || a.channel < 16
  {}

  function DeliveriesOf(channel: byte, r: Result): seq<Delivery>
  {
    if r.Complete? then [Delivery(channel, r.message)] else []
  }

  function Run(held: Channels, arrivals: seq<Arrival>): (seq<Delivery>, Channels)
    decreases |arrivals|
  {
    if arrivals == [] then ([], held)
    else
      var (r, next) := SubmitTo(held, arrivals[0]);
      var (later, end) := Run(next, arrivals[1..]);
      (DeliveriesOf(arrivals[0].channel, r) + later, end)
  }

  function OnChannel(arrivals: seq<Arrival>, c: byte): seq<Fragment>
  {
    if arrivals == [] then []
    else (if arrivals[0].channel == c then [arrivals[0].fragment] else []) + OnChannel(arrivals[1..], c)
  }

  function DeliveredOn(ds: seq<Delivery>, c: byte): seq<Bytes>
  {
    if ds == [] then []
    else (if ds[0].channel == c then [ds[0].message] else []) + DeliveredOn(ds[1..], c)
  }

  lemma DeliveredFirst(channel: byte, r: Result, later: seq<Delivery>, c: byte)
    ensures DeliveredOn(DeliveriesOf(channel, r) + later, c)
         == (if channel == c then Message(r) else []) + DeliveredOn(later, c)
  {
    if r.Complete? {
      assert (DeliveriesOf(channel, r) + later)[1..] == later;
    } else {
      assert DeliveriesOf(channel, r) + later == later;
    }
  }

  /** Each channel behaves as if it were alone. */
  lemma {:induction false} ChannelsAreIndependent(held: Channels, arrivals: seq<Arrival>, c: byte)
    requires c < MAX_CHANNELS
    ensures var (ds, end) := Run(held, arrivals);
      (DeliveredOn(ds, c), end[c]) == Feed(held[c], OnChannel(arrivals, c))
    decreases |arrivals|
  {
    if arrivals != [] {
      var a, rest := arrivals[0], arrivals[1..];
      var (r, next) := SubmitTo(held, a);
      ChannelsAreIndependent(next, rest, c);
      DeliveredFirst(a.channel, r, Run(next, rest).0, c);
      if a.channel == c {
        FeedCons(held[c], a.fragment, OnChannel(rest, c));
      } else {
        assert next[c] == held[c];
        assert [] + OnChannel(rest, c) == OnChannel(rest, c);
        assert [] + DeliveredOn(Run(next, rest).0, c) == DeliveredOn(Run(next, rest).0, c);
      }
    }
  }

  /**
   * Any interleaving with other channels, from any state left by earlier traffic: a channel whose arrivals are
   * the fragments of a list of messages delivers those of at most 512 KiB, once each, in order and unchanged.
   */
  lemma InterleavedReassembly(held: Channels, arrivals: seq<Arrival>, c: byte, ms: seq<Bytes>)
    requires c < MAX_CHANNELS && OnChannel(arrivals, c) == SplitAll(ms)
    ensures DeliveredOn(Run(held, arrivals).0, c) == Deliverable(ms)
    ensures (forall m <- ms :: |m| <= MAX_MESSAGE) ==> DeliveredOn(Run(held, arrivals).0, c) == ms
    ensures ms != [] ==> Run(held, arrivals).1[c] == None
  {
    ChannelsAreIndependent(held, arrivals, c);
    FeedSplitAll(held[c], ms);
    if forall m <- ms :: |m| <= MAX_MESSAGE { AllDeliverable(ms); }
  }

  lemma {:induction false} AllDeliverable(ms: seq<Bytes>)
    requires forall m <- ms :: |m| <= MAX_MESSAGE
    ensures Deliverable(ms) == ms
  {
    if ms != [] {
      assert |ms[0]| <= MAX_MESSAGE;
      AllDeliverable(ms[1..]);
    }
  }

  // ----- the C objects -----

  /** frag_channel_t: buf.Length is buf_size. */
  class Channel {
    var buf: array<byte>
    var received: nat
    var active: bool

    predicate Valid()
      reads this
    {
      received <= buf.Length <= MAX_MESSAGE
    }

    function Held(): Option<Bytes>
      reads this, buf
      requires Valid()
    {
      if active then Some(buf[..received]) else None
    }

    constructor ()
      ensures Valid() && fresh(buf) && Held() == None
    {
      buf, received, active := new byte[0], 0, false;
    }

    /** channel_reset: the buffer stays for reuse. */
    method Reset()
      requires Valid()
      modifies this`received, this`active
      ensures Valid() && Held() == None
    {
      received, active := 0, false;
    }

    /** channel_ensure_capacity, allocation succeeding: grow to exactly `needed` and keep what is there. */
    method EnsureCapacity(needed: nat) returns (ok: bool)
      requires Valid()
      modifies this`buf
      ensures Valid() && Held() == old(Held())
      ensures ok <==> needed <= MAX_MESSAGE
      ensures ok ==> buf.Length == if old(buf.Length) < needed then needed else old(buf.Length)
      ensures buf == old(buf) || fresh(buf)
    {
      if needed > MAX_MESSAGE {
        return false;
      }
      if buf.Length < needed {
        var grown := new byte[needed];
        forall i | 0 <= i < buf.Length {
          grown[i] := buf[i];
        }
        assert grown[..received] == buf[..received];
        buf := grown;
        assert buf[..received] == old(buf[..received]);
      }
      return true;
    }

    /** memcpy behind what has been received. */
    method Store(data: Bytes)
      requires Valid() && received + |data| <= buf.Length
      modifies this`received, buf
      ensures Valid() && buf[..received] == old(buf[..received]) + data
    {
      forall i | 0 <= i < |data| {
        buf[received + i] := data[i];
      }
      received := received + |data|;
    }

    /** The body of frag_submit for this channel. */
    method Accept(f: Fragment) returns (r: Result)
      requires Valid()
      modifies this, buf
      ensures Valid() && (buf == old(buf) || fresh(buf))
      ensures (r, Held()) == Submit(old(Held()), f)
    {
      if f.flags == SINGLE {
        if active {
          Reset();
        }
        return Complete(f.data);
      } else if f.flags == FIRST {
        if active {
          Reset();
        }
        var ok := EnsureCapacity(|f.data|);
        if !ok {
          return Error;
        }
        received := 0;
        Store(f.data);
        active := true;
        assert buf[..received] == f.data;
        return Pending;
      } else if f.flags == CONT || f.flags == LAST {
        if !active {
          return Error;
        }
        var ok := EnsureCapacity(received + |f.data|);
        if !ok {
          Reset();
          return Error;
        }
        Store(f.data);
        if f.flags == CONT {
          return Pending;
        }
        r := Complete(buf[..received]);
        Reset();
      } else {
        return Error;
      }
    }
  }

  /** frag_ctx_t. */
  class Context {
    const channels: seq<Channel>

    ghost predicate Valid()
      reads this, channels
    {
      && |channels| == MAX_CHANNELS
      && (forall i | 0 <= i < MAX_CHANNELS :: channels[i].Valid())
      && (forall i, j | 0 <= i < j < MAX_CHANNELS :: channels[i] != channels[j] && channels[i].buf != channels[j].buf)
    }

    ghost function Held(): Channels
      reads this, channels, set c <- channels :: c.buf
      requires Valid()
    {
      seq(MAX_CHANNELS, i requires 0 <= i < MAX_CHANNELS && Valid() reads this, channels, set c <- channels :: c.buf =>
        channels[i].Held())
    }

    /** frag_ctx_init. */
    constructor ()
      ensures Valid() && fresh(channels) && (forall c <- channels :: fresh(c.buf))
      ensures forall i | 0 <= i < MAX_CHANNELS :: Held()[i] == None
    {
      var cs: seq<Channel> := [];
      for n := 0 to MAX_CHANNELS
        invariant |cs| == n && forall i | 0 <= i < n :: fresh(cs[i]) && fresh(cs[i].buf)
        invariant forall i | 0 <= i < n :: cs[i].Valid() && cs[i].Held() == None
        invariant forall i, j | 0 <= i < j < n :: cs[i] != cs[j] && cs[i].buf != cs[j].buf
      {
        var c := new Channel();
        cs := cs + [c];
      }
      channels := cs;
    }

    /** frag_submit. */
    method Submit(a: Arrival) returns (r: Result)
      requires Valid()
      modifies channels, set c <- channels :: c.buf
      ensures Valid()
      ensures (r, Held()) == SubmitTo(old(Held()), a)
    {
      if a.channel >= MAX_CHANNELS {
        return Error;
      }
      ghost var before := Held();
      r := channels[a.channel].Accept(a.fragment);
      forall i | 0 <= i < MAX_CHANNELS && i != a.channel
        ensures Held()[i] == before[i]
      {
        assert channels[i].Held() == old(channels[i].Held());
      }
      assert Held() == before[a.channel := Held()[a.channel]];
    }
  }

  function PieceFlags(rest: Bytes, first: bool): byte
  {
    if first then FIRST else if |rest| <= SPLIT_SIZE then LAST else CONT
  }

  /** What the loop still has to pass on: the whole message, or its later pieces. */
  function Pieces(rest: Bytes, first: bool): seq<Fragment>
  {
    if rest == [] then [] else if first then Split(rest) else SplitRest(rest)
  }

  lemma PieceStep(whole: seq<Fragment>, fs: seq<Fragment>, rest: Bytes, first: bool, chunk: nat)
    requires rest != [] && (first ==> |rest| > SPLIT_SIZE) && whole == fs + Pieces(rest, first)
    requires chunk == if |rest| > SPLIT_SIZE then SPLIT_SIZE else |rest|
    ensures whole == fs + [Fragment(PieceFlags(rest, first), rest[..chunk])] + Pieces(rest[chunk..], false)
  {
    assert rest[..|rest|] == rest && rest[|rest|..] == [];
  }

  /** frag_split, collecting what it passes to the callback. */
  method SplitMessage(data: Bytes) returns (fs: seq<Fragment>)
    ensures fs == Split(data)
  {
    if |data| <= SPLIT_SIZE {
      return [Fragment(SINGLE, data)];
    }
    fs := [];
    var rest := data;
    var first := true;
    ghost var whole := Split(data);
    assert [] + whole == whole;
    while rest != []
      invariant first ==> |rest| > SPLIT_SIZE
      invariant whole == fs + Pieces(rest, first)
      decreases |rest|
    {
      var chunk := if |rest| > SPLIT_SIZE then SPLIT_SIZE else |rest|;
      PieceStep(whole, fs, rest, first, chunk);
      fs := fs + [Fragment(PieceFlags(rest, first), rest[..chunk])];
      first := false;
      rest := rest[chunk..];
    }
    assert fs + [] == fs;
  }
}
