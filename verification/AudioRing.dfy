/** The audio ring shared by a network thread and a playback thread: radxa/carplay/airplay/airplay_audio.c. */
module AudioRing {
  import opened Prelude

  /** AUDIO_RING_BYTES: 44100 * 4 * 200 / 1000. */
  const N: nat := 35280

  type Pos = p: nat | p < N

  function Next(p: Pos): Pos { (p + 1) % N }

  /** ring_available_write. */
  function Free(w: Pos, r: Pos): nat
  {
    if w >= r then N - (w - r) - 1 else r - w - 1
  }

  /** ring_available_read. */
  function Used(w: Pos, r: Pos): nat
  {
    if w >= r then w - r else N - (r - w)
  }

  lemma FreeAndUsed(w: Pos, r: Pos)
    ensures Free(w, r) + Used(w, r) == N - 1
    ensures Free(w, r) > 0 ==> Used(Next(w), r) == Used(w, r) + 1
    ensures Free(w, r) == 0 ==> Used(Next(w), r) == 0
    ensures Used(w, r) > 0 ==> Used(w, Next(r)) == Used(w, r) - 1
  {}

  type Buffer = b: Bytes | |b| == N witness seq(N, i => 0)

  /** The n bytes from r on, around the end of the buffer. */
  function Queue(buf: Buffer, r: Pos, n: nat): (q: Bytes)
    ensures |q| == n
    decreases n
  {
    if n == 0 then [] else [buf[r]] + Queue(buf, Next(r), n - 1)
  }

  /** The bytes written and not yet read. */
  function Unread(buf: Buffer, w: Pos, r: Pos): Bytes { Queue(buf, r, Used(w, r)) }

  // ----- writing -----

  /** The loop of ring_write. */
  function Written(buf: Buffer, w: Pos, data: Bytes): (Buffer, Pos)
    decreases |data|
  {
    if data == [] then (buf, w) else Written(buf[w := data[0]], Next(w), data[1..])
  }

  function Ahead(r: Pos, k: nat): Pos { (r + k) % N }

  /** Writing outside the n bytes from r on leaves them alone. */
  lemma {:induction false} QueueUntouched(buf: Buffer, r: Pos, n: nat, p: Pos, b: byte)
    requires n < N && forall k | 0 <= k < n :: Ahead(r, k) != p
    ensures Queue(buf[p := b], r, n) == Queue(buf, r, n)
    decreases n
  {
    if n > 0 {
      assert Ahead(r, 0) == r;
      forall k | 0 <= k < n - 1
        ensures Ahead(Next(r), k) != p
      {
        assert Ahead(Next(r), k) == Ahead(r, k + 1);
      }
      QueueUntouched(buf, Next(r), n - 1, p, b);
    }
  }

  lemma AheadNext(r: Pos, n: nat)
    requires n > 0
    ensures Ahead(Next(r), n - 1) == Ahead(r, n)
  {}

  lemma {:induction false} QueueExtend(buf: Buffer, r: Pos, n: nat)
    requires n < N
    ensures Queue(buf, r, n + 1) == Queue(buf, r, n) + [buf[Ahead(r, n)]]
    decreases n
  {
    if n == 0 {
      assert Queue(buf, Next(r), 0) == [];
    } else {
      QueueExtend(buf, Next(r), n - 1);
      AheadNext(r, n);
    }
  }

  lemma WriteOne(buf: Buffer, w: Pos, r: Pos, b: byte)
    requires Free(w, r) > 0
    ensures Unread(buf[w := b], Next(w), r) == Unread(buf, w, r) + [b]
    ensures Free(Next(w), r) == Free(w, r) - 1
  {
    var n := Used(w, r);
    FreeAndUsed(w, r);
    FreeAndUsed(Next(w), r);
    assert Ahead(r, n) == w;
    QueueUntouched(buf, r, n, w, b);
    QueueExtend(buf[w := b], r, n);
  }

  lemma {:induction false} WriteFits(buf: Buffer, w: Pos, r: Pos, data: Bytes)
    requires |data| <= Free(w, r)
    ensures var (buf', w') := Written(buf, w, data);
      Unread(buf', w', r) == Unread(buf, w, r) + data
    decreases |data|
  {
    if data == [] {
      assert Unread(buf, w, r) + data == Unread(buf, w, r);
    } else {
      WriteOne(buf, w, r, data[0]);
      WriteFits(buf[w := data[0]], Next(w), r, data[1..]);
      assert Unread(buf, w, r) + [data[0]] + data[1..] == Unread(buf, w, r) + data;
    }
  }

  /** A write appends its payload behind the unread bytes exactly when it is no longer than the free space. */
  lemma WriteAppends(buf: Buffer, w: Pos, r: Pos, data: Bytes)
    ensures var (buf', w') := Written(buf, w, data);
      Unread(buf', w', r) == Unread(buf, w, r) + data <==> |data| <= Free(w, r)
  {
    if |data| <= Free(w, r) {
      WriteFits(buf, w, r, data);
    } else {
      FreeAndUsed(w, r);
      var (buf', w') := Written(buf, w, data);
      assert |Unread(buf, w, r) + data| >= N > |Unread(buf', w', r)|;
    }
  }

  // ----- the two threads -----

  /**
   * The producer loads write_pos, then read_pos, both outside the lock, and writes under the lock later.  The
   * consumer holds the lock while it copies byte by byte; read_pos is visible to the producer after each byte.
   */
  datatype Producer = Resting | Loaded(payload: Bytes, w: Pos) | Cleared(payload: Bytes)

  datatype Consumer = Unlocked | Copying(left: nat)

  /** A payload the producer has dealt with: written whole, or dropped whole. */
  datatype Verdict = Verdict(payload: Bytes, taken: bool)

  datatype State = State(
    buf: Buffer, w: Pos, r: Pos, producer: Producer, consumer: Consumer,
    verdicts: seq<Verdict>, output: Bytes)

  datatype Action = Offer(payload: Bytes) | Check | Store | Lock(max: nat) | Copy | Unlock

  const INITIAL: State := State(seq(N, i => 0), 0, 0, Resting, Unlocked, [], [])

  function Min(a: nat, b: nat): nat { if a < b then a else b }

  /** One atomic step; a step that is not enabled changes nothing. */
  function Do(s: State, a: Action): State
  {
    match a
    case Offer(p) => if s.producer.Resting? then s.(producer := Loaded(p, s.w)) else s
    case Check =>
      if !s.producer.Loaded? then s
      else if Free(s.producer.w, s.r) >= |s.producer.payload| then s.(producer := Cleared(s.producer.payload))
      else s.(producer := Resting, verdicts := s.verdicts + [Verdict(s.producer.payload, false)])
    case Store =>
      if !s.producer.Cleared? || !s.consumer.Unlocked? then s
      else
        var (buf, w) := Written(s.buf, s.w, s.producer.payload);
        s.(buf := buf, w := w, producer := Resting, verdicts := s.verdicts + [Verdict(s.producer.payload, true)])
    case Lock(max) =>
      if s.consumer.Unlocked? && Used(s.w, s.r) > 0 then s.(consumer := Copying(Min(Used(s.w, s.r), max))) else s
    case Copy =>
      if s.consumer.Copying? && s.consumer.left > 0
      then s.(consumer := Copying(s.consumer.left - 1), r := Next(s.r), output := s.output + [s.buf[s.r]])
      else s
    case Unlock => if s.consumer == Copying(0) then s.(consumer := Unlocked) else s
  }

  function Run(s: State, actions: seq<Action>): State
    decreases |actions|
  {
    if actions == [] then s else Run(Do(s, actions[0]), actions[1..])
  }

  function Pending(s: State): Bytes { Unread(s.buf, s.w, s.r) }

  /** The payloads that were written, joined. */
  function Accepted(vs: seq<Verdict>): Bytes
  {
    if vs == [] then [] else Accepted(vs[..|vs| - 1]) + if vs[|vs| - 1].taken then vs[|vs| - 1].payload else []
  }

  lemma AcceptedNext(vs: seq<Verdict>, v: Verdict)
    ensures Accepted(vs + [v]) == Accepted(vs) + if v.taken then v.payload else []
  {
    assert (vs + [v])[..|vs|] == vs;
  }

  /** Every byte accepted has been read or is waiting, in order; a cleared payload still fits. */
  predicate Inv(s: State)
  {
    && Accepted(s.verdicts) == s.output + Pending(s)
    && (s.producer.Loaded? ==> s.producer.w == s.w)
    && (s.producer.Cleared? ==> |s.producer.payload| <= Free(s.w, s.r))
    && (s.consumer.Copying? ==> s.consumer.left <= Used(s.w, s.r))
  }

  /**
   * Each step is a step of an unbounded queue or changes nothing.  A check clears a payload exactly when the queue
   * has room for it at that moment and drops it otherwise; a store appends the cleared payload; a copy removes the
   * byte it hands out.
   */
  predicate QueueStep(s: State, a: Action, next: State)
  {
    match a
    case Offer(p) => next == if s.producer.Resting? then s.(producer := Loaded(p, s.w)) else s
    case Check =>
      if !s.producer.Loaded? then next == s
      else
        var p := s.producer.payload;
        next == if |Pending(s)| + |p| <= N - 1 then s.(producer := Cleared(p))
                else s.(producer := Resting, verdicts := s.verdicts + [Verdict(p, false)])
    case Store =>
      if !s.producer.Cleared? || !s.consumer.Unlocked? then next == s
      else
        && next.producer.Resting? && next.verdicts == s.verdicts + [Verdict(s.producer.payload, true)]
        && Pending(next) == Pending(s) + s.producer.payload
        && next.output == s.output && next.consumer == s.consumer
    case Copy =>
      if s.consumer == Unlocked || s.consumer == Copying(0) then next == s
      else
        && Pending(s) != [] && Pending(next) == Pending(s)[1..] && next.output == s.output + [Pending(s)[0]]
        && next.consumer == Copying(s.consumer.left - 1)
        && next.producer == s.producer && next.verdicts == s.verdicts
    case Lock(max) =>
      next == if s.consumer.Unlocked? && Pending(s) != [] then s.(consumer := Copying(Min(|Pending(s)|, max))) else s
    case Unlock => next == if s.consumer == Copying(0) then s.(consumer := Unlocked) else s
  }

  lemma StoreStep(s: State)
    requires Inv(s)
    ensures var next := Do(s, Store); Inv(next) && QueueStep(s, Store, next)
  {
    if s.producer.Cleared? && s.consumer.Unlocked? {
      var p, next := s.producer.payload, Do(s, Store);
      WriteFits(s.buf, s.w, s.r, p);
      AcceptedNext(s.verdicts, Verdict(p, true));
      assert s.output + Pending(s) + p == s.output + (Pending(s) + p);
    }
  }

  lemma CopyStep(s: State)
    requires Inv(s)
    ensures var next := Do(s, Copy); Inv(next) && QueueStep(s, Copy, next)
  {
    if s.consumer.Copying? && s.consumer.left > 0 {
      var next := Do(s, Copy);
      FreeAndUsed(s.w, s.r);
      FreeAndUsed(s.w, Next(s.r));
      assert Pending(s) == [s.buf[s.r]] + Pending(next);
      assert s.output + Pending(s) == next.output + Pending(next);
    }
  }

  lemma CheckStep(s: State)
    requires Inv(s)
    ensures var next := Do(s, Check); Inv(next) && QueueStep(s, Check, next)
  {
    FreeAndUsed(s.w, s.r);
    if s.producer.Loaded? {
      var p := s.producer.payload;
      AcceptedNext(s.verdicts, Verdict(p, false));
      assert Accepted(s.verdicts) + [] == Accepted(s.verdicts);
    }
  }

  lemma StepKeepsInv(s: State, a: Action)
    requires Inv(s)
    ensures Inv(Do(s, a)) && QueueStep(s, a, Do(s, a))
  {
    match a
    case Store => StoreStep(s);
    case Copy => CopyStep(s);
    case Check => CheckStep(s);
    case Offer(_) =>
    case Lock(_) =>
    case Unlock =>
  }

  lemma {:induction false} RunKeepsInv(s: State, actions: seq<Action>)
    requires Inv(s)
    ensures Inv(Run(s, actions))
    decreases |actions|
  {
    if actions != [] {
      StepKeepsInv(s, actions[0]);
      RunKeepsInv(Do(s, actions[0]), actions[1..]);
    }
  }

  /**
   * Over every interleaving of the two threads: what was read, followed by what waits in the buffer, is the
   * accepted payloads joined, so reads are a prefix of writes and nothing unread is ever overwritten.
   */
  lemma RingIsQueue(actions: seq<Action>)
    ensures var s := Run(INITIAL, actions);
      && s.output + Pending(s) == Accepted(s.verdicts)
      && s.output <= Accepted(s.verdicts)
      && Free(s.w, s.r) + |Pending(s)| == 35279
  {
    assert Accepted([]) == [] + Pending(INITIAL);
    RunKeepsInv(INITIAL, actions);
    var s := Run(INITIAL, actions);
    FreeAndUsed(s.w, s.r);
  }

  // ----- no payload is lost -----

  /** The payload the producer is working on. */
  function InFlight(p: Producer): seq<Bytes>
  {
    match p
    case Resting => []
    case Loaded(payload, _) => [payload]
    case Cleared(payload) => [payload]
  }

  function Payloads(vs: seq<Verdict>): (r: seq<Bytes>)
    ensures |r| == |vs| && forall i | 0 <= i < |vs| :: r[i] == vs[i].payload
  {
    seq(|vs|, i requires 0 <= i < |vs| => vs[i].payload)
  }

  /** The payloads the producer takes up in a run: those offered while it rests. */
  function TakenUp(s: State, actions: seq<Action>): seq<Bytes>
    decreases |actions|
  {
    if actions == [] then []
    else
      (if actions[0].Offer? && s.producer.Resting? then [actions[0].payload] else [])
      + TakenUp(Do(s, actions[0]), actions[1..])
  }

  function Account(s: State): seq<Bytes> { Payloads(s.verdicts) + InFlight(s.producer) }

  lemma AccountStep(s: State, a: Action)
    ensures Account(Do(s, a))
         == Account(s) + if a.Offer? && s.producer.Resting? then [a.payload] else []
  {
    var next := Do(s, a);
    if |next.verdicts| == |s.verdicts| + 1 {
      assert Payloads(next.verdicts) == Payloads(s.verdicts) + [s.producer.payload];
    }
  }

  lemma {:induction false} AccountRun(s: State, actions: seq<Action>)
    ensures Account(Run(s, actions)) == Account(s) + TakenUp(s, actions)
    decreases |actions|
  {
    if actions == [] {
      assert Account(s) + [] == Account(s);
    } else {
      var now := if actions[0].Offer? && s.producer.Resting? then [actions[0].payload] else [];
      AccountStep(s, actions[0]);
      AccountRun(Do(s, actions[0]), actions[1..]);
      assert Account(s) + now + TakenUp(Do(s, actions[0]), actions[1..])
          == Account(s) + (now + TakenUp(Do(s, actions[0]), actions[1..]));
    }
  }

  /**
   * Over every interleaving, each payload taken up has its verdict, in order, except the one the producer is still
   * working on.
   */
  lemma NoPayloadIsLost(actions: seq<Action>)
    ensures var s := Run(INITIAL, actions);
      Payloads(s.verdicts) + InFlight(s.producer) == TakenUp(INITIAL, actions)
  {
    AccountRun(INITIAL, actions);
    assert Account(INITIAL) == [];
  }

  function Copies(n: nat): (r: seq<Action>)
    ensures |r| == n
  {
    if n == 0 then [] else [Copy] + Copies(n - 1)
  }

  lemma {:induction false} RunJoins(s: State, a: seq<Action>, b: seq<Action>)
    ensures Run(s, a + b) == Run(Run(s, a), b)
    decreases |a|
  {
    if a == [] {
      assert a + b == b;
    } else {
      assert (a + b)[1..] == a[1..] + b;
      RunJoins(Do(s, a[0]), a[1..], b);
    }
  }

  lemma RunOne(s: State, a: Action)
    ensures Run(s, [a]) == Do(s, a)
  {
    assert Run(s, [a]) == Run(Do(s, a), []);
  }

  lemma RunCopies(s: State, n: nat)
    requires n > 0
    ensures Run(s, Copies(n)) == Run(Do(s, Copy), Copies(n - 1))
  {
    assert Copies(n)[1..] == Copies(n - 1);
  }

  lemma HandedOut(out: Bytes, queue: Bytes, n: nat)
    requires 0 < n <= |queue|
    ensures out + [queue[0]] + queue[1..][..n - 1] == out + queue[..n]
    ensures queue[1..][n - 1..] == queue[n..]
  {}

  /** Copying hands out the oldest bytes, in order, and leaves the producer alone. */
  lemma {:induction false} CopiesHandOut(s: State, n: nat)
    requires Inv(s) && s.consumer.Copying? && n <= s.consumer.left
    ensures n <= |Pending(s)|
    ensures var next := Run(s, Copies(n));
      && Inv(next) && next.consumer == Copying(s.consumer.left - n)
      && next.producer == s.producer && next.verdicts == s.verdicts
      && next.output == s.output + Pending(s)[..n] && Pending(next) == Pending(s)[n..]
    decreases n
  {
    if n == 0 {
      assert s.output + Pending(s)[..0] == s.output;
    } else {
      CopyStep(s);
      CopiesHandOut(Do(s, Copy), n - 1);
      RunCopies(s, n);
      HandedOut(s.output, Pending(s), n);
    }
  }

  /** One locked read. */
  function ReadActions(n: nat, max: nat): seq<Action> { [Lock(max)] + (Copies(n) + [Unlock]) }

  /** A locked read hands out the oldest min(unread, max) bytes and releases the lock. */
  lemma ReadHandsOut(s: State, max: nat)
    requires Inv(s) && s.consumer.Unlocked? && Pending(s) != []
    ensures var n := Min(|Pending(s)|, max);
      var next := Run(s, ReadActions(n, max));
      && next.consumer.Unlocked? && next.producer == s.producer && next.verdicts == s.verdicts
      && next.output == s.output + Pending(s)[..n] && Pending(next) == Pending(s)[n..]
  {
    var n := Min(|Pending(s)|, max);
    var locked := Do(s, Lock(max));
    StepKeepsInv(s, Lock(max));
    CopiesHandOut(locked, n);
    RunJoins(locked, Copies(n), [Unlock]);
    RunOne(Run(locked, Copies(n)), Unlock);
    assert ReadActions(n, max)[1..] == Copies(n) + [Unlock];
  }

  /** The bytes a reader in the lock still has to hand out. */
  function Left(c: Consumer): nat { if c.Copying? then c.left else 0 }

  function FinishActions(n: nat): seq<Action> { [Check] + (Copies(n) + [Unlock, Store]) }

  /**
   * From every reachable state with a payload taken up, the check, then the reader leaving the lock, then the store
   * settle it: it is written whole if it fitted beside the unread bytes at the check, and dropped whole if not.
   */
  lemma PayloadIsSettled(s: State)
    requires Inv(s) && s.producer.Loaded?
    ensures var p, n := s.producer.payload, Left(s.consumer);
      var fits := |Pending(s)| + |p| <= N - 1;
      var next := Run(s, FinishActions(n));
      && n <= |Pending(s)|
      && next.producer.Resting? && next.consumer.Unlocked?
      && next.verdicts == s.verdicts + [Verdict(p, fits)]
      && next.output == s.output + Pending(s)[..n]
      && Pending(next) == Pending(s)[n..] + if fits then p else []
  {
    var n := Left(s.consumer);
    var checked := Do(s, Check);
    CheckStep(s);
    var copied := Run(checked, Copies(n));
    LeavesLock(checked);
    var free := Do(copied, Unlock);
    StepKeepsInv(copied, Unlock);
    StoreStep(free);
    RunJoins(checked, Copies(n), [Unlock, Store]);
    RunTwo(copied, Unlock, Store);
    assert FinishActions(n)[1..] == Copies(n) + [Unlock, Store];
    assert Pending(s)[n..] + [] == Pending(s)[n..];
  }

  lemma LeavesLock(s: State)
    requires Inv(s)
    ensures var n := Left(s.consumer);
      var next := Run(s, Copies(n));
      && n <= |Pending(s)| && Inv(next) && (next.consumer == Copying(0) || next.consumer == Unlocked)
      && next.producer == s.producer && next.verdicts == s.verdicts
      && next.output == s.output + Pending(s)[..n] && Pending(next) == Pending(s)[n..]
  {
    if s.consumer.Copying? {
      CopiesHandOut(s, s.consumer.left);
    } else {
      assert Copies(0) == [] && s.output + Pending(s)[..0] == s.output;
    }
  }

  lemma RunTwo(s: State, a: Action, b: Action)
    ensures Run(s, [a, b]) == Do(Do(s, a), b)
  {
    assert [a, b][1..] == [b];
    RunOne(Do(s, a), b);
  }

  // ----- the loops -----

  class Ring {
    const buf: array<byte>
    var writePos: Pos
    var readPos: Pos

    predicate Valid()
      reads this
    {
      buf.Length == N
    }

    function View(): Buffer
      requires Valid()
      reads this, buf
    {
      buf[..]
    }

    constructor ()
      ensures Valid() && fresh(buf) && writePos == 0 && readPos == 0
    {
      buf := new byte[N];
      writePos, readPos := 0, 0;
    }

    /** ring_write, under the lock. */
    method Write(data: Bytes)
      requires Valid()
      modifies this`writePos, buf
      ensures Valid() && (View(), writePos) == Written(old(View()), old(writePos), data)
    {
      var rest := data;
      ghost var goal := Written(View(), writePos, data);
      while rest != []
        invariant Written(View(), writePos, rest) == goal
        decreases |rest|
      {
        ghost var before := View();
        buf[writePos] := rest[0];
        assert View() == before[writePos := rest[0]];
        writePos := Next(writePos);
        rest := rest[1..];
      }
    }

    /** ring_read once data is available, under the lock. */
    method Read(max: nat) returns (out: Bytes)
      requires Valid()
      modifies this`readPos
      ensures Valid() && |out| == Min(old(Used(writePos, readPos)), max)
      ensures old(Unread(View(), writePos, readPos)) == out + Unread(View(), writePos, readPos)
    {
      var n := Min(Used(writePos, readPos), max);
      out := [];
      ghost var all := Unread(View(), writePos, readPos);
      assert [] + all == all;
      for i := 0 to n
        invariant |out| == i && all == out + Unread(View(), writePos, readPos)
        invariant Used(writePos, readPos) == old(Used(writePos, readPos)) - i
      {
        FreeAndUsed(writePos, readPos);
        ghost var rest := Unread(View(), writePos, Next(readPos));
        assert Unread(View(), writePos, readPos) == [buf[readPos]] + rest;
        assert out + ([buf[readPos]] + rest) == out + [buf[readPos]] + rest;
        out := out + [buf[readPos]];
        readPos := Next(readPos);
      }
    }
  }
}
