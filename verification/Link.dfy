/** The iAP2 link layer, radxa/carplay/iap2/iap2_link.c: packets, the resynchronising receiver and its carry buffer. */
module Link {
  import opened Prelude
  import BigEndian

  const SYN: byte := 0x80
  const ACK: byte := 0x40
  const RST: byte := 0x10
  const SYN_ACK: byte := 0xC0
  const HEADER: nat := 9
  const BUFFER: nat := 4096

  function Min(a: nat, b: nat): nat { if a < b then a else b }

  predicate Bit(b: byte, bit: nat)
    requires bit > 0
  {
    b / bit % 2 == 1
  }

  // ----- packets -----

  datatype Packet = Packet(ctl: byte, seqNo: byte, ack: byte, session: byte, payload: Bytes)

  function Sum(s: Bytes): nat
  {
    if s == [] then 0 else Sum(s[..|s| - 1]) + s[|s| - 1]
  }

  /** iap2_checksum: 0x100 minus the byte sum, cut to a byte. */
  function Checksum(s: Bytes): byte { (0x100 - Sum(s) % 0x100) % 0x100 }

  lemma AddModulo(a: nat, b: nat)
    ensures (a % 0x100 + b) % 0x100 == (a + b) % 0x100
  {}

  /** The loop of iap2_checksum, whose accumulator is a byte. */
  method ComputeChecksum(header: Bytes) returns (c: byte)
    ensures c == Checksum(header)
  {
    var sum: byte := 0;
    for i := 0 to |header|
      invariant sum == Sum(header[..i]) % 0x100
    {
      assert header[..i + 1][..i] == header[..i];
      AddModulo(Sum(header[..i]), header[i]);
      sum := (sum + header[i]) % 0x100;
    }
    assert header[..|header|] == header;
    c := (0x100 - sum) % 0x100;
  }

  /** The eight header bytes the checksum covers; a length beyond 16 bits loses its upper part. */
  function Prefix(p: Packet): (r: Bytes)
    ensures |r| == 8
  {
    [0xFF, 0x5A] + BigEndian.Encode(HEADER + |p.payload|, 2) + [p.ctl, p.seqNo, p.ack, p.session]
  }

  /** build_and_send. */
  function Build(p: Packet): Bytes { Prefix(p) + [Checksum(Prefix(p))] + p.payload }

  /** Sum adds the bytes up. */
  lemma SumOfBytes(s: Bytes, b: byte)
    ensures Sum([]) == 0 && Sum(s + [b]) == Sum(s) + b
  {
    assert (s + [b])[..|s|] == s;
  }

  /** The nine header bytes of every packet sum to zero modulo 256. */
  lemma HeaderSumsToZero(p: Packet)
    ensures Sum(Build(p)[..HEADER]) % 0x100 == 0
  {
    var header := Prefix(p) + [Checksum(Prefix(p))];
    assert Build(p)[..HEADER] == header && header[..8] == Prefix(p);
  }

  // ----- the receiver as a function of the byte stream -----

  datatype Event = Sent(bytes: Bytes) | Received(length: nat, packet: Packet)

  datatype State = State(localSeq: byte, remoteSeq: byte, synced: bool, log: seq<Event>)

  predicate AtSync(s: Bytes) { |s| >= 2 && s[0] == 0xFF && s[1] == 0x5A }

  function Length(s: Bytes): nat
    requires |s| >= 4
  {
    BigEndian.Decode(s[2..4])
  }

  datatype Look = Wait | Skip | Take

  /** What the loop decides about the bytes at its position. */
  function Examine(s: Bytes): Look
  {
    if |s| < HEADER then Wait
    else if !AtSync(s) then Skip
    else if Length(s) > |s| then Wait
    else if s[8] != Checksum(s[..8]) then Skip
    else Take
  }

  function PacketAt(s: Bytes): Packet
    requires Examine(s).Take?
  {
    Packet(s[4], s[5], s[6], s[7], if Length(s) > HEADER then s[HEADER..Length(s)] else [])
  }

  /** The control byte of a reset: neither of the two bits tested before it. */
  predicate IsReset(ctl: byte) { !Bit(ctl, SYN) && !Bit(ctl, ACK) && Bit(ctl, RST) }

  function Handle(st: State, length: nat, p: Packet): State
  {
    if Bit(p.ctl, SYN) then
      var reply := Build(Packet(SYN_ACK, st.localSeq, p.seqNo, 0, p.payload));
      st.(remoteSeq := p.seqNo, synced := true, localSeq := (st.localSeq + 1) % 0x100, log := st.log + [Sent(reply)])
    else if Bit(p.ctl, ACK) then st.(remoteSeq := p.seqNo)
    else if Bit(p.ctl, RST) then st.(synced := false)
    else
      var ack := Build(Packet(ACK, st.localSeq, p.seqNo, 0, []));
      st.(remoteSeq := p.seqNo, log := st.log + [Sent(ack), Received(length, p)])
  }

  /** Waiting for more bytes, closed by a reset, or caught on an accepted packet that declares length 0. */
  datatype Status = Waiting | Closed | Looping

  datatype Outcome = Outcome(state: State, rest: Bytes, status: Status)

  /** One scan over all the bytes there are; `rest` is what it leaves for the next time. */
  function Drain(st: State, s: Bytes): Outcome
    decreases |s|
  {
    match Examine(s)
    case Wait => Outcome(st, s, Waiting)
    case Skip => Drain(st, s[1..])
    case Take =>
      var p := PacketAt(s);
      var next := Handle(st, Length(s), p);
      if IsReset(p.ctl) then Outcome(next, [], Closed)
      else if Length(s) == 0 then Outcome(st, [], Looping)
      else Drain(next, s[Length(s)..])
  }

  /** Calls of iap2_link_process, one read each, until the link closes. */
  function Reads(st: State, carry: Bytes, chunks: seq<Bytes>): Outcome
    decreases |chunks|
  {
    if chunks == [] then Drain(st, carry)
    else
      var o := Drain(st, carry + chunks[0]);
      if o.status.Waiting? then Reads(o.state, o.rest, chunks[1..]) else o
  }

  // ----- splitting the stream does not matter -----

  lemma LookStable(a: Bytes, b: Bytes)
    requires !Examine(a).Wait?
    ensures Examine(a + b) == Examine(a)
    ensures Examine(a).Take? ==> Length(a + b) == Length(a) && PacketAt(a + b) == PacketAt(a)
  {
    assert (a + b)[2..4] == a[2..4];
    assert (a + b)[..8] == a[..8];
    if Examine(a).Take? && Length(a) > HEADER { assert (a + b)[HEADER..Length(a)] == a[HEADER..Length(a)]; }
  }

  lemma DropOfAppend(a: Bytes, b: Bytes, n: nat)
    requires n <= |a|
    ensures (a + b)[n..] == a[n..] + b
  {}

  /** A scan that stops for want of bytes and resumes with more is one scan over them all. */
  lemma {:induction false} DrainResumes(st: State, a: Bytes, b: Bytes)
    ensures var o := Drain(st, a);
      Drain(st, a + b) == if o.status.Waiting? then Drain(o.state, o.rest + b) else o
    decreases |a|
  {
    if !Examine(a).Wait? {
      LookStable(a, b);
      var n := if Examine(a).Skip? then 1 else Length(a);
      DropOfAppend(a, b, n);
      if Examine(a).Skip? {
        DrainResumes(st, a[1..], b);
      } else if n > 0 {
        DrainResumes(Handle(st, n, PacketAt(a)), a[n..], b);
      }
    }
  }

  /**
   * However reads split the stream, the calls accept exactly the packets that one unbounded scan of the whole
   * stream accepts, up to the first reset.
   */
  lemma {:induction false} ChunkingIndependence(st: State, carry: Bytes, chunks: seq<Bytes>)
    ensures Reads(st, carry, chunks) == Drain(st, carry + Flatten(chunks))
    decreases |chunks|
  {
    if chunks == [] {
      assert carry + Flatten(chunks) == carry;
    } else {
      var o := Drain(st, carry + chunks[0]);
      var later := Flatten(chunks[1..]);
      assert carry + Flatten(chunks) == carry + chunks[0] + later;
      DrainResumes(st, carry + chunks[0], later);
      if o.status.Waiting? { ChunkingIndependence(o.state, o.rest, chunks[1..]); }
    }
  }

  // ----- when the scan ends -----

  /** The scan as it runs: what it holds in front of its next turn, or what it ended with. */
  datatype Scan = Running(state: State, rest: Bytes) | Ended(outcome: Outcome)

  /** One turn of the loop in iap2_link_process. */
  function Turn(scan: Scan): Scan
  {
    match scan
    case Ended(_) => scan
    case Running(st, s) =>
      match Examine(s)
      case Wait => Ended(Outcome(st, s, Waiting))
      case Skip => Running(st, s[1..])
      case Take =>
        var next := Handle(st, Length(s), PacketAt(s));
        if IsReset(PacketAt(s).ctl) then Ended(Outcome(next, [], Closed)) else Running(next, s[Length(s)..])
  }

  function Turns(scan: Scan, n: nat): Scan
    decreases n
  {
    if n == 0 then scan else Turns(Turn(scan), n - 1)
  }

  /** No packet the scan of s accepts declares length 0, unless it is a reset. */
  predicate Advances(s: Bytes)
    decreases |s|
  {
    match Examine(s)
    case Wait => true
    case Skip => Advances(s[1..])
    case Take => IsReset(PacketAt(s).ctl) || (Length(s) > 0 && Advances(s[Length(s)..]))
  }

  lemma {:induction false} EndedStays(o: Outcome, n: nat)
    ensures Turns(Ended(o), n) == Ended(o)
    decreases n
  {
    if n > 0 { EndedStays(o, n - 1); }
  }

  /** How many turns the scan of s takes to end. */
  function TurnsTaken(s: Bytes): nat
    requires Advances(s)
    decreases |s|
  {
    match Examine(s)
    case Wait => 1
    case Skip => 1 + TurnsTaken(s[1..])
    case Take => if IsReset(PacketAt(s).ctl) then 1 else 1 + TurnsTaken(s[Length(s)..])
  }

  lemma {:induction false} AdvancingEnds(st: State, s: Bytes)
    requires Advances(s)
    ensures Turns(Running(st, s), TurnsTaken(s)) == Ended(Drain(st, s))
    ensures !Drain(st, s).status.Looping?
    decreases |s|
  {
    var next := Turn(Running(st, s));
    if next.Ended? {
      EndedStays(next.outcome, 0);
    } else {
      AdvancingEnds(next.state, next.rest);
    }
  }

  /** In front of a packet of length 0 every turn leaves the position where it is. */
  lemma {:induction false} StuckRuns(st: State, s: Bytes, n: nat)
    requires Examine(s).Take? && Length(s) == 0 && !IsReset(PacketAt(s).ctl)
    ensures Turns(Running(st, s), n).Running? && Turns(Running(st, s), n).rest == s
    decreases n
  {
    if n > 0 { StuckRuns(Handle(st, 0, PacketAt(s)), s, n - 1); }
  }

  lemma {:induction false} StuckLoops(st: State, s: Bytes, n: nat)
    requires !Advances(s)
    ensures Drain(st, s).status.Looping?
    ensures Turns(Running(st, s), n).Running?
    decreases |s|
  {
    if Examine(s).Take? && Length(s) == 0 {
      StuckRuns(st, s, n);
    } else {
      var next := Turn(Running(st, s));
      StuckLoops(next.state, next.rest, if n > 0 then n - 1 else 0);
    }
  }

  /**
   * The loop ends if and only if no packet it accepts declares length 0, resets aside; and then it ends with the
   * outcome of Drain.  Otherwise it is still running after any number of turns.
   */
  lemma ScanEnds(st: State, s: Bytes)
    ensures Advances(s) <==> exists n: nat :: Turns(Running(st, s), n).Ended?
    ensures Advances(s) ==> exists n: nat :: Turns(Running(st, s), n) == Ended(Drain(st, s))
    ensures Drain(st, s).status.Looping? <==> !Advances(s)
  {
    if Advances(s) {
      AdvancingEnds(st, s);
      assert Turns(Running(st, s), TurnsTaken(s)).Ended?;
    } else {
      StuckLoops(st, s, 0);
      forall n: nat
        ensures Turns(Running(st, s), n).Running?
      {
        StuckLoops(st, s, n);
      }
    }
  }

  /** However the stream is read, one of the calls never returns exactly when the whole stream does not advance. */
  lemma ReadsEnd(st: State, carry: Bytes, chunks: seq<Bytes>)
    ensures Reads(st, carry, chunks).status.Looping? <==> !Advances(carry + Flatten(chunks))
  {
    ChunkingIndependence(st, carry, chunks);
    ScanEnds(st, carry + Flatten(chunks));
  }

  /** A header with this length field and a matching checksum. */
  function HeaderWithLength(len: u16, ctl: byte, seqNo: byte, ack: byte, session: byte): (r: Bytes)
    ensures |r| == HEADER
  {
    var h := [0xFF, 0x5A] + BigEndian.Encode(len, 2) + [ctl, seqNo, ack, session];
    h + [Checksum(h)]
  }

  /** Such a stream exists: a header that declares length 0 stops it from advancing unless it is a reset. */
  lemma ZeroLengthLoops(ctl: byte, seqNo: byte, ack: byte, session: byte, rest: Bytes)
    ensures Advances(HeaderWithLength(0, ctl, seqNo, ack, session) + rest) <==> IsReset(ctl)
  {
    var header := HeaderWithLength(0, ctl, seqNo, ack, session);
    var s := header + rest;
    assert BigEndian.Limit(2) == 0x1_0000;
    BigEndian.DecodeEncode(0, 2);
    assert s[2..4] == BigEndian.Encode(0, 2);
    assert s[..8] == header[..8] && s[4] == ctl;
  }

  // ----- the carry buffer -----

  lemma {:induction false} DrainShrinks(st: State, s: Bytes)
    ensures |Drain(st, s).rest| <= |s|
    ensures |Drain(st, s).rest| == |s| ==> s == [] || Examine(s).Wait?
    decreases |s|
  {
    if Examine(s).Skip? {
      DrainShrinks(st, s[1..]);
    } else if Examine(s).Take? && Length(s) > 0 {
      DrainShrinks(Handle(st, Length(s), PacketAt(s)), s[Length(s)..]);
    }
  }

  /** A length field the scan is looking at that no working buffer can satisfy. */
  predicate Oversized(s: Bytes) { |s| >= HEADER && AtSync(s) && Length(s) > BUFFER }

  /**
   * What a call leaves always fits the carry buffer, so the overflow branch is dead; and it fills the buffer,
   * leaving no room to read, exactly when the working buffer is full and starts with an oversized length.
   */
  lemma CarryFull(st: State, buf: Bytes)
    requires |buf| <= 4096
    ensures |Drain(st, buf).rest| <= 4096
    ensures |Drain(st, buf).rest| == 4096 <==>
      |buf| == 4096 && buf[0] == 0xFF && buf[1] == 0x5A && buf[2] as nat * 256 + buf[3] > 4096
  {
    DrainShrinks(st, buf);
    if |buf| == 4096 {
      assert buf[2..4] == [buf[2], buf[3]];
      BigEndian.DecodeTwo(buf[2], buf[3]);
    }
  }

  /** The same with the name the following lemmas use. */
  lemma CarryFits(st: State, buf: Bytes)
    requires |buf| <= BUFFER
    ensures |Drain(st, buf).rest| <= BUFFER
    ensures |Drain(st, buf).rest| == BUFFER ==> Oversized(buf)
  {
    DrainShrinks(st, buf);
  }

  /** Every length field the scan of s looks at is at most the size of the working buffer. */
  predicate ExaminedFit(s: Bytes)
    decreases |s|
  {
    !Oversized(s) &&
    match Examine(s)
    case Wait => true
    case Skip => ExaminedFit(s[1..])
    case Take => IsReset(PacketAt(s).ctl) || Length(s) == 0 || ExaminedFit(s[Length(s)..])
  }

  lemma {:induction false} ExaminedFitResumes(st: State, a: Bytes, b: Bytes)
    requires ExaminedFit(a + b)
    ensures var o := Drain(st, a); o.status.Waiting? ==> ExaminedFit(o.rest + b) && !Oversized(o.rest)
    decreases |a|
  {
    if Examine(a).Wait? {
      if |a| >= HEADER { assert (a + b)[2..4] == a[2..4]; }
    } else {
      LookStable(a, b);
      var n := if Examine(a).Skip? then 1 else Length(a);
      DropOfAppend(a, b, n);
      if Examine(a).Skip? {
        ExaminedFitResumes(st, a[1..], b);
      } else if n > 0 && !IsReset(PacketAt(a).ctl) {
        ExaminedFitResumes(Handle(st, n, PacketAt(a)), a[n..], b);
      }
    }
  }

  /** Each read returns at least one byte and no more than the room behind the carried bytes. */
  predicate Feasible(st: State, carry: Bytes, chunks: seq<Bytes>)
    decreases |chunks|
  {
    chunks == [] ||
    (0 < |chunks[0]| <= BUFFER - |carry| &&
     var o := Drain(st, carry + chunks[0]);
     (o.status.Waiting? ==> Feasible(o.state, o.rest, chunks[1..])))
  }

  /** After every call there is room to read at least one more byte. */
  predicate RoomAlways(st: State, carry: Bytes, chunks: seq<Bytes>)
    decreases |chunks|
  {
    |carry| < BUFFER &&
    (chunks == [] ||
     var o := Drain(st, carry + chunks[0]);
     (o.status.Waiting? ==> RoomAlways(o.state, o.rest, chunks[1..])))
  }

  /** When no examined length exceeds the buffer, the carry never fills it, however the reads fall. */
  lemma {:induction false} CarryNeverFull(st: State, carry: Bytes, chunks: seq<Bytes>)
    requires |carry| < BUFFER && Feasible(st, carry, chunks) && ExaminedFit(carry + Flatten(chunks))
    ensures RoomAlways(st, carry, chunks)
    decreases |chunks|
  {
    if chunks != [] {
      var buf, later := carry + chunks[0], Flatten(chunks[1..]);
      var o := Drain(st, buf);
      assert carry + Flatten(chunks) == buf + later;
      ExaminedFitResumes(st, buf, later);
      CarryFits(st, buf);
      ExaminedFitHere(buf, later);
      if o.status.Waiting? { CarryNeverFull(o.state, o.rest, chunks[1..]); }
    }
  }

  lemma ExaminedFitHere(a: Bytes, b: Bytes)
    requires ExaminedFit(a + b)
    ensures !Oversized(a)
  {
    if |a| >= HEADER { assert (a + b)[2..4] == a[2..4]; }
  }

  // ----- round trip -----

  /** No two adjacent bytes look like a sync mark. */
  predicate NoSync(s: Bytes) { forall i | 0 <= i < |s| - 1 :: !(s[i] == 0xFF && s[i + 1] == 0x5A) }

  lemma BuildIsTaken(p: Packet, suffix: Bytes)
    requires HEADER + |p.payload| < 0x1_0000
    ensures var s := Build(p) + suffix;
      Examine(s).Take? && PacketAt(s) == p && Length(s) == |Build(p)| && s[Length(s)..] == suffix
  {
    var s := Build(p) + suffix;
    var total := HEADER + |p.payload|;
    assert BigEndian.Limit(2) == 0x1_0000;
    BigEndian.DecodeEncode(total, 2);
    assert s[2..4] == BigEndian.Encode(total, 2);
    assert s[..8] == Prefix(p) && s[8] == Checksum(Prefix(p));
    assert s[HEADER..total] == p.payload;
  }

  lemma DrainPacket(st: State, p: Packet, rest: Bytes)
    requires HEADER + |p.payload| < 0x1_0000 && !IsReset(p.ctl)
    ensures Drain(st, Build(p) + rest) == Drain(Handle(st, HEADER + |p.payload|, p), rest)
  {
    BuildIsTaken(p, rest);
  }

  lemma DrainPacketTo(st: State, p: Packet, rest: Bytes, next: State)
    requires HEADER + |p.payload| < 0x1_0000 && !IsReset(p.ctl) && next == Handle(st, HEADER + |p.payload|, p)
    ensures Drain(st, Build(p) + rest) == Drain(next, rest)
  {
    DrainPacket(st, p, rest);
  }

  lemma {:induction false} GarbageIsSkipped(st: State, garbage: Bytes, s: Bytes)
    requires NoSync(garbage) && |s| >= HEADER && s[0] == 0xFF
    ensures Drain(st, garbage + s) == Drain(st, s)
    decreases |garbage|
  {
    if garbage == [] {
      assert garbage + s == s;
    } else {
      assert (garbage + s)[1..] == garbage[1..] + s;
      GarbageIsSkipped(st, garbage[1..], s);
    }
  }

  function BuildAll(ps: seq<Packet>): Bytes
  {
    if ps == [] then [] else Build(ps[0]) + BuildAll(ps[1..])
  }

  /** A data packet: none of the three bits the receiver tests is set. */
  predicate IsData(p: Packet) { !Bit(p.ctl, SYN) && !Bit(p.ctl, ACK) && !Bit(p.ctl, RST) }

  predicate Sendable(p: Packet) { IsData(p) && HEADER + |p.payload| < 0x1_0000 }

  /** Each packet is acknowledged with its own number before it is passed up. */
  function Answers(localSeq: byte, ps: seq<Packet>): seq<Event>
  {
    if ps == [] then []
    else
      var ack := Build(Packet(ACK, localSeq, ps[0].seqNo, 0, []));
      [Sent(ack), Received(HEADER + |ps[0].payload|, ps[0])] + Answers(localSeq, ps[1..])
  }

  function After(st: State, ps: seq<Packet>): State
  {
    st.(remoteSeq := if ps == [] then st.remoteSeq else ps[|ps| - 1].seqNo, log := st.log + Answers(st.localSeq, ps))
  }

  lemma AfterNext(st: State, ps: seq<Packet>)
    requires ps != [] && IsData(ps[0])
    ensures After(Handle(st, HEADER + |ps[0].payload|, ps[0]), ps[1..]) == After(st, ps)
  {
    var next := Handle(st, HEADER + |ps[0].payload|, ps[0]);
    var first := Answers(st.localSeq, ps)[..2];
    assert next.log == st.log + first;
    assert st.log + first + Answers(st.localSeq, ps[1..]) == st.log + (first + Answers(st.localSeq, ps[1..]));
  }

  lemma {:induction false} PacketsAreDelivered(st: State, ps: seq<Packet>)
    requires forall p <- ps :: Sendable(p)
    ensures Drain(st, BuildAll(ps)) == Outcome(After(st, ps), [], Waiting)
    decreases |ps|
  {
    if ps == [] {
      assert st.log + [] == st.log;
    } else {
      assert Sendable(ps[0]);
      DrainPacket(st, ps[0], BuildAll(ps[1..]));
      var next := Handle(st, HEADER + |ps[0].payload|, ps[0]);
      PacketsAreDelivered(next, ps[1..]);
      AfterNext(st, ps);
    }
  }

  /**
   * After any garbage without a sync mark, a list of data packets split into any reads is passed up in order
   * with session and payload intact, each acknowledged first, and remote_seq ends at the last number.
   */
  lemma LinkRoundTrip(st: State, garbage: Bytes, ps: seq<Packet>, chunks: seq<Bytes>)
    requires ps != [] && (forall p <- ps :: Sendable(p)) && NoSync(garbage)
    requires Flatten(chunks) == garbage + BuildAll(ps)
    ensures Reads(st, [], chunks) == Outcome(After(st, ps), [], Waiting)
  {
    ChunkingIndependence(st, [], chunks);
    assert [] + Flatten(chunks) == Flatten(chunks);
    GarbageIsSkipped(st, garbage, BuildAll(ps));
    PacketsAreDelivered(st, ps);
  }

  /** A data packet that fits the working buffer. */
  predicate Short(p: Packet) { IsData(p) && HEADER + |p.payload| <= BUFFER }

  lemma {:induction false} ShortPacketsFit(ps: seq<Packet>)
    requires forall p <- ps :: Short(p)
    ensures ExaminedFit(BuildAll(ps))
    decreases |ps|
  {
    if ps != [] {
      assert Short(ps[0]);
      BuildIsTaken(ps[0], BuildAll(ps[1..]));
      ShortPacketsFit(ps[1..]);
    }
  }

  lemma {:induction false} GarbageFits(garbage: Bytes, s: Bytes)
    requires NoSync(garbage) && |s| >= HEADER && s[0] == 0xFF && ExaminedFit(s)
    ensures ExaminedFit(garbage + s)
    decreases |garbage|
  {
    if garbage == [] {
      assert garbage + s == s;
    } else {
      assert (garbage + s)[1..] == garbage[1..] + s;
      GarbageFits(garbage[1..], s);
    }
  }

  /**
   * Packets of at most 4087 payload bytes come through whatever the sizes of the reads, each at most the room
   * there is, and there is always room for the next one.
   */
  lemma ShortPacketsComeThrough(st: State, garbage: Bytes, ps: seq<Packet>, chunks: seq<Bytes>)
    requires ps != [] && (forall p <- ps :: Short(p)) && NoSync(garbage)
    requires Flatten(chunks) == garbage + BuildAll(ps) && Feasible(st, [], chunks)
    ensures RoomAlways(st, [], chunks)
    ensures Reads(st, [], chunks) == Outcome(After(st, ps), [], Waiting)
  {
    forall p <- ps
      ensures Sendable(p)
    {
      assert Short(p);
    }
    LinkRoundTrip(st, garbage, ps, chunks);
    ShortPacketsFit(ps);
    GarbageFits(garbage, BuildAll(ps));
    assert [] + Flatten(chunks) == garbage + BuildAll(ps);
    CarryNeverFull(st, [], chunks);
  }

  /** What a SYN does: one packet goes out, and the numbers move. */
  function Answered(st: State, p: Packet): State
  {
    var reply := Sent(Build(Packet(SYN_ACK, st.localSeq, p.seqNo, 0, p.payload)));
    State((st.localSeq + 1) % 0x100, p.seqNo, true, st.log + [reply])
  }

  lemma HandleSyn(st: State, length: nat, p: Packet)
    requires Bit(p.ctl, SYN)
    ensures Handle(st, length, p) == Answered(st, p)
  {}

  /**
   * A SYN is answered by one packet with SYN and ACK set, which acknowledges its number and echoes its
   * parameters.  The answer has a SYN bit itself, so an endpoint of this kind answers it again.
   */
  lemma SynIsAnswered(st: State, p: Packet, rest: Bytes)
    requires Bit(p.ctl, SYN) && HEADER + |p.payload| < 0x1_0000
    ensures Bit(SYN_ACK, SYN)
    ensures Drain(st, Build(p) + rest) == Drain(Answered(st, p), rest)
  {
    HandleSyn(st, HEADER + |p.payload|, p);
    DrainPacketTo(st, p, rest, Answered(st, p));
  }

  /** With ACK set and SYN clear a packet only moves remote_seq, to its own number, not to the one it acknowledges. */
  lemma AckMovesRemote(st: State, p: Packet, rest: Bytes)
    requires p.ctl == 0x40 && HEADER + |p.payload| < 0x1_0000
    ensures Drain(st, Build(p) + rest) == Drain(st.(remoteSeq := p.seqNo), rest)
  {
    DrainPacketTo(st, p, rest, st.(remoteSeq := p.seqNo));
  }

  /** A reset closes the link: nothing behind it is looked at. */
  lemma ResetCloses(st: State, p: Packet, rest: Bytes)
    requires p.ctl == 0x10 && HEADER + |p.payload| < 0x1_0000
    ensures Drain(st, Build(p) + rest) == Outcome(st.(synced := false), [], Closed)
  {
    BuildIsTaken(p, rest);
  }

  /** The control bits, tested in this order: 0x80 is a SYN, else 0x40 an ACK, else 0x10 a reset, else data. */
  lemma ControlBits(st: State, length: nat, p: Packet)
    ensures IsReset(p.ctl) <==> p.ctl / 0x80 % 2 == 0 && p.ctl / 0x40 % 2 == 0 && p.ctl / 0x10 % 2 == 1
    ensures IsData(p) <==> p.ctl / 0x80 % 2 == 0 && p.ctl / 0x40 % 2 == 0 && p.ctl / 0x10 % 2 == 0
    ensures p.ctl / 0x80 % 2 == 1 ==> Handle(st, length, p) == Answered(st, p)
    ensures p.ctl / 0x80 % 2 == 0 && p.ctl / 0x40 % 2 == 1 ==> Handle(st, length, p) == st.(remoteSeq := p.seqNo)
    ensures SYN_ACK == 0xC0
  {}

  /** The header as it stands on the wire. */
  lemma PacketBytes(p: Packet)
    requires HEADER + |p.payload| < 0x1_0000
    ensures var n := 9 + |p.payload|;
      Build(p)[..8] == [0xFF, 0x5A, n / 256, n % 256, p.ctl, p.seqNo, p.ack, p.session]
    ensures Build(p)[9..] == p.payload
  {
    BigEndian.EncodeTwo(9 + |p.payload|);
    assert Build(p)[..8] == Prefix(p);
  }

  lemma ChecksumIsZeroSum(sum: nat, c: byte)
    ensures (sum + c) % 0x100 == 0 <==> c == (0x100 - sum % 0x100) % 0x100
  {}

  /**
   * Which bytes are taken for a packet: a sync mark, a length that is there completely and nine header bytes that
   * sum to 0.  When one of these fails on a whole header the scan moves on by one byte, or waits for the length.
   */
  lemma TakenWhen(s: Bytes)
    requires |s| >= 9
    ensures var len := s[2] as nat * 256 + s[3];
      && (Examine(s).Take? <==> s[0] == 0xFF && s[1] == 0x5A && len <= |s| && Sum(s[..9]) % 0x100 == 0)
      && (Examine(s).Wait? <==> s[0] == 0xFF && s[1] == 0x5A && len > |s|)
  {
    assert s[2..4] == [s[2], s[3]];
    BigEndian.DecodeTwo(s[2], s[3]);
    assert s[..9][..8] == s[..8] && s[..9][8] == s[8];
    ChecksumIsZeroSum(Sum(s[..8]), s[8]);
  }

  /** A header that does not sum to 0 costs one byte, whatever length it declares. */
  lemma BadChecksumSkips(st: State, s: Bytes)
    requires |s| >= 9 && Sum(s[..9]) % 0x100 != 0 && s[2] as nat * 256 + s[3] <= |s|
    ensures Drain(st, s) == Drain(st, s[1..])
  {
    TakenWhen(s);
  }

  /** What the session layer hands down: a session and a payload. */
  datatype Message = Message(session: byte, payload: Bytes)

  /** The packets iap2_link_send_data makes of them, numbered from localSeq modulo 256. */
  function Numbered(localSeq: byte, remoteSeq: byte, ms: seq<Message>): (r: seq<Packet>)
    ensures |r| == |ms|
    decreases |ms|
  {
    if ms == [] then []
    else
      var p := Packet(0, localSeq, remoteSeq, ms[0].session, ms[0].payload);
      [p] + Numbered((localSeq + 1) % 0x100, remoteSeq, ms[1..])
  }

  /** The messages a log shows as passed up. */
  function PassedUp(log: seq<Event>): seq<Message>
  {
    if log == [] then []
    else if log[0].Received? then [Message(log[0].packet.session, log[0].packet.payload)] + PassedUp(log[1..])
    else PassedUp(log[1..])
  }

  lemma {:induction false} NumberedArrive(localSeq: byte, remoteSeq: byte, ackSeq: byte, ms: seq<Message>)
    requires forall m <- ms :: HEADER + |m.payload| < 0x1_0000
    ensures var ps := Numbered(localSeq, remoteSeq, ms);
      (forall p <- ps :: Sendable(p)) && PassedUp(Answers(ackSeq, ps)) == ms
    decreases |ms|
  {
    if ms != [] {
      NumberedArrive((localSeq + 1) % 0x100, remoteSeq, ackSeq, ms[1..]);
      var ps := Numbered(localSeq, remoteSeq, ms);
      var log := Answers(ackSeq, ps);
      assert ps[1..] == Numbered((localSeq + 1) % 0x100, remoteSeq, ms[1..]);
      assert log[1..][1..] == Answers(ackSeq, ps[1..]);
      assert PassedUp(log) == PassedUp(log[1..]) == [ms[0]] + PassedUp(log[1..][1..]);
    }
  }

  lemma StepModulo(a: nat, n: nat)
    ensures ((a + 1) % 0x100 + n) % 0x100 == (a + (n + 1)) % 0x100
  {}

  lemma NumberedNext(localSeq: byte, next: byte, remoteSeq: byte, ms: seq<Message>, i: nat)
    requires i + 1 < |ms| && next == (localSeq + 1) % 0x100
    ensures Numbered(localSeq, remoteSeq, ms)[i + 1] == Numbered(next, remoteSeq, ms[1..])[i]
  {}

  lemma {:induction false} NumberAt(localSeq: byte, remoteSeq: byte, ms: seq<Message>, i: nat)
    requires i < |ms|
    ensures Numbered(localSeq, remoteSeq, ms)[i]
         == Packet(0x00, (localSeq + i) % 0x100, remoteSeq, ms[i].session, ms[i].payload)
    decreases i
  {
    if i > 0 {
      var next: byte := (localSeq + 1) % 0x100;
      NumberAt(next, remoteSeq, ms[1..], i - 1);
      NumberedNext(localSeq, next, remoteSeq, ms, i - 1);
      StepModulo(localSeq, i - 1);
    }
  }

  lemma AfterNumbered(st: State, localSeq: byte, remoteSeq: byte, ms: seq<Message>)
    requires ms != [] && forall m <- ms :: HEADER + |m.payload| < 0x1_0000
    ensures var end := After(st, Numbered(localSeq, remoteSeq, ms));
      && st.log <= end.log && PassedUp(end.log[|st.log|..]) == ms
      && end.remoteSeq == (localSeq + |ms| - 1) % 0x100
  {
    var ps := Numbered(localSeq, remoteSeq, ms);
    NumberedArrive(localSeq, remoteSeq, st.localSeq, ms);
    NumberAt(localSeq, remoteSeq, ms, |ms| - 1);
    assert After(st, ps).log[|st.log|..] == Answers(st.localSeq, ps);
  }

  /** Sender to receiver: what one end's session layer sends, the other end's receives, in order. */
  lemma SessionsMeet(st: State, localSeq: byte, remoteSeq: byte, ms: seq<Message>, garbage: Bytes, chunks: seq<Bytes>)
    requires ms != [] && (forall m <- ms :: HEADER + |m.payload| < 0x1_0000) && NoSync(garbage)
    requires Flatten(chunks) == garbage + BuildAll(Numbered(localSeq, remoteSeq, ms))
    ensures var o := Reads(st, [], chunks);
      && st.log <= o.state.log && PassedUp(o.state.log[|st.log|..]) == ms
      && o.state.remoteSeq == (localSeq + |ms| - 1) % 0x100
  {
    NumberedArrive(localSeq, remoteSeq, st.localSeq, ms);
    LinkRoundTrip(st, garbage, Numbered(localSeq, remoteSeq, ms), chunks);
    AfterNumbered(st, localSeq, remoteSeq, ms);
  }

  // ----- the link object -----

  class Endpoint {
    var localSeq: byte
    var remoteSeq: byte
    var synced: bool
    const carry: array<byte>
    var carryLen: nat
    /** Everything written to the transport and passed to the callback, in order. */
    var log: seq<Event>

    predicate Valid()
      reads this, carry
    {
      carry.Length == BUFFER && carryLen <= BUFFER
    }

    function View(): State
      reads this
    {
      State(localSeq, remoteSeq, synced, log)
    }

    constructor ()
      ensures Valid() && fresh(carry) && carryLen == 0
      ensures View() == State(0, 0, false, [])
    {
      localSeq, remoteSeq, synced, log := 0, 0, false, [];
      carry, carryLen := new byte[BUFFER], 0;
    }

    /** iap2_link_send_data. */
    method SendData(m: Message)
      modifies this`localSeq, this`log
      ensures View() == old(View()).(
        localSeq := (old(localSeq) + 1) % 0x100,
        log := old(log) + [Sent(Build(Numbered(old(localSeq), old(remoteSeq), [m])[0]))])
    {
      log := log + [Sent(Build(Packet(0, localSeq, remoteSeq, m.session, m.payload)))];
      localSeq := (localSeq + 1) % 0x100;
    }

    /** What the loop does with an accepted packet; false when it is a reset. */
    method Dispatch(len: nat, p: Packet) returns (alive: bool)
      modifies this`localSeq, this`remoteSeq, this`synced, this`log
      ensures View() == Handle(old(View()), len, p) && (alive <==> !IsReset(p.ctl))
    {
      if Bit(p.ctl, SYN) {
        remoteSeq, synced := p.seqNo, true;
        log := log + [Sent(Build(Packet(SYN_ACK, localSeq, p.seqNo, 0, p.payload)))];
        localSeq := (localSeq + 1) % 0x100;
      } else if Bit(p.ctl, ACK) {
        remoteSeq := p.seqNo;
      } else if Bit(p.ctl, RST) {
        synced := false;
        return false;
      } else {
        remoteSeq := p.seqNo;
        log := log + [Sent(Build(Packet(ACK, localSeq, p.seqNo, 0, []))), Received(len, p)];
      }
      return true;
    }

    /**
     * iap2_link_process after a read of `chunk` into the room behind the carried bytes, which advance: on any
     * others it does not return.
     */
    method Process(chunk: Bytes) returns (alive: bool)
      requires Valid() && 0 < |chunk| <= BUFFER - carryLen
      requires Advances(carry[..carryLen] + chunk)
      modifies this, carry
      ensures Valid()
      ensures var o := Drain(old(View()), old(carry[..carryLen]) + chunk);
        View() == o.state && carry[..carryLen] == o.rest && (alive <==> o.status.Waiting?)
    {
      var rest := carry[..carryLen] + chunk;
      ghost var goal := Drain(View(), rest);
      carryLen := 0;
      while |rest| >= HEADER
        invariant carryLen == 0 && |rest| <= BUFFER
        invariant Drain(View(), rest) == goal && Advances(rest)
        decreases |rest|
      {
        if !AtSync(rest) {
          rest := rest[1..];
          continue;
        }
        var len := Length(rest);
        if len > |rest| {
          break;
        }
        var expected := ComputeChecksum(rest[..8]);
        if rest[8] != expected {
          rest := rest[1..];
          continue;
        }
        alive := Dispatch(len, PacketAt(rest));
        if !alive {
          return;
        }
        rest := rest[len..];
      }
      carryLen := Min(|rest|, BUFFER);
      forall i | 0 <= i < carryLen {
        carry[i] := rest[i];
      }
      return true;
    }
  }
}
