/** The compositor's control channel: line assembly and the client table of radxa/compositor/src/control_channel.c. */
module Control {
  import opened Prelude

  const CR: byte := 13
  const LF: byte := 10
  const LINE_MAX: nat := 255
  const MAX_CLIENTS: nat := 8

  // ----- line assembly -----

  /** The string a C reader sees in a buffer: up to the first zero byte. */
  function CString(s: Bytes): Bytes
  {
    if s == [] || s[0] == 0 then [] else [s[0]] + CString(s[1..])
  }

  /** The commands the loop of client_read dispatches for these bytes, and the line left in the buffer. */
  function Feed(line: Bytes, s: Bytes): (seq<Bytes>, Bytes)
    decreases |s|
  {
    if s == [] then ([], line)
    else if s[0] == CR then Feed(line, s[1..])
    else if s[0] == LF then
      var (later, left) := Feed([], s[1..]);
      ((if line == [] then [] else [CString(line)]) + later, left)
    else Feed(if |line| < LINE_MAX then line + [s[0]] else line, s[1..])
  }

  lemma {:induction false} FeedInPieces(line: Bytes, a: Bytes, b: Bytes)
    ensures var (first, mid) := Feed(line, a);
      var (second, left) := Feed(mid, b);
      Feed(line, a + b) == (first + second, left)
    decreases |a|
  {
    if a == [] {
      assert a + b == b;
      assert [] + Feed(line, b).0 == Feed(line, b).0;
    } else {
      assert (a + b)[1..] == a[1..] + b;
      if a[0] == CR {
        FeedInPieces(line, a[1..], b);
      } else if a[0] == LF {
        FeedInPieces([], a[1..], b);
        var now: seq<Bytes> := if line == [] then [] else [CString(line)];
        var (first, mid) := Feed([], a[1..]);
        assert now + (first + Feed(mid, b).0) == now + first + Feed(mid, b).0;
      } else {
        FeedInPieces(if |line| < LINE_MAX then line + [a[0]] else line, a[1..], b);
      }
    }
  }

  /** Reads of one client, one after the other. */
  function FeedAll(line: Bytes, chunks: seq<Bytes>): (seq<Bytes>, Bytes)
    decreases |chunks|
  {
    if chunks == [] then ([], line)
    else
      var (now, next) := Feed(line, chunks[0]);
      var (later, left) := FeedAll(next, chunks[1..]);
      (now + later, left)
  }

  // ----- what the commands are -----

  /** A stream cut at its line feeds: the lines that ended, and what stands behind the last of them. */
  datatype Cut = Cut(ended: seq<Bytes>, open: Bytes)

  function Lines(s: Bytes): Cut
  {
    if s == [] then Cut([], [])
    else
      var rest := Lines(s[1..]);
      if s[0] == LF then Cut([[]] + rest.ended, rest.open)
      else if rest.ended == [] then Cut([], [s[0]] + rest.open)
      else Cut([[s[0]] + rest.ended[0]] + rest.ended[1..], rest.open)
  }

  function DropCr(s: Bytes): Bytes
  {
    if s == [] then [] else (if s[0] == CR then [] else [s[0]]) + DropCr(s[1..])
  }

  function Take(s: Bytes, n: nat): Bytes { if |s| <= n then s else s[..n] }

  /** A line as it stands in the buffer: without carriage returns, cut to 255 bytes. */
  function Clean(line: Bytes): Bytes { Take(DropCr(line), LINE_MAX) }

  function Commands(ended: seq<Bytes>): seq<Bytes>
  {
    if ended == [] then []
    else (if Clean(ended[0]) == [] then [] else [CString(Clean(ended[0]))]) + Commands(ended[1..])
  }

  /** What becomes of a line held in the buffer when the rest of it arrives. */
  function Joined(held: Bytes, more: Bytes): Bytes { Take(held + DropCr(more), LINE_MAX) }

  lemma JoinedOne(held: Bytes, b: byte, more: Bytes)
    requires |held| <= LINE_MAX && b != CR
    ensures Joined(held, [b] + more) == Joined(if |held| < LINE_MAX then held + [b] else held, more)
  {
    assert ([b] + more)[1..] == more;
    assert held + ([b] + DropCr(more)) == held + [b] + DropCr(more);
  }

  function Command(line: Bytes): seq<Bytes>
  {
    if line == [] then [] else [CString(line)]
  }

  /** What Feed does, in terms of the lines of its input. */
  function FedLines(held: Bytes, cut: Cut): (seq<Bytes>, Bytes)
  {
    if cut.ended == [] then ([], Joined(held, cut.open))
    else (Command(Joined(held, cut.ended[0])) + Commands(cut.ended[1..]), Clean(cut.open))
  }

  lemma JoinedNothing(held: Bytes, line: Bytes)
    ensures |held| <= LINE_MAX ==> Joined(held, []) == held
    ensures Joined([], line) == Clean(line)
  {
    assert held + [] == held && [] + DropCr(line) == DropCr(line);
  }

  /** A line feed ends the held line; what follows starts a new one. */
  lemma FedAtLineEnd(held: Bytes, rest: Cut)
    requires |held| <= LINE_MAX
    ensures FedLines(held, Cut([[]] + rest.ended, rest.open))
      == (Command(held) + FedLines([], rest).0, FedLines([], rest).1)
  {
    JoinedNothing(held, rest.open);
    assert ([[]] + rest.ended)[1..] == rest.ended;
    if rest.ended != [] { JoinedNothing(held, rest.ended[0]); }
  }

  lemma JoinedCr(held: Bytes, more: Bytes)
    ensures Joined(held, [CR] + more) == Joined(held, more)
  {
    assert ([CR] + more)[1..] == more && [] + DropCr(more) == DropCr(more);
  }

  lemma FedAfterCons(b: byte, rest: Cut)
    requires rest.ended != []
    ensures var ended := [[b] + rest.ended[0]] + rest.ended[1..];
      ended[0] == [b] + rest.ended[0] && ended[1..] == rest.ended[1..]
  {}

  lemma {:induction false} FeedIsLines(held: Bytes, s: Bytes)
    requires |held| <= LINE_MAX
    ensures Feed(held, s) == FedLines(held, Lines(s))
    decreases |s|
  {
    if s == [] {
      JoinedNothing(held, []);
    } else {
      var rest := Lines(s[1..]);
      if s[0] == LF {
        FeedIsLines([], s[1..]);
        FedAtLineEnd(held, rest);
      } else {
        var next := if s[0] == CR then held else if |held| < LINE_MAX then held + [s[0]] else held;
        FeedIsLines(next, s[1..]);
        var piece := if rest.ended == [] then rest.open else rest.ended[0];
        if s[0] == CR { JoinedCr(held, piece); } else { JoinedOne(held, s[0], piece); }
        if rest.ended != [] { FedAfterCons(s[0], rest); }
      }
    }
  }

  lemma {:induction false} ChunksAreOneStream(line: Bytes, chunks: seq<Bytes>)
    ensures FeedAll(line, chunks) == Feed(line, Flatten(chunks))
    decreases |chunks|
  {
    if chunks != [] {
      FeedInPieces(line, chunks[0], Flatten(chunks[1..]));
      ChunksAreOneStream(Feed(line, chunks[0]).1, chunks[1..]);
    }
  }

  /**
   * However a client's bytes are split into reads, the commands dispatched are the lines ended by a line feed,
   * without carriage returns, cut to 255 bytes, empty ones left out; the unfinished line waits in the buffer.
   */
  lemma DispatchedLines(chunks: seq<Bytes>)
    ensures var cut := Lines(Flatten(chunks)); FeedAll([], chunks) == (Commands(cut.ended), Clean(cut.open))
  {
    var cut := Lines(Flatten(chunks));
    ChunksAreOneStream([], chunks);
    FeedIsLines([], Flatten(chunks));
    JoinedNothing([], cut.open);
    if cut.ended != [] { JoinedNothing([], cut.ended[0]); }
  }

  lemma {:induction false} CStringEnds(a: Bytes, b: Bytes)
    requires 0 !in a
    ensures CString(a) == a && CString(a + ([0] + b)) == a
    decreases |a|
  {
    var s := a + ([0] + b);
    if |a| > 0 {
      assert a[0] in a && forall x <- a[1..] :: x in a;
      assert s[0] == a[0] && s[1..] == a[1..] + ([0] + b);
      CStringEnds(a[1..], b);
    }
  }

  /** A line a client may send: nothing that ends it early, and short enough for the buffer. */
  predicate Plain(line: Bytes) { 1 <= |line| <= 255 && 0 !in line && 10 !in line && 13 !in line }

  /** The lines, each ended by a carriage return and a line feed. */
  function Typed(lines: seq<Bytes>): Bytes
  {
    if lines == [] then [] else lines[0] + ([13, 10] + Typed(lines[1..]))
  }

  lemma {:induction false} FeedPlain(line: Bytes, more: Bytes, rest: Bytes)
    requires 10 !in more && 13 !in more && |line| + |more| <= 255
    ensures Feed(line, more + rest) == Feed(line + more, rest)
    decreases |more|
  {
    if |more| == 0 {
      assert more + rest == rest && line + more == line;
    } else {
      var s := more + rest;
      assert more[0] in more && forall x <- more[1..] :: x in more;
      assert s[0] == more[0] && s[1..] == more[1..] + rest;
      FeedPlain(line + [more[0]], more[1..], rest);
      assert line + [more[0]] + more[1..] == line + more;
    }
  }

  lemma FeedLineEnd(line: Bytes, rest: Bytes)
    requires |line| > 0
    ensures Feed(line, [13, 10] + rest) == ([CString(line)] + Feed([], rest).0, Feed([], rest).1)
  {
    assert ([13, 10] + rest)[1..] == [10] + rest && ([10] + rest)[1..] == rest;
  }

  lemma {:induction false} TypedLines(lines: seq<Bytes>)
    requires forall line <- lines :: Plain(line)
    ensures Feed([], Typed(lines)) == (lines, [])
    decreases |lines|
  {
    if |lines| > 0 {
      var line, rest := lines[0], Typed(lines[1..]);
      assert Plain(line);
      TypedLines(lines[1..]);
      FeedPlain([], line, [13, 10] + rest);
      assert [] + line == line;
      FeedLineEnd(line, rest);
      CStringEnds(line, []);
      assert [line] + lines[1..] == lines;
    }
  }

  /** Lines of 1 to 255 bytes without zero bytes come through unchanged, however they are split into reads. */
  lemma LinesComeThrough(lines: seq<Bytes>, chunks: seq<Bytes>)
    requires (forall line <- lines :: Plain(line)) && Flatten(chunks) == Typed(lines)
    ensures FeedAll([], chunks) == (lines, [])
  {
    ChunksAreOneStream([], chunks);
    TypedLines(lines);
  }

  lemma {:induction false} FeedFull(line: Bytes, more: Bytes, rest: Bytes)
    requires |line| == 255 && 10 !in more && 13 !in more
    ensures Feed(line, more + rest) == Feed(line, rest)
    decreases |more|
  {
    if |more| == 0 {
      assert more + rest == rest;
    } else {
      var s := more + rest;
      assert more[0] in more && forall x <- more[1..] :: x in more;
      assert s[0] == more[0] && s[1..] == more[1..] + rest;
      FeedFull(line, more[1..], rest);
    }
  }

  /** Of a longer line the first 255 bytes are dispatched. */
  lemma LongLineIsCut(line: Bytes, rest: Bytes)
    requires |line| > 255 && 0 !in line && 10 !in line && 13 !in line
    ensures Feed([], line + ([13, 10] + rest)) == ([line[..255]] + Feed([], rest).0, Feed([], rest).1)
  {
    var front, tail := line[..255], line[255..];
    var ended := [13, 10] + rest;
    assert (forall x <- front :: x in line) && (forall x <- tail :: x in line);
    assert line + ended == front + (tail + ended) && [] + front == front;
    FeedPlain([], front, tail + ended);
    FeedFull(front, tail, ended);
    FeedLineEnd(front, rest);
    CStringEnds(front, []);
  }

  // ----- the client table -----

  datatype Client = Client(fd: nat, line: Bytes)

  /** What recv reports on a descriptor during a service pass. */
  datatype Recv = NoData | Data(bytes: Bytes) | Gone

  function Served(c: Client, r: Recv): Client
  {
    if r.Data? then c.(line := Feed(c.line, r.bytes).1) else c
  }

  /** client_remove: the last client moves into the hole. */
  function Remove(cs: seq<Client>, i: nat): (r: seq<Client>)
    requires i < |cs|
    ensures |r| == |cs| - 1
  {
    var last := |cs| - 1;
    if i < last then cs[i := cs[last]][..last] else cs[..last]
  }

  type Traffic = nat -> Recv

  /** The clients that are still there after a pass, brought up to date. */
  function Survivors(cs: seq<Client>, traffic: Traffic): seq<Client>
  {
    if cs == [] then []
    else
      var c := cs[|cs| - 1];
      Survivors(cs[..|cs| - 1], traffic) + if traffic(c.fd).Gone? then [] else [Served(c, traffic(c.fd))]
  }

  /** One turn of the service loop at index i. */
  function ServiceAt(cs: seq<Client>, i: nat, traffic: Traffic): seq<Client>
    requires i < |cs|
  {
    var c := cs[i];
    if traffic(c.fd).Gone? then Remove(cs, i) else cs[i := Served(c, traffic(c.fd))]
  }

  lemma RemoveKeepsOthers(cs: seq<Client>, i: nat)
    requires i < |cs|
    ensures Remove(cs, i)[..i] == cs[..i]
    ensures multiset(Remove(cs, i)[i..]) == multiset(cs[i + 1..])
  {
    var last := |cs| - 1;
    if i < last {
      assert Remove(cs, i)[i..] == [cs[last]] + cs[i + 1..last];
      assert cs[i + 1..] == cs[i + 1..last] + [cs[last]];
    } else {
      assert Remove(cs, i)[i..] == [] && cs[i + 1..] == [];
    }
  }

  lemma ServiceTurn(cs: seq<Client>, i: nat, traffic: Traffic)
    requires i < |cs|
    ensures var c, next := cs[i], ServiceAt(cs, i, traffic);
      && |next| >= i && next[..i] == cs[..i]
      && multiset(next[i..])
        == multiset(if traffic(c.fd).Gone? then [] else [Served(c, traffic(c.fd))]) + multiset(cs[i + 1..])
  {
    var c := cs[i];
    if traffic(c.fd).Gone? {
      RemoveKeepsOthers(cs, i);
    } else {
      assert ServiceAt(cs, i, traffic)[i..] == [Served(c, traffic(c.fd))] + cs[i + 1..];
    }
  }

  function Reversed(cs: seq<Client>): (r: seq<nat>)
    ensures |r| == |cs|
  {
    if cs == [] then [] else [cs[|cs| - 1].fd] + Reversed(cs[..|cs| - 1])
  }

  function CommandsOf(c: Client, traffic: Traffic): seq<Bytes>
  {
    if traffic(c.fd).Data? then Feed(c.line, traffic(c.fd).bytes).0 else []
  }

  /** What each visited client has dispatched, in the order of the visits. */
  function AllCommands(cs: seq<Client>, traffic: Traffic): seq<seq<Bytes>>
  {
    if cs == [] then [] else [CommandsOf(cs[|cs| - 1], traffic)] + AllCommands(cs[..|cs| - 1], traffic)
  }

  // ----- one client over many passes -----

  /** What a client dispatches over passes in none of which it is gone. */
  function CommandsOver(c: Client, passes: seq<Traffic>): seq<Bytes>
    decreases |passes|
  {
    if passes == [] then []
    else CommandsOf(c, passes[0]) + CommandsOver(Served(c, passes[0](c.fd)), passes[1..])
  }

  /** The bytes the passes receive from a descriptor. */
  function BytesOver(fd: nat, passes: seq<Traffic>): seq<Bytes>
    decreases |passes|
  {
    if passes == [] then []
    else (if passes[0](fd).Data? then [passes[0](fd).bytes] else []) + BytesOver(fd, passes[1..])
  }

  lemma FeedAllFirst(line: Bytes, chunk: Bytes, chunks: seq<Bytes>)
    ensures var (now, next) := Feed(line, chunk);
      FeedAll(line, [chunk] + chunks).0 == now + FeedAll(next, chunks).0
  {
    assert ([chunk] + chunks)[1..] == chunks;
  }

  lemma {:induction false} OverPasses(c: Client, passes: seq<Traffic>)
    ensures CommandsOver(c, passes) == FeedAll(c.line, BytesOver(c.fd, passes)).0
    decreases |passes|
  {
    if |passes| > 0 {
      var r, later := passes[0](c.fd), BytesOver(c.fd, passes[1..]);
      OverPasses(Served(c, r), passes[1..]);
      match r
      case Data(bytes) => FeedAllFirst(c.line, bytes, later);
      case NoData => Unchanged(CommandsOver(c, passes[1..]), later);
      case Gone => Unchanged(CommandsOver(c, passes[1..]), later);
    }
  }

  lemma Unchanged(commands: seq<Bytes>, chunks: seq<Bytes>)
    ensures [] + commands == commands && [] + chunks == chunks
  {}

  /**
   * Over successive passes a new client's commands are the cleaned lines of everything received from it: the line
   * a pass leaves unfinished is kept for the next.
   */
  lemma PassesDispatchLines(fd: nat, passes: seq<Traffic>)
    ensures CommandsOver(Client(fd, []), passes) == Commands(Lines(Flatten(BytesOver(fd, passes))).ended)
  {
    OverPasses(Client(fd, []), passes);
    DispatchedLines(BytesOver(fd, passes));
  }

  /** What a pass records and leaves of each client: its own commands and, unless it is gone, its own line. */
  lemma {:induction false} PassOfEach(cs: seq<Client>, traffic: Traffic, i: nat)
    requires i < |cs|
    ensures |AllCommands(cs, traffic)| == |cs|
    ensures AllCommands(cs, traffic)[|cs| - 1 - i] == CommandsOf(cs[i], traffic)
    ensures !traffic(cs[i].fd).Gone? ==> Served(cs[i], traffic(cs[i].fd)) in Survivors(cs, traffic)
    decreases |cs|
  {
    var front := cs[..|cs| - 1];
    AllCommandsLength(cs, traffic);
    if i < |cs| - 1 {
      PassOfEach(front, traffic, i);
      assert front[i] == cs[i];
    }
  }

  lemma {:induction false} AllCommandsLength(cs: seq<Client>, traffic: Traffic)
    ensures |AllCommands(cs, traffic)| == |cs|
    decreases |cs|
  {
    if |cs| > 0 { AllCommandsLength(cs[..|cs| - 1], traffic); }
  }

  // ----- a pass over the table -----

  /** Where a pass over `was` stands when the table is cs and indices i and above have been serviced. */
  ghost predicate Passing(
    was: seq<Client>, i: nat, cs: seq<Client>, visited: seq<nat>, commands: seq<seq<Bytes>>, traffic: Traffic)
  {
    && i <= |was| && i <= |cs| && cs[..i] == was[..i]
    && Reversed(was) == visited + Reversed(was[..i])
    && AllCommands(was, traffic) == commands + AllCommands(was[..i], traffic)
    && multiset(Survivors(was, traffic)) == multiset(Survivors(was[..i], traffic)) + multiset(cs[i..])
  }

  lemma PassBegins(was: seq<Client>, traffic: Traffic)
    ensures Passing(was, |was|, was, [], [], traffic)
  {
    assert was[..|was|] == was && was[|was|..] == [];
  }

  lemma PrefixNext(was: seq<Client>, i: nat, traffic: Traffic)
    requires i < |was|
    ensures Reversed(was[..i + 1]) == [was[i].fd] + Reversed(was[..i])
    ensures AllCommands(was[..i + 1], traffic) == [CommandsOf(was[i], traffic)] + AllCommands(was[..i], traffic)
    ensures Survivors(was[..i + 1], traffic)
         == Survivors(was[..i], traffic) + if traffic(was[i].fd).Gone? then [] else [Served(was[i], traffic(was[i].fd))]
  {
    assert was[..i + 1][..i] == was[..i] && was[..i + 1][i] == was[i];
  }

  lemma Regroup<T>(a: seq<T>, b: T, c: seq<T>)
    ensures a + ([b] + c) == a + [b] + c
  {}

  lemma PassRecords(was: seq<Client>, i: nat, visited: seq<nat>, commands: seq<seq<Bytes>>, traffic: Traffic)
    requires i < |was|
    requires Reversed(was) == visited + Reversed(was[..i + 1])
    requires AllCommands(was, traffic) == commands + AllCommands(was[..i + 1], traffic)
    ensures Reversed(was) == visited + [was[i].fd] + Reversed(was[..i])
    ensures AllCommands(was, traffic) == commands + [CommandsOf(was[i], traffic)] + AllCommands(was[..i], traffic)
  {
    PrefixNext(was, i, traffic);
    Regroup(visited, was[i].fd, Reversed(was[..i]));
    Regroup(commands, CommandsOf(was[i], traffic), AllCommands(was[..i], traffic));
  }

  lemma MoveServed(
    all: multiset<Client>, before: seq<Client>, served: seq<Client>, behind: multiset<Client>, next: multiset<Client>)
    requires all == multiset(before + served) + behind && next == multiset(served) + behind
    ensures all == multiset(before) + next
  {}

  lemma SameBelow(cs: seq<Client>, was: seq<Client>, i: nat)
    requires i < |was| && i < |cs| && cs[..i + 1] == was[..i + 1]
    ensures cs[i] == was[i] && cs[..i] == was[..i]
  {
    assert cs[i] == cs[..i + 1][i] == was[..i + 1][i];
    assert cs[..i] == cs[..i + 1][..i] == was[..i + 1][..i];
  }

  lemma PassClients(was: seq<Client>, i: nat, cs: seq<Client>, traffic: Traffic)
    requires i < |was| && i < |cs| && cs[..i + 1] == was[..i + 1]
    requires multiset(Survivors(was, traffic))
          == multiset(Survivors(was[..i + 1], traffic)) + multiset(cs[i + 1..])
    ensures cs[i] == was[i]
    ensures var next := ServiceAt(cs, i, traffic);
      && i <= |next| && next[..i] == was[..i]
      && multiset(Survivors(was, traffic)) == multiset(Survivors(was[..i], traffic)) + multiset(next[i..])
  {
    SameBelow(cs, was, i);
    PrefixNext(was, i, traffic);
    ServiceTurn(cs, i, traffic);
    var c := was[i];
    var served := if traffic(c.fd).Gone? then [] else [Served(c, traffic(c.fd))];
    MoveServed(multiset(Survivors(was, traffic)), Survivors(was[..i], traffic), served,
               multiset(cs[i + 1..]), multiset(ServiceAt(cs, i, traffic)[i..]));
  }

  /** The clients below i are untouched while index i is serviced; nobody is lost or visited again. */
  lemma PassTurn(
    was: seq<Client>, i: nat, cs: seq<Client>, visited: seq<nat>, commands: seq<seq<Bytes>>, traffic: Traffic)
    requires Passing(was, i + 1, cs, visited, commands, traffic)
    ensures var now := CommandsOf(cs[i], traffic);
      Passing(was, i, ServiceAt(cs, i, traffic), visited + [cs[i].fd], commands + [now], traffic)
  {
    PassRecords(was, i, visited, commands, traffic);
    PassClients(was, i, cs, traffic);
  }

  lemma PassEnds(was: seq<Client>, cs: seq<Client>, visited: seq<nat>, commands: seq<seq<Bytes>>, traffic: Traffic)
    requires Passing(was, 0, cs, visited, commands, traffic)
    ensures visited == Reversed(was) && commands == AllCommands(was, traffic)
    ensures multiset(cs) == multiset(Survivors(was, traffic))
  {
    assert was[..0] == [] && cs[0..] == cs && visited + [] == visited && commands + [] == commands;
  }

  // ----- the objects -----

  /** ctrl_client_t: the line buffer is updated byte by byte. */
  class LineBuffer {
    const buf: array<byte>
    var len: nat

    predicate Valid()
      reads this
    {
      buf.Length == LINE_MAX + 1 && len <= LINE_MAX
    }

    function Line(): Bytes
      requires Valid()
      reads this, buf
    {
      buf[..len]
    }

    constructor ()
      ensures Valid() && fresh(buf) && Line() == []
    {
      buf := new byte[LINE_MAX + 1];
      len := 0;
    }

    /** client_read on the bytes of one recv; returns the commands in the order they are dispatched. */
    method Read(bytes: Bytes) returns (commands: seq<Bytes>)
      requires Valid()
      modifies this, buf
      ensures Valid() && (commands, Line()) == Feed(old(Line()), bytes)
    {
      commands := [];
      ghost var goal := Feed(Line(), bytes);
      var rest := bytes;
      assert [] + goal.0 == goal.0;
      while rest != []
        invariant Valid()
        invariant goal == (commands + Feed(Line(), rest).0, Feed(Line(), rest).1)
        decreases |rest|
      {
        var ch := rest[0];
        rest := rest[1..];
        if ch == CR {
          continue;
        }
        if ch == LF {
          buf[len] := 0;
          ghost var later := Feed([], rest).0;
          if len > 0 {
            assert commands + ([CString(Line())] + later) == commands + [CString(Line())] + later;
            commands := commands + [CString(buf[..len])];
          } else {
            assert commands + ([] + later) == commands + later;
          }
          len := 0;
          assert Line() == [];
        } else if len < LINE_MAX {
          ghost var before := Line();
          buf[len] := ch;
          len := len + 1;
          assert Line() == before + [ch];
        }
      }
      assert commands + [] == commands;
    }
  }

  class Table {
    const clients: array<Client>
    var count: nat

    predicate Valid()
      reads this
    {
      clients.Length == MAX_CLIENTS && count <= MAX_CLIENTS
    }

    function View(): seq<Client>
      requires Valid()
      reads this, clients
    {
      clients[..count]
    }

    constructor ()
      ensures Valid() && fresh(clients) && View() == []
    {
      clients := new Client[MAX_CLIENTS](i => Client(0, []));
      count := 0;
    }

    /** client_add: a ninth client is refused. */
    method Add(fd: nat) returns (ok: bool)
      requires Valid()
      modifies this`count, clients
      ensures Valid() && count <= 8 && (ok <==> old(count) < 8)
      ensures View() == if ok then old(View()) + [Client(fd, [])] else old(View())
    {
      if count >= MAX_CLIENTS {
        return false;
      }
      clients[count] := Client(fd, []);
      count := count + 1;
      return true;
    }

    /** client_remove. */
    method RemoveAt(i: nat)
      requires Valid() && i < count
      modifies this`count, clients
      ensures Valid() && View() == Remove(old(View()), i)
    {
      count := count - 1;
      if i < count {
        clients[i] := clients[count];
      }
    }

    /** One turn of the service loop. */
    method ServeAt(i: nat, traffic: Traffic) returns (commands: seq<Bytes>)
      requires Valid() && i < count
      modifies this`count, clients
      ensures Valid() && count <= old(count) && View() == ServiceAt(old(View()), i, traffic)
      ensures commands == CommandsOf(old(View())[i], traffic)
    {
      var c := clients[i];
      match traffic(c.fd) {
        case NoData =>
          commands := [];
        case Data(bytes) =>
          var (now, line) := Feed(c.line, bytes);
          commands := now;
          clients[i] := c.(line := line);
        case Gone =>
          commands := [];
          RemoveAt(i);
      }
    }

    /**
     * The service loop of control_poll.  Every client present is visited exactly once, from the last to the
     * first, although a removal moves the last entry into the hole; those that are not gone remain, each with
     * the line its own bytes left.
     */
    method Service(traffic: Traffic) returns (visited: seq<nat>, commands: seq<seq<Bytes>>)
      requires Valid()
      modifies this`count, clients
      ensures Valid() && count <= old(count) && count <= 8
      ensures visited == Reversed(old(View()))
      ensures commands == AllCommands(old(View()), traffic)
      ensures multiset(View()) == multiset(Survivors(old(View()), traffic))
    {
      visited, commands := [], [];
      ghost var was := View();
      var i: nat := count;
      PassBegins(was, traffic);
      while i > 0
        invariant Valid() && count <= |was|
        invariant Passing(was, i, View(), visited, commands, traffic)
      {
        i := i - 1;
        PassTurn(was, i, View(), visited, commands, traffic);
        var fd := clients[i].fd;
        var now := ServeAt(i, traffic);
        visited, commands := visited + [fd], commands + [now];
      }
      PassEnds(was, View(), visited, commands, traffic);
    }
  }
}
