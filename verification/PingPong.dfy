/** The two frame slots between the receiver thread and the compositor: radxa/compositor/src/aa_video_input.c. */
module PingPong {
  import opened Prelude

  type Slot = i: nat | i < 2

  function Other(i: Slot): Slot { 1 - i }

  /** What a slot holds: its bytes, their number and the codec found in them. */
  datatype Content = Content(data: Bytes, len: nat, codec: nat)

  datatype Receiver = Reading | Filling(into: Slot)

  /** A frame handed to the consumer: its slot, what was in it, and how many frames had been published. */
  datatype Handed = Handed(slot: Slot, content: Content, publications: nat)

  /** `published` and `taken` record the run: the frames published, and the number of the one each get returned. */
  datatype State = State(
    first: Content, second: Content, writeIdx: Slot, readIdx: Slot, newFrame: bool,
    receiver: Receiver, published: seq<Content>, taken: seq<nat>, handed: Option<Handed>)

  function At(s: State, i: Slot): Content { if i == 0 then s.first else s.second }

  function Put(s: State, i: Slot, c: Content): State { if i == 0 then s.(first := c) else s.(second := c) }

  /**
   * The steps: the receiver picks its slot; any part of the frame, its length or its codec lands there; the
   * connection breaks before the frame is whole; the slots are swapped under the mutex; the consumer asks.
   */
  datatype Action = Begin | Fill(c: Content) | Break | Publish | Get

  function Initial(a: Content, b: Content): State { State(a, b, 0, 1, false, Reading, [], [], None) }

  function Do(s: State, a: Action): State
  {
    match a
    case Begin => if s.receiver.Reading? then s.(receiver := Filling(s.writeIdx)) else s
    case Fill(c) => if s.receiver.Filling? then Put(s, s.receiver.into, c) else s
    case Break => s.(receiver := Reading)
    case Publish =>
      if s.receiver.Reading? then s
      else
        var i := s.receiver.into;
        s.(readIdx := i, writeIdx := Other(i), newFrame := true, receiver := Reading,
           published := s.published + [At(s, i)])
    case Get =>
      if !s.newFrame then s
      else
        s.(newFrame := false, taken := s.taken + [PublishedBefore(s)],
           handed := Some(Handed(s.readIdx, At(s, s.readIdx), |s.published|)))
  }

  /** The number of the newest frame. */
  function PublishedBefore(s: State): nat { if s.published == [] then 0 else |s.published| - 1 }

  function Run(s: State, actions: seq<Action>): State
    decreases |actions|
  {
    if actions == [] then s else Run(Do(s, actions[0]), actions[1..])
  }

  predicate Increasing(ns: seq<nat>) { forall i, j | 0 <= i < j < |ns| :: ns[i] < ns[j] }

  /** How many frames have been published since the one the consumer holds. */
  function Since(s: State): int
    requires s.handed.Some?
  {
    |s.published| - s.handed.value.publications
  }

  predicate Inv(s: State)
  {
    && s.readIdx == Other(s.writeIdx)
    && (s.receiver.Filling? ==> s.receiver.into == s.writeIdx)
    && (s.published != [] ==> At(s, s.readIdx) == s.published[|s.published| - 1])
    && Increasing(s.taken)
    && (s.taken != [] ==> s.taken[|s.taken| - 1] < |s.published|)
    && (s.newFrame <==> s.published != [] && (s.taken == [] || s.taken[|s.taken| - 1] < |s.published| - 1))
    && (s.handed.Some? ==>
      s.handed.value.publications <= |s.published|
      && (s.handed.value.publications == |s.published| ==>
        s.handed.value.slot == s.readIdx && At(s, s.handed.value.slot) == s.handed.value.content)
      && (s.handed.value.slot == s.writeIdx <==> Since(s) % 2 == 1))
  }

  /** Only a publication changes what is published, and a broken connection leaves everything but the receiver. */
  lemma OnlyPublishPublishes(s: State, a: Action)
    ensures Do(s, a).published
         == if a.Publish? && s.receiver.Filling? then s.published + [At(s, s.receiver.into)] else s.published
    ensures Do(s, Break) == s.(receiver := Reading)
    ensures !a.Publish? && !a.Get? ==> Do(s, a).newFrame == s.newFrame
  {}

  lemma PublishKeepsInv(s: State)
    requires Inv(s)
    ensures Inv(Do(s, Publish))
  {}

  lemma GetKeepsInv(s: State)
    requires Inv(s)
    ensures Inv(Do(s, Get))
  {}

  lemma StepKeepsInv(s: State, a: Action)
    requires Inv(s)
    ensures Inv(Do(s, a))
  {
    match a
    case Publish => PublishKeepsInv(s);
    case Get => GetKeepsInv(s);
    case Begin =>
    case Fill(_) =>
    case Break =>
  }

  lemma {:induction false} RunKeepsInv(s: State, actions: seq<Action>)
    requires Inv(s)
    ensures Inv(Run(s, actions))
    decreases |actions|
  {
    if actions != [] {
      StepKeepsInv(s, actions[0]);
      RunKeepsInv(Do(s, actions[0]), actions[1..]);
    }
  }

  lemma {:induction false} RunJoins(s: State, a: seq<Action>, b: seq<Action>)
    ensures Run(s, a + b) == Run(Run(s, a), b)
    decreases |a|
  {
    if a == [] {
      assert a + b == b;
    } else {
      assert (a + b)[1..] == a[1..] + b;
      RunJoins(Do(s, a[0]), a[1..], b);
    }
  }

  /**
   * Over every interleaving: the receiver never writes the slot the consumer reads from, a get that succeeds
   * returns the newest frame published, and no frame is returned twice.
   */
  lemma GetsAreNewest(a: Content, b: Content, actions: seq<Action>)
    ensures var s := Run(Initial(a, b), actions);
      var next := Do(s, Get);
      && s.writeIdx != s.readIdx
      && (s.receiver.Filling? ==> s.receiver.into != s.readIdx)
      && Increasing(next.taken)
      && (next != s ==>
        && s.published != [] && next.handed.Some?
        && next.handed.value.content == s.published[|s.published| - 1]
        && next.taken == s.taken + [|s.published| - 1])
  {
    RunKeepsInv(Initial(a, b), actions);
    StepKeepsInv(Run(Initial(a, b), actions), Get);
  }

  /** From every reachable state between two frames, a frame received whole is published and handed out as it is. */
  lemma FrameIsDelivered(a: Content, b: Content, before: seq<Action>, c: Content)
    requires Run(Initial(a, b), before).receiver.Reading?
    ensures var s := Run(Initial(a, b), before);
      var t := Run(s, [Begin, Fill(c), Publish, Get]);
      && t.published == s.published + [c] && t.receiver.Reading?
      && t.handed.Some? && t.handed.value.content == c && !t.newFrame
  {
    var s := Run(Initial(a, b), before);
    RunKeepsInv(Initial(a, b), before);
    RunFour(s, Begin, Fill(c), Publish, Get);
  }

  /** The receiver is filling the slot the consumer holds: an odd number of frames after it was handed out. */
  predicate AtRisk(s: State)
  {
    s.handed.Some? && s.receiver.Filling? && Since(s) % 2 == 1
  }

  /**
   * In every reachable state where the consumer holds a frame, the next step can change the slot if and only if
   * a frame is being received after an odd number of further publications.
   */
  lemma HeldSlotAtRisk(a: Content, b: Content, actions: seq<Action>)
    ensures var s := Run(Initial(a, b), actions);
      s.handed.Some? ==>
        var slot := s.handed.value.slot;
        && ((exists step: Action :: At(Do(s, step), slot) != At(s, slot)) <==> AtRisk(s))
        && ((forall c: Content :: At(Do(s, Fill(c)), slot) == At(s, slot)) <==> !AtRisk(s))
  {
    RunKeepsInv(Initial(a, b), actions);
    var s := Run(Initial(a, b), actions);
    if s.handed.Some? {
      var slot := s.handed.value.slot;
      if AtRisk(s) {
        var c := At(s, slot);
        var other := c.(len := c.len + 1);
        assert At(Do(s, Fill(other)), slot) != At(s, slot);
      } else {
        forall step: Action
          ensures At(Do(s, step), slot) == At(s, slot)
        {
        }
      }
    }
  }

  /** No part of a frame lands while the held slot is at risk. */
  predicate Spares(s: State, actions: seq<Action>)
    decreases |actions|
  {
    actions == [] || (!(actions[0].Fill? && AtRisk(s)) && Spares(Do(s, actions[0]), actions[1..]))
  }

  lemma SparedStep(s: State, step: Action)
    requires Inv(s) && s.handed.Some? && step != Get && !(step.Fill? && AtRisk(s))
    ensures Do(s, step).handed == s.handed
    ensures At(Do(s, step), s.handed.value.slot) == At(s, s.handed.value.slot)
  {}

  lemma {:induction false} SparedSlotIsKept(s: State, actions: seq<Action>)
    requires Inv(s) && s.handed.Some? && Get !in actions && Spares(s, actions)
    ensures At(Run(s, actions), s.handed.value.slot) == At(s, s.handed.value.slot)
    decreases |actions|
  {
    if actions != [] {
      assert actions[0] in actions;
      StepKeepsInv(s, actions[0]);
      SparedStep(s, actions[0]);
      SparedSlotIsKept(Do(s, actions[0]), actions[1..]);
    }
  }

  lemma {:induction false} FewPublicationsSpare(s: State, actions: seq<Action>)
    requires Inv(s) && s.handed.Some? && Since(s) >= 0 && Get !in actions
    requires |Run(s, actions).published| == s.handed.value.publications
    ensures Spares(s, actions)
    decreases |actions|
  {
    if actions != [] {
      assert actions[0] in actions;
      StepKeepsInv(s, actions[0]);
      PublishedGrows(s, actions);
      FewPublicationsSpare(Do(s, actions[0]), actions[1..]);
    }
  }

  lemma {:induction false} PublishedGrows(s: State, actions: seq<Action>)
    ensures |s.published| <= |Run(s, actions).published|
    decreases |actions|
  {
    if actions != [] { PublishedGrows(Do(s, actions[0]), actions[1..]); }
  }

  lemma GetHandsOut(s: State)
    requires Inv(s) && Do(s, Get) != s
    ensures var next := Do(s, Get);
      next.handed.Some? && At(next, next.handed.value.slot) == next.handed.value.content && Since(next) == 0
  {}

  /**
   * A frame handed out by a get stays as it was over every run without another get in which nothing lands in
   * the slot at risk; in particular as long as the receiver has not published another frame.
   */
  lemma HandedSlotIsStable(a: Content, b: Content, before: seq<Action>, later: seq<Action>)
    requires Get !in later && Do(Run(Initial(a, b), before), Get) != Run(Initial(a, b), before)
    ensures var s := Do(Run(Initial(a, b), before), Get);
      var t := Run(s, later);
      && s.handed.Some?
      && (|t.published| == |s.published| ==> Spares(s, later))
      && (Spares(s, later) ==> At(t, s.handed.value.slot) == s.handed.value.content)
  {
    var s0 := Run(Initial(a, b), before);
    RunKeepsInv(Initial(a, b), before);
    StepKeepsInv(s0, Get);
    GetHandsOut(s0);
    var s := Do(s0, Get);
    if |Run(s, later).published| == |s.published| { FewPublicationsSpare(s, later); }
    if Spares(s, later) { SparedSlotIsKept(s, later); }
  }

  /**
   * It is not valid until the next get, from any reachable state with a new frame and the receiver between
   * frames: two further frames, the second only begun, overwrite it while the consumer still holds it.
   */
  lemma NotUntilNextGet(a: Content, b: Content, before: seq<Action>, y: Content, z: Content)
    requires var s := Run(Initial(a, b), before); s.newFrame && s.receiver.Reading?
    requires z != Do(Run(Initial(a, b), before), Get).handed.value.content
    ensures var s := Do(Run(Initial(a, b), before), Get);
      var t := Run(s, [Begin, Fill(y), Publish, Begin, Fill(z)]);
      && s.handed.Some?
      && t.handed == s.handed
      && At(t, s.handed.value.slot) == z != s.handed.value.content
  {
    var s0 := Run(Initial(a, b), before);
    RunKeepsInv(Initial(a, b), before);
    StepKeepsInv(s0, Get);
    var s1 := Do(s0, Get);
    var t0 := Do(Do(Do(s1, Begin), Fill(y)), Publish);
    assert [Begin, Fill(y), Publish, Begin] + [Fill(z)] == [Begin, Fill(y), Publish, Begin, Fill(z)];
    RunJoins(s1, [Begin, Fill(y), Publish, Begin], [Fill(z)]);
    RunFour(s1, Begin, Fill(y), Publish, Begin);
    assert Run(Do(t0, Begin), [Fill(z)]) == Do(Do(t0, Begin), Fill(z));
  }

  lemma RunFour(s: State, a: Action, b: Action, c: Action, d: Action)
    ensures Run(s, [a, b, c, d]) == Do(Do(Do(Do(s, a), b), c), d)
  {
    assert [a, b, c, d][1..] == [b, c, d] && [b, c, d][1..] == [c, d] && [c, d][1..] == [d] && [d][1..] == [];
    var t := Do(Do(s, a), b);
    assert Run(s, [a, b, c, d]) == Run(Do(s, a), [b, c, d]) == Run(t, [c, d]);
    assert Run(t, [c, d]) == Run(Do(t, c), [d]) == Run(Do(Do(t, c), d), []);
  }

  // ----- the shared variables -----

  class VideoInput {
    var slots: (Content, Content)
    var writeIdx: Slot
    var readIdx: Slot
    var newFrame: bool

    constructor (a: Content, b: Content)
      ensures slots == (a, b) && writeIdx == 0 && readIdx == 1 && !newFrame
    {
      slots, writeIdx, readIdx, newFrame := (a, b), 0, 1, false;
    }

    /** Whether the variables are those of a state of the machine. */
    predicate Shows(s: State)
      reads this
    {
      slots == (s.first, s.second) && writeIdx == s.writeIdx && readIdx == s.readIdx && newFrame == s.newFrame
    }

    /** The receiver's turn for one whole frame, ended by the swap under the mutex. */
    method ReceiveFrame(c: Content, ghost s: State)
      requires Shows(s) && s.receiver.Reading?
      modifies this
      ensures Shows(Do(Do(Do(s, Begin), Fill(c)), Publish))
    {
      var wi := writeIdx;
      slots := if wi == 0 then (c, slots.1) else (slots.0, c);
      readIdx := wi;
      writeIdx := Other(wi);
      newFrame := true;
    }

    /** aa_video_input_get_frame. */
    method GetFrame(ghost s: State) returns (r: Option<Content>)
      requires Shows(s)
      modifies this`newFrame
      ensures Shows(Do(s, Get))
      ensures r == if s.newFrame then Some(Do(s, Get).handed.value.content) else None
    {
      if !newFrame {
        return None;
      }
      r := Some(if readIdx == 0 then slots.0 else slots.1);
      newFrame := false;
    }
  }
}
