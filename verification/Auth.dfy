/** The MFi authentication machine: radxa/carplay/iap2/iap2_auth.c. */
module Auth {
  import opened Prelude
  import BigEndian

  const TIMEOUT: nat := 5
  const MAX_RETRIES: nat := 3

  datatype Phase = Idle | CertRequested | CertSent | ChallengeReceived | ChallengeSigned | Complete | Failed

  /** `calls` lists what the completion callback was told, in order. */
  datatype State = State(phase: Phase, retries: nat, last: int, calls: seq<bool>)

  const INITIAL: State := State(Idle, 0, 0, [])

  /** set_state. */
  function Enter(s: State, phase: Phase, now: int): State { s.(phase := phase, last := now) }

  /** auth_fail. */
  function Fail(s: State, now: int): State { Enter(s, Failed, now).(calls := s.calls + [false]) }

  function Start(s: State, now: int): State
  {
    if s.phase.Idle? then Enter(s, CertRequested, now).(retries := 0) else s
  }

  /** The length of the blob in the first TLV, if the TLV is well formed. */
  function BlobLength(data: Bytes): Option<nat>
  {
    if |data| < 4 then None
    else
      var total := BigEndian.Decode(data[..2]);
      if total < 4 || total > |data| then None else Some(total - 4)
  }

  /** The messages of the phone; any other id in the range is ignored. */
  datatype Message = CertRequest | ChallengeRequest(data: Bytes) | Succeeded | Rejected | Other

  /**
   * iap2_auth_handle_message; `answered` says whether the chip and the link produced the reply this message
   * asks for.
   */
  function Handle(s: State, m: Message, answered: bool, now: int): State
  {
    match m
    case CertRequest =>
      if !s.phase.CertRequested? && !s.phase.CertSent? then s
      else if !answered then Fail(s, now)
      else Enter(s, CertSent, now).(retries := 0)
    case ChallengeRequest(data) =>
      if !s.phase.CertSent? && !s.phase.ChallengeReceived? then s
      else
        var t := Enter(s, ChallengeReceived, now);
        if BlobLength(data) == None || BlobLength(data).value == 0 || BlobLength(data).value > 256 then Fail(t, now)
        else if answered then Enter(t, ChallengeSigned, now).(retries := 0)
        else if t.retries < MAX_RETRIES then t.(retries := t.retries + 1)
        else Fail(t, now)
    case Succeeded => Enter(s, Complete, now).(calls := s.calls + [true])
    case Rejected =>
      if s.retries < MAX_RETRIES then Enter(s, CertRequested, now).(retries := s.retries + 1)
      else Fail(s, now)
    case Other => s
  }

  predicate Waiting(s: State) { !s.phase.Idle? && !s.phase.Complete? && !s.phase.Failed? }

  /** iap2_auth_tick. */
  function Tick(s: State, now: int): State
  {
    if !Waiting(s) || now - s.last < TIMEOUT then s
    else if s.retries < MAX_RETRIES then s.(retries := s.retries + 1, last := now)
    else Fail(s, now)
  }

  // ----- every reachable state -----

  datatype Event = Starts(now: int) | Arrives(m: Message, answered: bool, now: int) | Ticks(now: int)

  function Do(s: State, e: Event): State
  {
    match e
    case Starts(now) => Start(s, now)
    case Arrives(m, answered, now) => Handle(s, m, answered, now)
    case Ticks(now) => Tick(s, now)
  }

  function Run(s: State, events: seq<Event>): State
    decreases |events|
  {
    if events == [] then s else Run(Do(s, events[0]), events[1..])
  }

  predicate LastCall(s: State, success: bool) { s.calls != [] && s.calls[|s.calls| - 1] == success }

  predicate Inv(s: State)
  {
    s.retries <= MAX_RETRIES && (s.phase.Complete? ==> LastCall(s, true)) && (s.phase.Failed? ==> LastCall(s, false))
  }

  lemma {:induction false} RunKeepsInv(s: State, events: seq<Event>)
    requires Inv(s)
    ensures Inv(Run(s, events))
    decreases |events|
  {
    if events != [] { RunKeepsInv(Do(s, events[0]), events[1..]); }
  }

  /** In every reachable state at most three retries are counted, and a terminal phase agrees with the last callback. */
  lemma ReachableStates(events: seq<Event>)
    ensures Inv(Run(INITIAL, events))
  {
    RunKeepsInv(INITIAL, events);
  }

  // ----- timeouts -----

  function TickAll(s: State, times: seq<int>): State
    decreases |times|
  {
    if times == [] then s else TickAll(Tick(s, times[0]), times[1..])
  }

  /** How many of the ticks come at least five seconds after the last one that did, or after `last`. */
  function TimedOut(last: int, times: seq<int>): nat
    decreases |times|
  {
    if times == [] then 0
    else if times[0] - last < TIMEOUT then TimedOut(last, times[1..])
    else 1 + TimedOut(times[0], times[1..])
  }

  lemma {:induction false} TerminalIgnoresTicks(s: State, times: seq<int>)
    requires !Waiting(s)
    ensures TickAll(s, times) == s
    decreases |times|
  {
    if times != [] { TerminalIgnoresTicks(s, times[1..]); }
  }

  /**
   * From a waiting state with r retries, and no message in between, any ticks whatever: fewer than 4 - r timed
   * out ones only count up; with 4 - r or more the machine has failed, having reported failure exactly once.
   */
  lemma {:induction false} TicksExhaustRetries(s: State, times: seq<int>)
    requires Waiting(s) && s.retries <= MAX_RETRIES
    ensures var t, k := TickAll(s, times), TimedOut(s.last, times);
      if k < 4 - s.retries
        then t.phase == s.phase && t.retries == s.retries + k && t.calls == s.calls
        else t.phase == Failed && t.retries == MAX_RETRIES && t.calls == s.calls + [false]
    decreases |times|
  {
    if times != [] {
      var next := Tick(s, times[0]);
      if Waiting(next) {
        TicksExhaustRetries(next, times[1..]);
      } else {
        TerminalIgnoresTicks(next, times[1..]);
      }
    }
  }

  // ----- AuthenticationFailed, message 0xAA05 -----

  function RejectAll(s: State, times: seq<int>): State
    decreases |times|
  {
    if times == [] then s else RejectAll(Handle(s, Rejected, true, times[0]), times[1..])
  }

  /** n failure reports. */
  function Falses(n: nat): (r: seq<bool>)
    ensures |r| == n
  {
    if n == 0 then [] else [false] + Falses(n - 1)
  }

  lemma {:induction false} ExhaustedRejections(s: State, times: seq<int>)
    requires s.retries == MAX_RETRIES
    ensures var t := RejectAll(s, times);
      && (if times == [] then t == s else t.phase == Failed)
      && t.retries == MAX_RETRIES && t.calls == s.calls + Falses(|times|)
    decreases |times|
  {
    if times == [] {
      assert s.calls + [] == s.calls;
    } else {
      ExhaustedRejections(Handle(s, Rejected, true, times[0]), times[1..]);
      assert s.calls + [false] + Falses(|times| - 1) == s.calls + ([false] + Falses(|times| - 1));
    }
  }

  /**
   * From every state, in whatever phase, with r <= 3 retries counted: k > 0 messages 0xAA05 in a row end in ERROR
   * if and only if k > 3 - r.  Up to then they ask for the certificate again without a callback; every one
   * beyond reports failure once more.
   */
  lemma {:induction false} RejectionsExhaustRetries(s: State, times: seq<int>)
    requires s.retries <= MAX_RETRIES && times != []
    ensures var t, k, spare := RejectAll(s, times), |times|, MAX_RETRIES - s.retries;
      if k <= spare
        then t.phase == CertRequested && t.retries == s.retries + k && t.calls == s.calls
        else t.phase == Failed && t.retries == MAX_RETRIES && t.calls == s.calls + Falses(k - spare)
    decreases |times|
  {
    var next := Handle(s, Rejected, true, times[0]);
    if s.retries == MAX_RETRIES {
      ExhaustedRejections(s, times);
    } else if |times| > 1 {
      RejectionsExhaustRetries(next, times[1..]);
    } else {
      assert RejectAll(s, times) == RejectAll(next, []) == next;
    }
  }

  /** A certificate request that is answered, then 0xAA05, at these times. */
  function RetryRounds(s: State, rounds: seq<(int, int)>): State
    decreases |rounds|
  {
    if rounds == [] then s
    else
      var asked := Handle(s, CertRequest, true, rounds[0].0);
      RetryRounds(Handle(asked, Rejected, true, rounds[0].1), rounds[1..])
  }

  /** An answered request clears the count, so any number of such rounds never fails. */
  lemma {:induction false} RetriesNeverEnd(s: State, rounds: seq<(int, int)>)
    requires s.phase.CertRequested? && rounds != []
    ensures var t := RetryRounds(s, rounds);
      t.phase == CertRequested && t.retries == 1 && t.calls == s.calls
    decreases |rounds|
  {
    var next := Handle(Handle(s, CertRequest, true, rounds[0].0), Rejected, true, rounds[0].1);
    if |rounds| > 1 {
      RetriesNeverEnd(next, rounds[1..]);
    } else {
      assert RetryRounds(s, rounds) == RetryRounds(next, []) == next;
    }
  }

  // ----- what each message does -----

  /** Starting is possible from IDLE only, and clears the count. */
  lemma StartsFromIdle(s: State, now: int)
    ensures Start(s, now) == if s.phase.Idle? then State(CertRequested, 0, now, s.calls) else s
  {}

  /** The phases in which a certificate request is heard. */
  predicate HearsCertRequest(phase: Phase) { phase.CertRequested? || phase.CertSent? }

  /** 0xAA00: answered, the certificate is out and the count cleared; not answered, the machine has failed. */
  lemma CertificateRequested(s: State, now: int)
    ensures HearsCertRequest(s.phase) ==> Handle(s, CertRequest, true, now) == State(CertSent, 0, now, s.calls)
    ensures HearsCertRequest(s.phase) ==>
      Handle(s, CertRequest, false, now) == State(Failed, s.retries, now, s.calls + [false])
    ensures !HearsCertRequest(s.phase) ==> forall answered :: Handle(s, CertRequest, answered, now) == s
  {}

  /** The phases in which a challenge is heard. */
  predicate HearsChallenge(phase: Phase) { phase.CertSent? || phase.ChallengeReceived? }

  /** A challenge the machine can sign: the first TLV is complete and holds 1 to 256 bytes. */
  predicate Signable(data: Bytes)
  {
    |data| >= 4 && var total := data[0] as nat * 256 + data[1]; total <= |data| && 5 <= total <= 260
  }

  lemma SignableLength(data: Bytes)
    ensures Signable(data) <==> BlobLength(data).Some? && 1 <= BlobLength(data).value <= 256
  {
    if |data| >= 4 {
      assert data[..2] == [data[0], data[1]];
      BigEndian.DecodeTwo(data[0], data[1]);
    }
  }

  /**
   * 0xAA02: a challenge that cannot be signed fails at once; a signed one clears the count; one the chip or the
   * link did not answer is waited for again while retries remain.
   */
  lemma ChallengeRequested(s: State, data: Bytes, now: int)
    requires s.retries <= 3
    ensures HearsChallenge(s.phase) && !Signable(data) ==>
      forall answered ::
        Handle(s, ChallengeRequest(data), answered, now) == State(Failed, s.retries, now, s.calls + [false])
    ensures HearsChallenge(s.phase) && Signable(data) ==>
      && Handle(s, ChallengeRequest(data), true, now) == State(ChallengeSigned, 0, now, s.calls)
      && Handle(s, ChallengeRequest(data), false, now)
         == if s.retries < 3 then State(ChallengeReceived, s.retries + 1, now, s.calls)
            else State(Failed, 3, now, s.calls + [false])
    ensures !HearsChallenge(s.phase) ==> forall answered :: Handle(s, ChallengeRequest(data), answered, now) == s
  {
    SignableLength(data);
  }

  /** 0xAA04 completes the authentication in whatever phase it comes; other messages are ignored. */
  lemma SucceededOrOther(s: State, answered: bool, now: int)
    ensures Handle(s, Succeeded, answered, now) == State(Complete, s.retries, now, s.calls + [true])
    ensures Handle(s, Other, answered, now) == s
  {}

  /** A tick counts from the fifth second on. */
  lemma TickAfterFive(s: State, now: int)
    requires Waiting(s) && s.retries <= 3
    ensures Tick(s, now)
      == if now < s.last + 5 then s
         else if s.retries < 3 then State(s.phase, s.retries + 1, now, s.calls)
         else State(Failed, 3, now, s.calls + [false])
  {}

  // ----- what the callback is told -----

  predicate Terminal(phase: Phase) { phase.Complete? || phase.Failed? }

  /**
   * The caller's view of one event: at most one callback, exactly when the machine ends up in a terminal phase by
   * it, and with that phase's verdict.
   */
  predicate Reported(before: State, after: State)
  {
    if after.calls == before.calls then Terminal(after.phase) ==> after.phase == before.phase
    else Terminal(after.phase) && after.calls == before.calls + [after.phase.Complete?]
  }

  lemma StepIsReported(s: State, e: Event)
    ensures Reported(s, Do(s, e))
    ensures Inv(s) ==> Inv(Do(s, e))
  {
    var after := Do(s, e);
    if |after.calls| != |s.calls| { assert after.calls[|s.calls|] == after.phase.Complete?; }
  }

  // ----- leaving a terminal phase -----

  /**
   * Neither terminal phase is final.  COMPLETE is left exactly on AuthenticationFailed; ERROR exactly on
   * AuthenticationSucceeded, or on AuthenticationFailed while retries remain.
   */
  lemma TerminalExits(s: State, e: Event)
    ensures s.phase.Complete? ==> (Do(s, e).phase != Complete <==> e.Arrives? && e.m.Rejected?)
    ensures s.phase.Failed? ==>
      (Do(s, e).phase != Failed <==> e.Arrives? && (e.m.Succeeded? || (e.m.Rejected? && s.retries < MAX_RETRIES)))
  {}

  /** From the start: one call and three messages, whatever the challenge, complete it. */
  lemma HandshakeFromStart(challenge: Bytes, now: int)
    requires BlobLength(challenge).Some? && 0 < BlobLength(challenge).value <= 256
    ensures Run(Do(INITIAL, Starts(now)), [Arrives(CertRequest, true, now),
              Arrives(ChallengeRequest(challenge), true, now), Arrives(Succeeded, true, now)])
         == State(Complete, 0, now, [true])
  {
    Handshake(Do(INITIAL, Starts(now)), challenge, now);
    assert INITIAL.calls + [true] == [true];
  }

  /** A full handshake over any earlier failures that were retried: three messages complete it with one success call. */
  lemma Handshake(s: State, challenge: Bytes, now: int)
    requires s.phase.CertRequested? && BlobLength(challenge).Some? && 0 < BlobLength(challenge).value <= 256
    ensures var events := [Arrives(CertRequest, true, now), Arrives(ChallengeRequest(challenge), true, now),
                           Arrives(Succeeded, true, now)];
      Run(s, events) == State(Complete, 0, now, s.calls + [true])
  {
    var e0, e1, e2 := Arrives(CertRequest, true, now), Arrives(ChallengeRequest(challenge), true, now),
                      Arrives(Succeeded, true, now);
    assert [e0, e1, e2][1..] == [e1, e2] && [e1, e2][1..] == [e2] && [e2][1..] == [];
    var t := Do(Do(s, e0), e1);
    assert Run(s, [e0, e1, e2]) == Run(Do(s, e0), [e1, e2]) == Run(t, [e2]) == Run(Do(t, e2), []);
  }

  // ----- the object -----

  /** Every method keeps the retry count at most three and the last callback in agreement with a terminal phase. */
  class Machine {
    var phase: Phase
    var retries: nat
    var last: int
    var calls: seq<bool>

    function View(): State
      reads this
    {
      State(phase, retries, last, calls)
    }

    predicate Valid()
      reads this
    {
      Inv(View())
    }

    constructor ()
      ensures Valid() && View() == INITIAL
    {
      phase, retries, last, calls := Idle, 0, 0, [];
    }

    /** A phase that is not terminal may be entered at any time; a terminal one is followed by its callback. */
    method SetState(p: Phase, now: int)
      requires Valid()
      modifies this`phase, this`last
      ensures phase == p && last == now
      ensures !Terminal(p) ==> Valid()
    {
      phase, last := p, now;
    }

    method AuthFail(now: int)
      requires Valid()
      modifies this`phase, this`last, this`calls
      ensures Valid() && phase == Failed && last == now && calls == old(calls) + [false]
    {
      SetState(Failed, now);
      calls := calls + [false];
    }

    method StartAuth(now: int) returns (ok: bool)
      requires Valid()
      modifies this
      ensures Valid() && Reported(old(View()), View()) && (ok <==> old(phase).Idle?)
      ensures View() == Do(old(View()), Starts(now))
    {
      if !phase.Idle? {
        return false;
      }
      retries := 0;
      SetState(CertRequested, now);
      return true;
    }

    method HandleMessage(m: Message, answered: bool, now: int)
      requires Valid()
      modifies this
      ensures Valid() && Reported(old(View()), View())
      ensures View() == Do(old(View()), Arrives(m, answered, now))
    {
      StepIsReported(View(), Arrives(m, answered, now));
      match m {
        case CertRequest =>
          if phase.CertRequested? || phase.CertSent? {
            if !answered {
              AuthFail(now);
              return;
            }
            retries := 0;
            SetState(CertSent, now);
          }
        case ChallengeRequest(data) =>
          if phase.CertSent? || phase.ChallengeReceived? {
            SetState(ChallengeReceived, now);
            var len := BlobLength(data);
            if len == None || len.value == 0 || len.value > 256 {
              AuthFail(now);
            } else if answered {
              retries := 0;
              SetState(ChallengeSigned, now);
            } else if retries < MAX_RETRIES {
              retries, last := retries + 1, now;
            } else {
              AuthFail(now);
            }
          }
        case Succeeded =>
          SetState(Complete, now);
          calls := calls + [true];
        case Rejected =>
          if retries < MAX_RETRIES {
            retries := retries + 1;
            SetState(CertRequested, now);
          } else {
            AuthFail(now);
          }
        case Other =>
      }
    }

    method OnTick(now: int)
      requires Valid()
      modifies this
      ensures Valid() && Reported(old(View()), View())
      ensures View() == Do(old(View()), Ticks(now))
    {
      StepIsReported(View(), Ticks(now));
      if phase.Idle? || phase.Complete? || phase.Failed? {
        return;
      }
      if now - last < TIMEOUT {
        return;
      }
      if retries < MAX_RETRIES {
        retries, last := retries + 1, now;
      } else {
        AuthFail(now);
      }
    }
  }
}
