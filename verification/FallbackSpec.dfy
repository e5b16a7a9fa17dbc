/**
 * The fallback encoder as a state machine. Backends are oracles: whether an encode succeeds and
 * whether a candidate can be configured may depend on everything that happened before.
 */
module FallbackSpec {
  import opened Common
  import opened EncoderRanking

  /** A configured backend: the candidate it came from and the name it reports. */
  datatype Backend = Backend(index: nat, name: string)

  datatype Event =
    | BackendSelected(backend: string)
    | Fallback(fromBackend: string, toBackend: string, epoch: nat)

  datatype Metrics = Metrics(
    framesSubmitted: nat,
    framesEncoded: nat,
    framesDropped: nat,
    encodeFailures: nat,
    fallbackCount: nat,
    activeBackend: Option<string>,
    epoch: nat)

  datatype Encoder = Encoder(
    preference: Preference,
    candidates: seq<Candidate>,
    active: Option<Backend>,
    activeIndex: Option<nat>,
    configured: bool,
    metrics: Metrics,
    events: seq<Event>,
    epoch: nat)

  function New(preference: Preference): Encoder {
    Encoder(preference, [], None, None, false, Metrics(0, 0, 0, 0, 0, None, 0), [], 0)
  }

  /**
   * One encode call's environment, by attempt number: does the active backend encode the frame,
   * and which name, if any, does candidate `index` configure under.
   */
  datatype Env = Env(encodes: nat -> bool, configures: nat -> nat -> Option<string>)

  datatype Outcome = Encoded | NotConfigured | EncodeFailed

  function NextEpoch(epoch: nat): nat {
    Min(epoch + 1, U64_MAX)
  }

  /** The least index from `start` on that configures. */
  function ActivateNext(start: nat, count: nat, configures: nat -> Option<string>): (r: Option<Backend>)
    ensures r.Some? ==>
              && start <= r.value.index < count
              && configures(r.value.index) == Some(r.value.name)
              && forall j | start <= j < r.value.index :: configures(j).None?
    ensures r.None? ==> forall j | start <= j < count :: configures(j).None?
    decreases count - start
  {
    if start >= count then None
    else if configures(start).Some? then Some(Backend(start, configures(start).value))
    else ActivateNext(start + 1, count, configures)
  }

  /** A replacement takes over: the epoch advances and the switch is reported. */
  function Switched(s: Encoder, next: Backend, toName: string): Encoder
    requires s.active.Some?
  {
    var from := s.active.value.name;
    s.(active := Some(next),
       activeIndex := Some(next.index),
       epoch := NextEpoch(s.epoch),
       metrics := s.metrics.(
         encodeFailures := s.metrics.encodeFailures + 1,
         fallbackCount := s.metrics.fallbackCount + 1,
         activeBackend := Some(toName),
         epoch := NextEpoch(s.epoch)),
       events := s.events + [Fallback(from, toName, NextEpoch(s.epoch))])
  }

  function Exhausted(s: Encoder): Encoder {
    s.(active := None,
       metrics := s.metrics.(
         encodeFailures := s.metrics.encodeFailures + 1,
         framesDropped := s.metrics.framesDropped + 1))
  }

  /** What the `attempt`-th backend call leads to: success, a replacement to try, or giving up. */
  datatype AfterAttempt = Done(state: Encoder) | Retry(state: Encoder) | GaveUp(state: Encoder)

  function Attempt(s: Encoder, reinitialized: bool, attempt: nat, env: Env): AfterAttempt
    requires s.active.Some?
  {
    if env.encodes(attempt) then
      Done(s.(metrics := s.metrics.(
                framesEncoded := s.metrics.framesEncoded + 1,
                activeBackend := Some(s.active.value.name))))
    else Failed(s, reinitialized, attempt, env)
  }

  /** The active backend failed: try it once more, or the next candidate that configures. */
  function Failed(s: Encoder, reinitialized: bool, attempt: nat, env: Env): AfterAttempt
    requires s.active.Some?
  {
    var backend := s.active.value;
    var again := env.configures(attempt)(backend.index);
    if !reinitialized && again.Some? then
      Retry(Switched(s, Backend(backend.index, again.value), backend.name))
    else
      match ActivateNext(backend.index + 1, |s.candidates|, env.configures(attempt))
      case None => GaveUp(Exhausted(s))
      case Some(next) => Retry(Switched(s, next, next.name))
  }

  /** All attempts of one encode call: the final state, the outcome, and the candidate index of each attempt. */
  datatype Attempts = Attempts(state: Encoder, outcome: Outcome, visits: seq<nat>)

  function EncodeFrom(s: Encoder, reinitialized: bool, attempt: nat, env: Env): Attempts
    requires s.active.Some? && s.active.value.index < |s.candidates|
    decreases |s.candidates| - s.active.value.index, !reinitialized
  {
    match Attempt(s, reinitialized, attempt, env)
    case Done(t) => Attempts(t, Encoded, [s.active.value.index])
    case GaveUp(t) => Attempts(t, EncodeFailed, [s.active.value.index])
    case Retry(t) =>
      var rest := EncodeFrom(t, true, attempt + 1, env);
      rest.(visits := [s.active.value.index] + rest.visits)
  }

  predicate WellFormed(s: Encoder) {
    && (s.active.Some? ==> s.activeIndex == Some(s.active.value.index) && s.configured)
    && (s.activeIndex.Some? ==> s.activeIndex.value < |s.candidates| && s.configured)
    && HardwareFirst(s.candidates)
  }

  function Encode(s: Encoder, env: Env): Attempts
    requires WellFormed(s)
  {
    if !s.configured || s.activeIndex.None? then Attempts(s, NotConfigured, [])
    else
      var s1 := s.(metrics := s.metrics.(framesSubmitted := s.metrics.framesSubmitted + 1));
      if s1.active.None? then Attempts(s1, NotConfigured, []) else EncodeFrom(s1, false, 0, env)
  }

  /** Configuration: validate, discover, rank, and activate the first candidate that configures. */
  function Configure(s: Encoder, c: Config, discovered: Option<seq<Candidate>>, configures: nat -> Option<string>)
    : (r: (Encoder, bool))
  {
    if !ValidConfig(c) then (s, false) else
    var s1 := s.(configured := true, active := None, activeIndex := None);
    if discovered.None? then (s1, false) else
    var s2 := s1.(candidates := RankCandidates(discovered.value, c, s.preference));
    match ActivateNext(0, |s2.candidates|, configures)
    case None => (s2, false)
    case Some(b) =>
      (s2.(active := Some(b),
           activeIndex := Some(b.index),
           epoch := NextEpoch(s.epoch),
           metrics := s.metrics.(epoch := NextEpoch(s.epoch), activeBackend := Some(b.name)),
           events := s.events + [BackendSelected(b.name)]),
       true)
  }

  /**
   * A configuration succeeds exactly when the configuration is valid, discovery answered and some
   * ranked candidate configures; then the best of those is active, and a hardware one if there is any.
   */
  lemma BestCandidateIsActive(
      s: Encoder, c: Config, discovered: Option<seq<Candidate>>, configures: nat -> Option<string>)
    ensures var (t, ok) := Configure(s, c, discovered, configures);
            var ranked := if discovered.Some? then RankCandidates(discovered.value, c, s.preference) else [];
            && (ok <==>
                  && ValidConfig(c) && discovered.Some?
                  && exists i :: 0 <= i < |ranked| && configures(i).Some?)
            && (!ok ==> t.metrics == s.metrics && t.events == s.events && t.epoch == s.epoch)
            && (!ok ==> if ValidConfig(c) then t.configured && t.active.None? && t.activeIndex.None? else t == s)
            && (ValidConfig(c) && discovered.Some? ==> t.candidates == ranked)
            && (ok ==>
                  && t.configured && t.active.Some?
                  && var (i, name) := (t.active.value.index, t.active.value.name);
                     && i < |ranked| && t.activeIndex == Some(i) && configures(i) == Some(name)
                     && (forall j | 0 <= j < i :: configures(j).None?)
                     && ((exists j :: 0 <= j < |ranked| && ranked[j].capabilities.hardwareAccelerated
                                      && configures(j).Some?) ==>
                           ranked[i].capabilities.hardwareAccelerated)
                     && t.epoch == Min(s.epoch + 1, 0xFFFF_FFFF_FFFF_FFFF)
                     && t.metrics == s.metrics.(activeBackend := Some(name), epoch := t.epoch)
                     && t.events == s.events + [BackendSelected(name)])
  {
    if discovered.Some? {
      assert HardwareFirst(RankCandidates(discovered.value, c, s.preference)) by {
        RankingIsSound(discovered.value, c, s.preference);
      }
    }
    hide RankCandidates, ValidConfig;
  }

  // ---------------------------------------------------------------------------
  // One encode call.

  /**
   * A legal move after a failed attempt: once, back to the same candidate if it configures again;
   * otherwise to the least later candidate that configures.
   */
  predicate Move(from: nat, to: nat, attempt: nat, env: Env, mayRepeat: bool) {
    && !env.encodes(attempt)
    && env.configures(attempt)(to).Some?
    && (from < to || (from == to && mayRepeat))
    && (forall j | from < j < to :: env.configures(attempt)(j).None?)
    && (from < to && mayRepeat ==> env.configures(attempt)(from).None?)
  }

  predicate Moves(visits: seq<nat>, attempt: nat, env: Env, mayRepeat: bool) {
    |visits| <= 1 ||
    (Move(visits[0], visits[1], attempt, env, mayRepeat) && Moves(visits[1..], attempt + 1, env, false))
  }

  /** How the attempts of a call end. */
  predicate Ends(r: Attempts, attempt: nat, env: Env, count: nat) {
    && r.visits != []
    && var last, final := r.visits[|r.visits| - 1], attempt + |r.visits| - 1;
       && last < count
       && (if env.encodes(final)
           then r.outcome.Encoded? && r.state.active.Some? && r.state.active.value.index == last
           else
             && r.outcome.EncodeFailed? && r.state.active.None?
             && forall j | last < j < count :: env.configures(final)(j).None?)
  }

  lemma {:induction false} EncodeFromVisits(s: Encoder, reinitialized: bool, attempt: nat, env: Env)
    requires s.active.Some? && s.active.value.index < |s.candidates|
    ensures var r := EncodeFrom(s, reinitialized, attempt, env);
            && Moves(r.visits, attempt, env, !reinitialized)
            && Ends(r, attempt, env, |s.candidates|)
            && r.visits[0] == s.active.value.index
            && r.state.candidates == s.candidates
            && (r.outcome.Encoded? ==>
                  r.state.active.Some? && r.state.metrics.activeBackend == Some(r.state.active.value.name))
    decreases |s.candidates| - s.active.value.index, !reinitialized
  {
    AttemptMoves(s, reinitialized, attempt, env);
    var r := EncodeFrom(s, reinitialized, attempt, env);
    hide Move, Attempt;
    match Attempt(s, reinitialized, attempt, env)
    case Done(_) =>
    case GaveUp(_) =>
    case Retry(t) =>
      EncodeFromVisits(t, true, attempt + 1, env);
      hide Moves, Ends;
      var rest := EncodeFrom(t, true, attempt + 1, env);
      PrependVisit(s.active.value.index, rest, attempt, env, !reinitialized, |s.candidates|);
  }

  lemma PrependVisit(first: nat, rest: Attempts, attempt: nat, env: Env, mayRepeat: bool, count: nat)
    requires Ends(rest, attempt + 1, env, count) && Moves(rest.visits, attempt + 1, env, false)
    requires Move(first, rest.visits[0], attempt, env, mayRepeat)
    ensures Moves([first] + rest.visits, attempt, env, mayRepeat)
    ensures Ends(rest.(visits := [first] + rest.visits), attempt, env, count)
  {
    hide Move;
    var visits := [first] + rest.visits;
    assert visits[1..] == rest.visits;
  }

  lemma AttemptMoves(s: Encoder, reinitialized: bool, attempt: nat, env: Env)
    requires s.active.Some? && s.active.value.index < |s.candidates|
    ensures var from := s.active.value.index;
            match Attempt(s, reinitialized, attempt, env)
            case Done(t) =>
              && env.encodes(attempt) && t.active == s.active && t.candidates == s.candidates
              && t.metrics.activeBackend == Some(s.active.value.name)
            case GaveUp(t) =>
              && !env.encodes(attempt) && t.active.None? && t.candidates == s.candidates
              && (forall j | from < j < |s.candidates| :: env.configures(attempt)(j).None?)
            case Retry(t) =>
              && t.active.Some? && t.active.value.index < |t.candidates| && t.candidates == s.candidates
              && Move(from, t.active.value.index, attempt, env, !reinitialized)
  {
  }

  /** Legal moves only go forward, strictly so after the first two attempts. */
  lemma {:induction false} MovesGoForward(visits: seq<nat>, attempt: nat, env: Env, mayRepeat: bool, count: nat)
    requires Moves(visits, attempt, env, mayRepeat) && visits != [] && visits[|visits| - 1] < count
    ensures forall t, u | 0 <= t < u < |visits| ::
              visits[t] < visits[u] || (mayRepeat && t == 0 && visits[t] == visits[u])
    ensures |visits| <= count - visits[0] + if mayRepeat then 1 else 0
    decreases |visits|
  {
    if |visits| > 1 {
      var rest := visits[1..];
      MovesGoForward(rest, attempt + 1, env, false, count);
      forall t, u | 0 <= t < u < |visits|
        ensures visits[t] < visits[u] || (mayRepeat && t == 0 && visits[t] == visits[u])
      {
        if t > 0 {
          assert rest[t - 1] < rest[u - 1];
        } else if u > 1 {
          assert rest[0] < rest[u - 1];
        }
      }
    }
  }

  /**
   * One encode call makes at most `n - i + 1` backend attempts, moving only forward through
   * the ranking, and so never from a software candidate back to a hardware one.
   */
  lemma EncodeIsBounded(s: Encoder, env: Env)
    requires WellFormed(s) && s.active.Some?
    ensures var i, n, r := s.active.value.index, |s.candidates|, Encode(s, env);
            && r.visits != [] && r.visits[0] == i
            && |r.visits| <= n - i + 1
            && Moves(r.visits, 0, env, true)
            && Ends(r, 0, env, n)
            && (r.outcome.Encoded? ==> r.state.metrics.activeBackend == Some(r.state.active.value.name))
            && (forall t, u | 0 <= t < u < |r.visits| ::
                  r.visits[t] < r.visits[u] || (t == 0 && r.visits[t] == r.visits[u]))
            && (forall t, u | 0 <= t < u < |r.visits| && r.visits[u] < n ::
                  s.candidates[r.visits[u]].capabilities.hardwareAccelerated ==>
                  s.candidates[r.visits[t]].capabilities.hardwareAccelerated)
  {
    hide EncodeFrom, Moves, Ends;
    var s1 := s.(metrics := s.metrics.(framesSubmitted := s.metrics.framesSubmitted + 1));
    EncodeFromVisits(s1, false, 0, env);
    var r := EncodeFrom(s1, false, 0, env);
    EndsBelow(r, 0, env, |s.candidates|);
    MovesGoForward(r.visits, 0, env, true, |s.candidates|);
  }

  lemma EndsBelow(r: Attempts, attempt: nat, env: Env, count: nat)
    requires Ends(r, attempt, env, count)
    ensures r.visits != [] && r.visits[|r.visits| - 1] < count
    ensures r.state.active.Some? ==> r.state.active.value.index == r.visits[|r.visits| - 1]
  {
  }

  // ---------------------------------------------------------------------------
  // Whole sessions.

  datatype Op =
    | ConfigureOp(config: Config, discovered: Option<seq<Candidate>>, configures: nat -> Option<string>)
    | EncodeOp(env: Env)
    | TakeEventsOp

  /**
   * An encoder with its past: successful configurations, every event in order, the events
   * handed out, and the encode calls made after the last backend was exhausted.
   */
  datatype Session = Session(
      encoder: Encoder, configurations: nat, allEvents: seq<Event>, taken: seq<Event>, deadCalls: nat)

  function Start(preference: Preference): Session {
    Session(New(preference), 0, [], [], 0)
  }

  /** Between an exhausted ranking and the next configuration. */
  predicate Dead(s: Encoder) {
    s.activeIndex.Some? && s.active.None?
  }

  function Step(x: Session, op: Op): Session
    requires WellFormed(x.encoder)
  {
    match op
    case ConfigureOp(c, discovered, configures) =>
      var (s, ok) := Configure(x.encoder, c, discovered, configures);
      x.(encoder := s,
         configurations := if ok then x.configurations + 1 else x.configurations,
         allEvents := x.taken + s.events)
    case EncodeOp(env) =>
      var s := Encode(x.encoder, env).state;
      x.(encoder := s,
         allEvents := x.taken + s.events,
         deadCalls := if Dead(x.encoder) then x.deadCalls + 1 else x.deadCalls)
    case TakeEventsOp =>
      x.(encoder := x.encoder.(events := []), taken := x.taken + x.encoder.events)
  }

  /** Event `i` announces epoch `i + 1`. */
  predicate Numbered(events: seq<Event>) {
    forall i | 0 <= i < |events| :: events[i].Fallback? ==> events[i].epoch == Saturated(i + 1)
  }

  predicate Invariant(x: Session) {
    var s, m := x.encoder, x.encoder.metrics;
    && WellFormed(s)
    && x.taken + s.events == x.allEvents
    && |x.allEvents| == x.configurations + m.fallbackCount
    && s.epoch == m.epoch == Saturated(|x.allEvents|)
    && m.encodeFailures == m.fallbackCount + m.framesDropped
    && m.framesSubmitted == m.framesEncoded + m.framesDropped + x.deadCalls
    && Numbered(x.allEvents)
  }

  /** What every attempt of an encode call keeps; the submitted frame is still open. */
  predicate Balanced(s: Encoder, taken: seq<Event>, configurations: nat, deadCalls: nat, open: nat) {
    var m := s.metrics;
    && |taken + s.events| == configurations + m.fallbackCount
    && s.epoch == m.epoch == Saturated(|taken + s.events|)
    && m.encodeFailures == m.fallbackCount + m.framesDropped
    && m.framesSubmitted == m.framesEncoded + m.framesDropped + deadCalls + open
    && Numbered(taken + s.events)
  }

  lemma SwitchKeepsBalance(
      s: Encoder, next: Backend, toName: string, taken: seq<Event>, configurations: nat, deadCalls: nat)
    requires s.active.Some? && Balanced(s, taken, configurations, deadCalls, 1)
    ensures Balanced(Switched(s, next, toName), taken, configurations, deadCalls, 1)
  {
    var t := Switched(s, next, toName);
    var e := t.events[|t.events| - 1];
    assert taken + t.events == (taken + s.events) + [e];
  }

  lemma {:induction false} EncodeFromKeepsBalance(
      s: Encoder, reinitialized: bool, attempt: nat, env: Env, taken: seq<Event>, configurations: nat,
      deadCalls: nat)
    requires s.active.Some? && s.active.value.index < |s.candidates|
    requires WellFormed(s) && Balanced(s, taken, configurations, deadCalls, 1)
    ensures var t := EncodeFrom(s, reinitialized, attempt, env).state;
            WellFormed(t) && Balanced(t, taken, configurations, deadCalls, 0)
    decreases |s.candidates| - s.active.value.index, !reinitialized
  {
    hide HardwareFirst;
    var backend := s.active.value;
    match Attempt(s, reinitialized, attempt, env)
    case Done(_) =>
    case GaveUp(_) =>
    case Retry(t) =>
      SwitchKeepsBalance(s, t.active.value, t.metrics.activeBackend.value, taken, configurations, deadCalls);
      EncodeFromKeepsBalance(t, true, attempt + 1, env, taken, configurations, deadCalls);
  }

  lemma ConfigureKeepsInvariant(
      x: Session, c: Config, discovered: Option<seq<Candidate>>, configures: nat -> Option<string>)
    requires Invariant(x)
    ensures Invariant(Step(x, ConfigureOp(c, discovered, configures)))
  {
    var s := x.encoder;
    StepWellFormed(x, ConfigureOp(c, discovered, configures));
    BestCandidateIsActive(s, c, discovered, configures);
    var (t, ok) := Configure(s, c, discovered, configures);
    hide WellFormed, ValidConfig, RankCandidates, Configure, HardwareFirst;
    if ok {
      var e := BackendSelected(t.active.value.name);
      assert t.events == s.events + [e];
      assert x.taken + t.events == x.allEvents + [e];
    }
  }

  lemma EncodeKeepsInvariant(x: Session, env: Env)
    requires Invariant(x)
    ensures Invariant(Step(x, EncodeOp(env)))
  {
    hide HardwareFirst, EncodeFrom;
    var s := x.encoder;
    if s.configured && s.active.Some? {
      var s1 := s.(metrics := s.metrics.(framesSubmitted := s.metrics.framesSubmitted + 1));
      EncodeFromKeepsBalance(s1, false, 0, env, x.taken, x.configurations, x.deadCalls);
    }
  }

  lemma StepKeepsInvariant(x: Session, op: Op)
    requires Invariant(x)
    ensures Invariant(Step(x, op))
  {
    match op
    case ConfigureOp(c, discovered, configures) => ConfigureKeepsInvariant(x, c, discovered, configures);
    case EncodeOp(env) => EncodeKeepsInvariant(x, env);
    case TakeEventsOp => assert x.taken + x.encoder.events + [] == x.allEvents;
  }

  function Run(preference: Preference, ops: seq<Op>): (x: Session)
    ensures WellFormed(x.encoder)
  {
    if ops == [] then Start(preference)
    else
      var x := Run(preference, ops[..|ops| - 1]);
      StepWellFormed(x, ops[|ops| - 1]);
      Step(x, ops[|ops| - 1])
  }

  lemma StepWellFormed(x: Session, op: Op)
    requires WellFormed(x.encoder)
    ensures WellFormed(Step(x, op).encoder)
  {
    hide HardwareFirst, EncodeFrom;
    match op
    case ConfigureOp(c, discovered, configures) =>
      if discovered.Some? { RankingIsSound(discovered.value, c, x.encoder.preference); }
    case EncodeOp(env) =>
      var s := x.encoder;
      if s.configured && s.active.Some? {
        var submitted := s.metrics.(framesSubmitted := s.metrics.framesSubmitted + 1);
        EncodeFromWellFormed(s.(metrics := submitted), false, 0, env);
      }
    case TakeEventsOp =>
  }

  lemma {:induction false} EncodeFromWellFormed(s: Encoder, reinitialized: bool, attempt: nat, env: Env)
    requires s.active.Some? && s.active.value.index < |s.candidates| && WellFormed(s)
    ensures WellFormed(EncodeFrom(s, reinitialized, attempt, env).state)
    decreases |s.candidates| - s.active.value.index, !reinitialized
  {
    hide HardwareFirst;
    match Attempt(s, reinitialized, attempt, env)
    case Done(_) =>
    case GaveUp(_) =>
    case Retry(t) => EncodeFromWellFormed(t, true, attempt + 1, env);
  }

  /** The counter identities hold over every session. */
  lemma {:induction false} RunKeepsInvariant(preference: Preference, ops: seq<Op>)
    ensures Invariant(Run(preference, ops))
  {
    if ops != [] {
      RunKeepsInvariant(preference, ops[..|ops| - 1]);
      StepKeepsInvariant(Run(preference, ops[..|ops| - 1]), ops[|ops| - 1]);
    }
  }

  /**
   * Once configured, a session that is not configured again only moves down the ranking: software never
   * gives way to hardware.
   */
  lemma {:induction false} NeverBackToHardware(preference: Preference, before: seq<Op>, after: seq<Op>)
    requires forall op | op in after :: !op.ConfigureOp?
    ensures var s, t := Run(preference, before).encoder, Run(preference, before + after).encoder;
            && t.candidates == s.candidates
            && (t.active.Some? ==>
                  && s.active.Some? && s.active.value.index <= t.active.value.index
                  && (t.candidates[t.active.value.index].capabilities.hardwareAccelerated ==>
                      s.candidates[s.active.value.index].capabilities.hardwareAccelerated))
    decreases |after|
  {
    if after == [] {
      assert before + after == before;
    } else {
      var ops := before + after;
      var op := after[|after| - 1];
      assert ops[..|ops| - 1] == before + after[..|after| - 1];
      assert op in after;
      NeverBackToHardware(preference, before, after[..|after| - 1]);
      var x := Run(preference, before + after[..|after| - 1]);
      assert Run(preference, ops) == Step(x, op);
      OneMoreOp(x, op);
      hide Run, Step;
    }
  }

  lemma OneMoreOp(x: Session, op: Op)
    requires WellFormed(x.encoder) && !op.ConfigureOp?
    ensures var s, t := x.encoder, Step(x, op).encoder;
            && t.candidates == s.candidates
            && (t.active.Some? ==> s.active.Some? && s.active.value.index <= t.active.value.index)
  {
    hide EncodeFrom, Moves, Ends;
    var s := x.encoder;
    if op.EncodeOp? && s.active.Some? {
      EncodeIsBounded(s, op.env);
      EncodeFromVisits(s.(metrics := s.metrics.(framesSubmitted := s.metrics.framesSubmitted + 1)), false, 0, op.env);
      EndsBelow(Encode(s, op.env), 0, op.env, |s.candidates|);
    }
  }
}
