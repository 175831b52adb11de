/**
 * What an address worker does while it is Connected, as a transition system.
 *
 * A stretch holds the primary connection, an optional joined connection, at most one candidate
 * and the first withdrawal protocol failure of a connection that already ended. Everything the
 * worker samples from its environment during a step (the shutdown flag, the maintenance intent
 * and the primary's replacement hint) is data carried by that step's input, so the environment
 * may change arbitrarily between two samples.
 */
module ConnectedStretch {
  import opened Prelude

  datatype Intent = Maintain | Retire

  datatype ReplacementHint = ReplacementHint(generation: Option<Generation>, interruptions: nat, paused: bool)

  /** The ways a connection's life can end. */
  datatype End =
    | Clean
    | Unauthorized
    | Transport
    | WithdrawalProtocolFailure(message: string)
    | Unclassified(message: string)

  /** What a connection's run returns. */
  type RunResult = Result<(), End>

  predicate IsProtocolFailure(result: RunResult) {
    result.Err? && result.error.WithdrawalProtocolFailure?
  }

  /**
   * An active connection. `id` numbers the connections of one stretch in the order they became
   * active, and `token` is the credit entry that reports it.
   */
  datatype Active = Active(id: nat, generation: Generation, token: nat, interruptions: nat, hintsLive: bool)

  datatype Candidate = Idle | Waiting(target: Generation) | Warming(target: Generation)

  function Target(candidate: Candidate): Option<Generation> {
    match candidate
    case Idle => None
    case Waiting(target) => Some(target)
    case Warming(target) => Some(target)
  }

  datatype AttemptOutcome =
    | Connected(generation: Generation, interruptions: nat, token: nat)
    | Retryable
    | FatalLocalMaterial(message: string)

  /** One sample of what candidates depend on: shutdown flag, intent and the primary's hint. */
  datatype Sample = Sample(shutdownRequested: bool, intent: Intent, hint: ReplacementHint)

  datatype Input =
    | PrimaryEnded(result: RunResult, sample: Sample)
    | JoinedEnded(result: RunResult, sample: Sample)
    | ShutdownObserved
    | MaintenanceClosed
    | MaintenanceChanged(intent: Intent, sample: Sample)
    | HintsClosed
    | HintChanged(hint: ReplacementHint, sample: Sample)
    | DelayElapsed
    | Attempted(outcome: AttemptOutcome, sample: Sample)

  datatype Stretch = Stretch(
    primary: Active,
    joined: Option<Active>,
    candidate: Candidate,
    failure: Option<End>,
    shutdownStarted: bool,
    maintenanceLive: bool,
    born: nat)

  /** What a step did to the set of active connections. */
  datatype Effect = NoEffect | Left(who: Active) | Entered(who: Active)

  datatype Outcome =
    | Continue(next: Stretch, effect: Effect)
    | Return(result: RunResult, effect: Effect)

  /** How a stretch opens: the dialed connection, whether shutdown already started, and a sample. */
  datatype Opening = Opening(generation: Generation, interruptions: nat, token: nat, shutdownStarted: bool, sample: Sample)

  // ---------------------------------------------------------------------------------------------
  // Candidate policy
  // ---------------------------------------------------------------------------------------------

  predicate AllowsCandidates(shutdownStarted: bool, sample: Sample) {
    !shutdownStarted && !sample.shutdownRequested && sample.intent == Maintain
  }

  /** The sampled hint is for `target`, is not on hold, and no interruption went by unnoticed. */
  predicate StillHints(primary: Active, target: Generation, hint: ReplacementHint) {
    hint.generation == Some(target) && !hint.paused && hint.interruptions == primary.interruptions
  }

  /** The candidate the standing hint calls for. */
  function Follow(candidate: Candidate, hasJoined: bool, shutdownStarted: bool, sample: Sample): Candidate {
    if !AllowsCandidates(shutdownStarted, sample) || sample.hint.generation.None? then Idle
    else if Target(candidate) == sample.hint.generation then candidate
    else if hasJoined then Idle
    else Waiting(sample.hint.generation.value)
  }

  /** Whether a finished attempt toward `target` becomes the second active connection. */
  predicate Joins(s: Stretch, target: Generation, outcome: AttemptOutcome, sample: Sample) {
    outcome.Connected? && AllowsCandidates(s.shutdownStarted, sample) && StillHints(s.primary, target, sample.hint)
  }

  /** The candidate left behind by a finished attempt: retried unless it joined or may not. */
  function AfterAttempt(s: Stretch, target: Generation, outcome: AttemptOutcome, sample: Sample): Candidate {
    if Joins(s, target, outcome, sample) then Idle
    else if outcome.Connected? && !AllowsCandidates(s.shutdownStarted, sample) then Idle
    else Waiting(target)
  }

  /** What is remembered after one more end: the earliest protocol failure. */
  function KeepFailure(failure: Option<End>, result: RunResult): Option<End> {
    if failure.None? && IsProtocolFailure(result) then Some(result.error) else failure
  }

  // ---------------------------------------------------------------------------------------------
  // Transition system
  // ---------------------------------------------------------------------------------------------

  function Open(o: Opening): Stretch {
    Stretch(
      Active(0, o.generation, o.token, o.interruptions, true),
      None,
      Follow(Idle, false, o.shutdownStarted, o.sample),
      None,
      o.shutdownStarted,
      true,
      1)
  }

  /**
   * When an input can occur. The last clause is the dial's contract: a connected candidate has
   * reached the generation it was asked for.
   */
  predicate Enabled(s: Stretch, input: Input) {
    match input
    case PrimaryEnded(_, _) => true
    case JoinedEnded(_, _) => s.joined.Some?
    case ShutdownObserved => !s.shutdownStarted
    case MaintenanceClosed => s.maintenanceLive
    case MaintenanceChanged(_, _) => s.maintenanceLive
    case HintsClosed => s.primary.hintsLive
    case HintChanged(_, _) => s.primary.hintsLive
    case DelayElapsed => s.candidate.Waiting?
    case Attempted(outcome, _) =>
      s.candidate.Warming? && (outcome.Connected? ==> outcome.generation == s.candidate.target)
  }

  function Step(s: Stretch, input: Input): Outcome
    requires Enabled(s, input)
  {
    match input
    case PrimaryEnded(result, sample) =>
      if s.joined.None? then
        Return(if s.failure.Some? then Err(s.failure.value) else result, Left(s.primary))
      else
        var next := s.(primary := s.joined.value, joined := None, failure := KeepFailure(s.failure, result));
        Continue(next.(candidate := Follow(s.candidate, false, s.shutdownStarted, sample)), Left(s.primary))
    case JoinedEnded(result, sample) =>
      Continue(
        s.(joined := None,
           failure := KeepFailure(s.failure, result),
           candidate := Follow(s.candidate, false, s.shutdownStarted, sample)),
        Left(s.joined.value))
    case ShutdownObserved =>
      Continue(s.(shutdownStarted := true, candidate := Idle), NoEffect)
    case MaintenanceClosed =>
      Continue(s.(maintenanceLive := false), NoEffect)
    case MaintenanceChanged(intent, sample) =>
      Continue(
        s.(candidate := if intent == Retire then Idle
                        else Follow(s.candidate, s.joined.Some?, s.shutdownStarted, sample)),
        NoEffect)
    case HintsClosed =>
      Continue(s.(primary := s.primary.(hintsLive := false)), NoEffect)
    case HintChanged(hint, sample) =>
      var kept := if hint.interruptions == s.primary.interruptions then s.candidate else Idle;
      Continue(
        s.(primary := s.primary.(interruptions := hint.interruptions),
           candidate := Follow(kept, s.joined.Some?, s.shutdownStarted, sample)),
        NoEffect)
    case DelayElapsed =>
      Continue(s.(candidate := Warming(s.candidate.target)), NoEffect)
    case Attempted(outcome, sample) =>
      var target := s.candidate.target;
      var next := s.(candidate := AfterAttempt(s, target, outcome, sample));
      if Joins(s, target, outcome, sample) then
        var who := Active(s.born, outcome.generation, outcome.token, outcome.interruptions, true);
        Continue(next.(joined := Some(who), born := s.born + 1), Entered(who))
      else
        Continue(next, NoEffect)
  }

  /** The active connections, oldest first. */
  function Actives(s: Stretch): seq<Active> {
    [s.primary] + (if s.joined.Some? then [s.joined.value] else [])
  }

  /** Attempts pending or in flight. */
  function Attempts(s: Stretch): nat {
    if s.candidate.Idle? then 0 else 1
  }

  /** A run: its opening, the inputs it took, and the states it went through. */
  datatype Run = Run(opening: Opening, inputs: seq<Input>, states: seq<Stretch>)

  ghost predicate IsRun(r: Run) {
    && |r.states| == |r.inputs| + 1
    && r.states[0] == Open(r.opening)
    && forall k :: 0 <= k < |r.inputs| ==> StepsTo(r.states[k], r.inputs[k], r.states[k + 1])
  }

  ghost predicate StepsTo(s: Stretch, input: Input, s': Stretch) {
    Enabled(s, input) && Step(s, input).Continue? && Step(s, input).next == s'
  }

  /** A state some run reaches. */
  ghost predicate Reachable(s: Stretch) {
    exists r: Run :: IsRun(r) && s == r.states[|r.inputs|]
  }

  // ---------------------------------------------------------------------------------------------
  // At most two connections or attempts
  // ---------------------------------------------------------------------------------------------

  ghost predicate Inv(s: Stretch) {
    && (s.joined.Some? ==> s.candidate.Idle?)
    && (s.shutdownStarted ==> s.candidate.Idle?)
    && s.primary.id < s.born
    && (s.joined.Some? ==> s.primary.id < s.joined.value.id < s.born)
    && (s.failure.Some? ==> s.failure.value.WithdrawalProtocolFailure?)
  }

  lemma {:induction false} RunKeepsInv(r: Run, k: nat)
    requires IsRun(r) && k <= |r.inputs|
    ensures Inv(r.states[k])
  {
    if k > 0 {
      RunKeepsInv(r, k - 1);
      assert StepsTo(r.states[k - 1], r.inputs[k - 1], r.states[k]);
    }
  }

  /** In every reachable state a joined connection leaves no room for a candidate. */
  lemma AtMostTwo(s: Stretch)
    requires Reachable(s)
    ensures s.joined.Some? ==> s.candidate.Idle?
    ensures |Actives(s)| + Attempts(s) <= 2
  {
    var r: Run :| IsRun(r) && s == r.states[|r.inputs|];
    RunKeepsInv(r, |r.inputs|);
  }

  /** Once a run has observed shutdown, no candidate exists and no connection becomes active. */
  lemma {:induction false} QuietAfterShutdown(r: Run, i: nat, j: nat)
    requires IsRun(r) && i <= j <= |r.inputs|
    requires r.states[i].shutdownStarted
    ensures r.states[j].shutdownStarted && r.states[j].candidate.Idle?
    ensures r.states[j].born == r.states[i].born
    ensures |Actives(r.states[j])| <= |Actives(r.states[i])|
    decreases j
  {
    RunKeepsInv(r, j);
    if i < j {
      QuietAfterShutdown(r, i, j - 1);
      assert StepsTo(r.states[j - 1], r.inputs[j - 1], r.states[j]);
    }
  }

  // ---------------------------------------------------------------------------------------------
  // Which connections may carry credit
  // ---------------------------------------------------------------------------------------------

  /** The sample behind state `k` of a run: the opening's, or that of the input leading to it. */
  function SampleAt(r: Run, k: nat): Option<Sample>
    requires k <= |r.inputs|
  {
    if k == 0 then Some(r.opening.sample)
    else
      match r.inputs[k - 1]
      case PrimaryEnded(_, sample) => Some(sample)
      case JoinedEnded(_, sample) => Some(sample)
      case MaintenanceChanged(_, sample) => Some(sample)
      case HintChanged(_, sample) => Some(sample)
      case Attempted(_, sample) => Some(sample)
      case _ => None
  }

  /** At state `k` a candidate toward `target` newly waits, and it was allowed and hinted then. */
  ghost predicate StartsAt(r: Run, k: nat, target: Generation)
    requires IsRun(r) && k <= |r.inputs|
  {
    && r.states[k].candidate == Waiting(target)
    && (k > 0 ==>
          || Target(r.states[k - 1].candidate) != Some(target)
          || r.states[k - 1].primary.interruptions != r.states[k].primary.interruptions)
    && SampleAt(r, k).Some?
    && AllowsCandidates(r.states[k].shutdownStarted, SampleAt(r, k).value)
    && SampleAt(r, k).value.hint.generation == Some(target)
  }

  /** Input `k` made `who` the second active connection, with every joining condition met. */
  ghost predicate JoinsAt(r: Run, k: nat, who: Active)
    requires IsRun(r) && k < |r.inputs|
  {
    && r.inputs[k].Attempted?
    && r.inputs[k].outcome.Connected?
    && r.states[k].candidate.Warming?
    && r.states[k].joined.None?
    && AllowsCandidates(r.states[k].shutdownStarted, r.inputs[k].sample)
    && StillHints(r.states[k].primary, who.generation, r.inputs[k].sample.hint)
    && r.states[k].candidate.target == who.generation
    && r.states[k + 1].joined.Some?
    && r.states[k + 1].joined.value.id == who.id
    && r.states[k].born == who.id
  }

  /** The whole life of a candidate from state `i` to state `k` had one target, one primary and one observed subscription. */
  ghost predicate OneLife(r: Run, i: nat, k: nat, target: Generation)
    requires IsRun(r) && i <= k <= |r.inputs|
  {
    forall m :: i <= m <= k ==>
      && Target(r.states[m].candidate) == Some(target)
      && r.states[m].primary.id == r.states[k].primary.id
      && r.states[m].primary.interruptions == r.states[k].primary.interruptions
      && r.states[m].joined.None?
      && !r.states[m].shutdownStarted
  }

  /**
   * Every connection active at some point of a run is the dialed one or joined earlier in that
   * run, under Maintain intent, without shutdown, and while the primary's hint named exactly the
   * generation it reached, unpaused and without an unobserved interruption.
   */
  lemma {:induction false} CarriersWereAdmitted(r: Run, k: nat, who: Active)
    requires IsRun(r) && k <= |r.inputs|
    requires who in Actives(r.states[k])
    ensures (who.id == 0 && who.generation == r.opening.generation) || exists j :: 0 <= j < k && JoinsAt(r, j, who)
  {
    if k > 0 {
      var before, input := r.states[k - 1], r.inputs[k - 1];
      assert StepsTo(before, input, r.states[k]);
      RunKeepsInv(r, k - 1);
      if input.HintChanged? && who == r.states[k].primary {
        CarriersWereAdmitted(r, k - 1, before.primary);
        SameConnection(r, k - 1, before.primary, who);
      } else if input.HintsClosed? && who == r.states[k].primary {
        CarriersWereAdmitted(r, k - 1, before.primary);
        SameConnection(r, k - 1, before.primary, who);
      } else if who in Actives(before) {
        CarriersWereAdmitted(r, k - 1, who);
      } else {
        assert JoinsAt(r, k - 1, who);
      }
    }
  }

  /** Admission speaks of a connection's identity and generation only. */
  lemma SameConnection(r: Run, k: nat, was: Active, now: Active)
    requires IsRun(r) && k <= |r.inputs|
    requires was.id == now.id && was.generation == now.generation
    ensures (exists j :: 0 <= j < k && JoinsAt(r, j, was)) ==> (exists j :: 0 <= j < k && JoinsAt(r, j, now))
  {
    if exists j :: 0 <= j < k && JoinsAt(r, j, was) {
      var j :| 0 <= j < k && JoinsAt(r, j, was);
      assert JoinsAt(r, j, now);
    }
  }

  /** A candidate exists only because it started, and nothing the worker observed since cut its life. */
  lemma {:induction false} CandidatesHaveOneLife(r: Run, k: nat)
    requires IsRun(r) && k <= |r.inputs|
    requires !r.states[k].candidate.Idle?
    ensures exists i :: 0 <= i <= k && StartsAt(r, i, r.states[k].candidate.target) && OneLife(r, i, k, r.states[k].candidate.target)
  {
    RunKeepsInv(r, k);
    var target := r.states[k].candidate.target;
    if k > 0 {
      assert StepsTo(r.states[k - 1], r.inputs[k - 1], r.states[k]);
      RunKeepsInv(r, k - 1);
    }
    if
    case k == 0 || Target(r.states[k - 1].candidate) != Some(target)
      || r.states[k - 1].primary.interruptions != r.states[k].primary.interruptions =>
      assert StartsAt(r, k, target) && OneLife(r, k, k, target);
    case k > 0 && Target(r.states[k - 1].candidate) == Some(target)
      && r.states[k - 1].primary.interruptions == r.states[k].primary.interruptions =>
      CandidatesHaveOneLife(r, k - 1);
      var i :| 0 <= i <= k - 1 && StartsAt(r, i, target) && OneLife(r, i, k - 1, target);
      assert OneLife(r, i, k, target);
  }

  /**
   * What the environment guarantees about one connection's interruption counter: it only grows,
   * and a sample is never older than what the worker recorded before it.
   */
  ghost predicate CountersOnlyGrow(r: Run)
    requires IsRun(r)
  {
    && (forall i :: 0 <= i <= |r.inputs| && SampleAt(r, i).Some? ==>
          r.states[i].primary.interruptions <= SampleAt(r, i).value.hint.interruptions)
    && (forall i, j ::
          (0 <= i <= j <= |r.inputs| && SampleAt(r, i).Some? && SampleAt(r, j).Some?
           && r.states[i].primary.id == r.states[j].primary.id) ==>
          SampleAt(r, i).value.hint.interruptions <= SampleAt(r, j).value.hint.interruptions)
  }

  /**
   * A candidate that joins lived within one subscription of one primary: it started while the
   * hint named it, kept that target throughout, and no interruption was counted from the sample
   * that started it to the sample that let it join.
   */
  lemma JoinsWithinOneSubscription(r: Run, k: nat, who: Active)
    requires IsRun(r) && k < |r.inputs|
    requires JoinsAt(r, k, who)
    requires CountersOnlyGrow(r)
    ensures exists i ::
              && 0 <= i <= k && StartsAt(r, i, who.generation) && OneLife(r, i, k, who.generation)
              && SampleAt(r, i).value.hint.interruptions == r.inputs[k].sample.hint.interruptions
  {
    CandidatesHaveOneLife(r, k);
    var i :| 0 <= i <= k && StartsAt(r, i, who.generation) && OneLife(r, i, k, who.generation);
    assert StepsTo(r.states[k], r.inputs[k], r.states[k + 1]);
    assert SampleAt(r, k + 1) == Some(r.inputs[k].sample);
    assert r.states[k + 1].primary == r.states[k].primary;
    assert r.states[i].primary.interruptions == r.states[k].primary.interruptions;
  }

  // ---------------------------------------------------------------------------------------------
  // When a candidate starts, stops and joins
  // ---------------------------------------------------------------------------------------------

  /** Nothing stands against candidates, and the sampled hint is for `g`. */
  ghost predicate CallsFor(shutdownStarted: bool, sample: Sample, g: Generation) {
    && !shutdownStarted && !sample.shutdownRequested && sample.intent == Maintain
    && sample.hint.generation == Some(g)
  }

  /** Besides, the hint is not on hold and no interruption was counted that the worker has not seen. */
  ghost predicate MayJoin(s: Stretch, sample: Sample, g: Generation) {
    CallsFor(s.shutdownStarted, sample, g) && !sample.hint.paused && sample.hint.interruptions == s.primary.interruptions
  }

  /** What ends the pursuit of `g`; a failed attempt is not among it. */
  ghost predicate StopsOn(s: Stretch, input: Input, g: Generation) {
    match input
    case ShutdownObserved => true
    case MaintenanceChanged(intent, sample) => intent == Retire || !CallsFor(s.shutdownStarted, sample, g)
    case HintChanged(_, sample) => !CallsFor(s.shutdownStarted, sample, g)
    case Attempted(outcome, sample) =>
      && outcome.Connected?
      && (s.shutdownStarted || sample.shutdownRequested || sample.intent == Retire || MayJoin(s, sample, g))
    case _ => false
  }

  /** What begins the pursuit of `g`: an end, a maintenance or a hint event that leaves room for it and calls for it. */
  ghost predicate StartsOn(s: Stretch, input: Input, g: Generation) {
    match input
    case PrimaryEnded(_, sample) => CallsFor(s.shutdownStarted, sample, g)
    case JoinedEnded(_, sample) => CallsFor(s.shutdownStarted, sample, g)
    case MaintenanceChanged(intent, sample) => intent == Maintain && s.joined.None? && CallsFor(s.shutdownStarted, sample, g)
    case HintChanged(_, sample) => s.joined.None? && CallsFor(s.shutdownStarted, sample, g)
    case _ => false
  }

  /** Over every run, a stretch that pursues `g` stops exactly then; until then every failed attempt is retried. */
  lemma PursuitStopsExactly(r: Run, k: nat, g: Generation)
    requires IsRun(r) && k < |r.inputs| && Target(r.states[k].candidate) == Some(g)
    ensures Target(r.states[k + 1].candidate) != Some(g) <==> StopsOn(r.states[k], r.inputs[k], g)
  {
    RunKeepsInv(r, k);
    assert StepsTo(r.states[k], r.inputs[k], r.states[k + 1]);
  }

  /** Over every run, the pursuit of `g` begins exactly then, or at the opening that calls for it. */
  lemma PursuitStartsExactly(r: Run, k: nat, g: Generation)
    requires IsRun(r) && k < |r.inputs|
    ensures Target(r.states[0].candidate) == Some(g) <==> CallsFor(r.opening.shutdownStarted, r.opening.sample, g)
    ensures Target(r.states[k].candidate) != Some(g) ==>
      (Target(r.states[k + 1].candidate) == Some(g) <==> StartsOn(r.states[k], r.inputs[k], g))
  {
    RunKeepsInv(r, k);
    assert StepsTo(r.states[k], r.inputs[k], r.states[k + 1]);
  }

  /** After any end, maintenance or hint event that calls for `g` with nothing joined, the stretch pursues `g`. */
  lemma HintedIsPursued(r: Run, k: nat, g: Generation)
    requires IsRun(r) && k < |r.inputs| && r.states[k + 1].joined.None?
    requires StartsOn(r.states[k], r.inputs[k], g)
    ensures Target(r.states[k + 1].candidate) == Some(g)
  {
    PursuitStartsExactly(r, k, g);
    if Target(r.states[k].candidate) == Some(g) { PursuitStopsExactly(r, k, g); }
  }

  /**
   * How an attempt stands: a new pursuit, a failed attempt and a counted interruption make it wait,
   * an elapsed delay makes it warm, and nothing else touches it while the pursuit goes on.
   */
  lemma AttemptsRestartExactly(r: Run, k: nat, g: Generation)
    requires IsRun(r) && k < |r.inputs| && Target(r.states[k + 1].candidate) == Some(g)
    ensures r.states[k + 1].candidate ==
      if Target(r.states[k].candidate) != Some(g) || r.inputs[k].Attempted? then Waiting(g)
      else if r.inputs[k].HintChanged? && r.inputs[k].hint.interruptions != r.states[k].primary.interruptions then Waiting(g)
      else if r.inputs[k].DelayElapsed? then Warming(g)
      else r.states[k].candidate
  {
    RunKeepsInv(r, k);
    assert StepsTo(r.states[k], r.inputs[k], r.states[k + 1]);
  }

  /** An attempt that connected becomes the second active connection exactly when it may join. */
  lemma JoinsExactly(r: Run, k: nat)
    requires IsRun(r) && k < |r.inputs| && r.inputs[k].Attempted? && r.inputs[k].outcome.Connected?
    ensures Target(r.states[k].candidate).Some?
    ensures
      var outcome := r.inputs[k].outcome;
      r.states[k + 1].joined ==
        if MayJoin(r.states[k], r.inputs[k].sample, Target(r.states[k].candidate).value)
        then Some(Active(r.states[k].born, outcome.generation, outcome.token, outcome.interruptions, true))
        else None
  {
    RunKeepsInv(r, k);
    assert StepsTo(r.states[k], r.inputs[k], r.states[k + 1]);
  }

  /**
   * A connection that stays active stays what it is: its generation and token never change, only a
   * hint event changes the interruptions seen and only of the primary, and only closed hints stop
   * them.
   */
  lemma ConnectionsStayThemselves(r: Run, k: nat, was: Active, now: Active)
    requires IsRun(r) && k < |r.inputs|
    requires was in Actives(r.states[k]) && now in Actives(r.states[k + 1]) && was.id == now.id
    ensures now.generation == was.generation && now.token == was.token
    ensures now.interruptions ==
      if r.inputs[k].HintChanged? && was == r.states[k].primary then r.inputs[k].hint.interruptions else was.interruptions
    ensures now.hintsLive <==> was.hintsLive && !(r.inputs[k].HintsClosed? && was == r.states[k].primary)
  {
    RunKeepsInv(r, k);
    assert StepsTo(r.states[k], r.inputs[k], r.states[k + 1]);
  }

  /** What a run knows of its control channels is what it was given. */
  lemma {:induction false} ChannelsAreHistory(r: Run, k: nat)
    requires IsRun(r) && k <= |r.inputs|
    ensures r.states[k].shutdownStarted <==> r.opening.shutdownStarted || ShutdownObserved in r.inputs[..k]
    ensures r.states[k].maintenanceLive <==> MaintenanceClosed !in r.inputs[..k]
    ensures r.states[0].primary == Active(0, r.opening.generation, r.opening.token, r.opening.interruptions, true)
    ensures r.states[0].joined.None?
  {
    if k > 0 {
      ChannelsAreHistory(r, k - 1);
      assert StepsTo(r.states[k - 1], r.inputs[k - 1], r.states[k]);
      assert r.inputs[..k] == r.inputs[..k - 1] + [r.inputs[k - 1]];
    }
  }

  // ---------------------------------------------------------------------------------------------
  // How connections leave
  // ---------------------------------------------------------------------------------------------

  /** The connection an input ends, if it ends one. */
  function EndedBy(s: Stretch, input: Input): Option<nat>
    requires Enabled(s, input)
  {
    match input
    case PrimaryEnded(_, _) => Some(s.primary.id)
    case JoinedEnded(_, _) => Some(s.joined.value.id)
    case _ => None
  }

  function Ids(s: Stretch): set<nat> {
    {s.primary.id} + (if s.joined.Some? then {s.joined.value.id} else {})
  }

  /**
   * Retire, shutdown, hint changes and candidates never close a connection: a connection leaves
   * the active set exactly at its own end, and only a joining candidate enters it.
   */
  lemma OnlyEndsRemove(r: Run, k: nat)
    requires IsRun(r) && k < |r.inputs|
    ensures Enabled(r.states[k], r.inputs[k])
    ensures Ids(r.states[k]) - Ids(r.states[k + 1])
         == (match EndedBy(r.states[k], r.inputs[k]) case Some(id) => {id} case None => {})
    ensures Ids(r.states[k + 1]) - Ids(r.states[k])
         == (if r.states[k + 1].born > r.states[k].born then {r.states[k].born} else {})
    ensures r.states[k + 1].born > r.states[k].born ==>
      r.states[k + 1].joined.Some? && JoinsAt(r, k, r.states[k + 1].joined.value)
  {
    RunKeepsInv(r, k);
    assert StepsTo(r.states[k], r.inputs[k], r.states[k + 1]);
    RunKeepsInv(r, k + 1);
  }

  // ---------------------------------------------------------------------------------------------
  // Withdrawal protocol failures
  // ---------------------------------------------------------------------------------------------

  /** The results of the connections that ended, in the order they ended. */
  function Ends(inputs: seq<Input>): seq<RunResult> {
    if inputs == [] then []
    else
      var last := inputs[|inputs| - 1];
      Ends(inputs[..|inputs| - 1]) + (if last.PrimaryEnded? || last.JoinedEnded? then [last.result] else [])
  }

  /** How many of the inputs are the end of a connection, of the primary or of the joined one. */
  function EndsAmong(inputs: seq<Input>): nat {
    if inputs == [] then 0
    else (if inputs[0].PrimaryEnded? || inputs[0].JoinedEnded? then 1 else 0) + EndsAmong(inputs[1..])
  }

  lemma {:induction false} EndsAmongSnoc(inputs: seq<Input>, x: Input)
    ensures EndsAmong(inputs + [x]) == EndsAmong(inputs) + if x.PrimaryEnded? || x.JoinedEnded? then 1 else 0
  {
    if inputs == [] {
      assert inputs + [x] == [x];
    } else {
      assert (inputs + [x])[1..] == inputs[1..] + [x];
      EndsAmongSnoc(inputs[1..], x);
    }
  }

  /** Every end of either connection is listed, at its place among the ends, and nothing else is. */
  lemma {:induction false} EndsAreListed(inputs: seq<Input>)
    ensures |Ends(inputs)| == EndsAmong(inputs)
    ensures forall i :: 0 <= i < |inputs| && (inputs[i].PrimaryEnded? || inputs[i].JoinedEnded?) ==>
      EndsAmong(inputs[..i]) < |Ends(inputs)| && Ends(inputs)[EndsAmong(inputs[..i])] == inputs[i].result
  {
    if inputs != [] {
      var n := |inputs| - 1;
      var most, last := inputs[..n], inputs[n];
      EndsAreListed(most);
      EndsAmongSnoc(most, last);
      assert most + [last] == inputs;
      forall i | 0 <= i < |inputs| && (inputs[i].PrimaryEnded? || inputs[i].JoinedEnded?)
        ensures EndsAmong(inputs[..i]) < |Ends(inputs)| && Ends(inputs)[EndsAmong(inputs[..i])] == inputs[i].result
      {
        if i < n { assert most[..i] == inputs[..i] && most[i] == inputs[i]; }
      }
    }
  }

  /** `results[i]` is the first withdrawal protocol failure. */
  ghost predicate FirstFailure(results: seq<RunResult>, i: int) {
    && 0 <= i < |results|
    && IsProtocolFailure(results[i])
    && forall j :: 0 <= j < i ==> !IsProtocolFailure(results[j])
  }

  ghost predicate NoFailure(results: seq<RunResult>) {
    forall j :: 0 <= j < |results| ==> !IsProtocolFailure(results[j])
  }

  /** A stretch remembers the first failure among the connections that already ended. */
  lemma {:induction false} RemembersFirstFailure(r: Run, k: nat)
    requires IsRun(r) && k <= |r.inputs|
    ensures r.states[k].failure.None? ==> NoFailure(Ends(r.inputs[..k]))
    ensures r.states[k].failure.Some? ==>
      exists i :: FirstFailure(Ends(r.inputs[..k]), i) && Ends(r.inputs[..k])[i] == Err(r.states[k].failure.value)
  {
    if k > 0 {
      RemembersFirstFailure(r, k - 1);
      assert StepsTo(r.states[k - 1], r.inputs[k - 1], r.states[k]);
      var before, now := Ends(r.inputs[..k - 1]), Ends(r.inputs[..k]);
      assert r.inputs[..k][..k - 1] == r.inputs[..k - 1];
      assert before <= now;
      if r.states[k - 1].failure.Some? {
        var i :| FirstFailure(before, i) && before[i] == Err(r.states[k - 1].failure.value);
        assert FirstFailure(now, i);
      } else if r.states[k].failure.Some? {
        assert FirstFailure(now, |before|);
      }
    }
  }

  /**
   * `result` is a withdrawal protocol failure exactly when one of `ends` is, and then it is the
   * first of them; otherwise it is the last end.
   */
  ghost predicate ReportsFirstFailure(result: RunResult, ends: seq<RunResult>) {
    && (IsProtocolFailure(result) <==> !NoFailure(ends))
    && (forall i :: FirstFailure(ends, i) ==> result == ends[i])
    && (NoFailure(ends) ==> ends != [] && result == ends[|ends| - 1])
  }

  /** What a stretch returns after the run `r` and a last primary end. */
  lemma ReturnsFirstFailure(r: Run, last: Input)
    requires IsRun(r) && Enabled(r.states[|r.inputs|], last) && Step(r.states[|r.inputs|], last).Return?
    ensures ReportsFirstFailure(Step(r.states[|r.inputs|], last).result, Ends(r.inputs + [last]))
  {
    var n := |r.inputs|;
    RunKeepsInv(r, n);
    RemembersFirstFailure(r, n);
    assert r.inputs[..n] == r.inputs;
    var before, ends := Ends(r.inputs), Ends(r.inputs + [last]);
    assert (r.inputs + [last])[..n] == r.inputs;
    assert ends == before + [last.result];
    hide Ends;
    FailuresReported(r.states[n].failure, before, last.result);
  }

  /** Remembering the first failure of the earlier ends reports the first failure of all ends. */
  lemma FailuresReported(failure: Option<End>, before: seq<RunResult>, last: RunResult)
    requires failure.None? ==> NoFailure(before)
    requires failure.Some? ==> failure.value.WithdrawalProtocolFailure?
    requires failure.Some? ==> exists i :: FirstFailure(before, i) && before[i] == Err(failure.value)
    ensures ReportsFirstFailure(if failure.Some? then Err(failure.value) else last, before + [last])
  {
    var ends := before + [last];
    assert ends[|before|] == last && forall i :: 0 <= i < |before| ==> ends[i] == before[i];
    if failure.Some? {
      var i :| FirstFailure(before, i) && before[i] == Err(failure.value);
      assert IsProtocolFailure(ends[i]);
    }
  }
}
