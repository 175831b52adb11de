/**
 * The select loop of one Connected stretch, as the object whose fields it updates.
 *
 * Each arm is proved to take the step of the stretch machine for the same input, and the loop to
 * produce a run of that machine, so every result about runs is a result about this loop.
 */
module AddressWorkerLoop {
  import opened Prelude
  import opened ConnectedStretch
  import C = Convergence
  import W = WorkerSystem

  /** The input with the token the tracker would hand to a joining connection. */
  function Stamp(input: Input, token: nat): Input {
    if input.Attempted? && input.outcome.Connected? then
      input.(outcome := input.outcome.(token := token))
    else input
  }

  /** The inputs that end a connection. */
  predicate IsEnd(input: Input) {
    input.PrimaryEnded? || input.JoinedEnded?
  }

  // ---------------------------------------------------------------------------------------------
  // What a schedule calls for
  // ---------------------------------------------------------------------------------------------

  /** The stretch without the tokens its connections happen to have; nothing else depends on them. */
  function Erased(s: Stretch): Stretch {
    s.(primary := s.primary.(token := 0),
       joined := if s.joined.Some? then Some(s.joined.value.(token := 0)) else None)
  }

  /** How far a schedule of ready events takes a stretch, and which of the events it took. */
  datatype Progress = Live(stretch: Stretch, taken: seq<Input>) | Over(result: RunResult, taken: seq<Input>)

  /** One ready event: a disabled arm never fires, and nothing happens once the stretch returned. */
  function Take(p: Progress, x: Input): Progress {
    if p.Over? || !Enabled(p.stretch, x) then p
    else
      var y := Stamp(x, 0);
      match Step(p.stretch, y)
      case Continue(next, _) => Live(next, p.taken + [y])
      case Return(result, _) => Over(result, p.taken + [y])
  }

  function After(opening: Opening, schedule: seq<Input>): Progress {
    if schedule == [] then Live(Open(opening.(token := 0)), [])
    else Take(After(opening, schedule[..|schedule| - 1]), schedule[|schedule| - 1])
  }

  lemma AfterNext(opening: Opening, schedule: seq<Input>, i: nat)
    requires i < |schedule|
    ensures After(opening, schedule[..i + 1]) == Take(After(opening, schedule[..i]), schedule[i])
  {
    assert schedule[..i + 1][..i] == schedule[..i];
  }

  /** The arms that can fire. */
  ghost predicate CanFire(s: Stretch, x: Input) {
    match x
    case PrimaryEnded(_, _) => true
    case JoinedEnded(_, _) => s.joined.Some?
    case ShutdownObserved => !s.shutdownStarted
    case MaintenanceClosed => s.maintenanceLive
    case MaintenanceChanged(_, _) => s.maintenanceLive
    case HintsClosed => s.primary.hintsLive
    case HintChanged(_, _) => s.primary.hintsLive
    case DelayElapsed => s.candidate.Waiting?
    case Attempted(outcome, _) => s.candidate.Warming? && (outcome.Connected? ==> outcome.generation == s.candidate.target)
  }

  /**
   * Every event of a schedule is taken exactly when the stretch has not returned and its arm can
   * fire, and the stretch returns exactly at the end of its only active connection.
   */
  lemma EventsAreTakenExactly(opening: Opening, schedule: seq<Input>, i: nat)
    requires i < |schedule|
    ensures
      var p, q, x := After(opening, schedule[..i]), After(opening, schedule[..i + 1]), schedule[i];
      && q.taken == p.taken + (if p.Live? && CanFire(p.stretch, x) then [Stamp(x, 0)] else [])
      && (p.Live? && !CanFire(p.stretch, x) ==> q == p)
      && (p.Live? ==> (q.Over? <==> x.PrimaryEnded? && p.stretch.joined.None?))
  {
    AfterNext(opening, schedule, i);
    assert After(opening, schedule[..i]).taken + [] == After(opening, schedule[..i]).taken;
  }

  lemma {:induction false} OverStaysOver(opening: Opening, schedule: seq<Input>, i: nat)
    requires i <= |schedule| && After(opening, schedule[..i]).Over?
    ensures After(opening, schedule) == After(opening, schedule[..i])
    decreases |schedule| - i
  {
    if i == |schedule| {
      assert schedule[..i] == schedule;
    } else {
      AfterNext(opening, schedule, i);
      OverStaysOver(opening, schedule, i + 1);
    }
  }

  /** A step does the same whatever the tokens are. */
  lemma StepErases(s: Stretch, x: Input, token: nat)
    ensures Enabled(s, x) <==> Enabled(Erased(s), x)
    ensures Enabled(s, x) ==> Enabled(s, Stamp(x, token)) && Enabled(Erased(s), Stamp(x, 0))
    ensures Enabled(s, x) ==>
      match Step(s, Stamp(x, token))
      case Continue(next, _) => Step(Erased(s), Stamp(x, 0)).Continue? && Step(Erased(s), Stamp(x, 0)).next == Erased(next)
      case Return(result, _) => Step(Erased(s), Stamp(x, 0)).Return? && Step(Erased(s), Stamp(x, 0)).result == result
  {
    hide Follow, KeepFailure, AllowsCandidates;
  }

  /** The progress of a schedule is a run of the stretch machine on the events it took. */
  lemma {:induction false} AfterIsRun(opening: Opening, schedule: seq<Input>)
    ensures
      var p := After(opening, schedule);
      var given := W.Given(Some(opening.(token := 0)), p.taken);
      if p.Live? then exists r :: W.IsRunOn(r, given) && W.RunsTo(r, p.stretch) else W.ReturnsOn(given, p.result)
    decreases |schedule|
  {
    var start := opening.(token := 0);
    if schedule == [] {
      var r := ConnectedStretch.Run(start, [], [Open(start)]);
      assert W.IsRunOn(r, W.Given(Some(start), [])) && W.RunsTo(r, Open(start));
    } else {
      var before, x := After(opening, schedule[..|schedule| - 1]), schedule[|schedule| - 1];
      AfterIsRun(opening, schedule[..|schedule| - 1]);
      if before.Live? && Enabled(before.stretch, x) {
        var given := W.Given(Some(start), before.taken);
        var r :| W.IsRunOn(r, given) && W.RunsTo(r, before.stretch);
        W.StretchGoesOn(r, given, Stamp(x, 0));
      }
    }
  }

  /** A stretch that returned reports the first failure among the ends it took, or else the last end. */
  lemma OverReports(opening: Opening, schedule: seq<Input>)
    requires After(opening, schedule).Over?
    ensures ReportsFirstFailure(After(opening, schedule).result, Ends(After(opening, schedule).taken))
  {
    var p := After(opening, schedule);
    AfterIsRun(opening, schedule);
    W.ReturnedReports(W.Given(Some(opening.(token := 0)), p.taken), p.result);
  }

  // ---------------------------------------------------------------------------------------------
  // Credit along a run
  // ---------------------------------------------------------------------------------------------

  /** No connection of the run ended while the other one had its token. */
  ghost predicate TokensApart(r: ConnectedStretch.Run)
    requires IsRun(r)
  {
    forall j :: 0 <= j < |r.inputs| ==> !(IsEnd(r.inputs[j]) && SharesToken(r.states[j]))
  }

  predicate SharesToken(s: Stretch) {
    s.joined.Some? && s.joined.value.token == s.primary.token
  }

  /** The inputs without tokens. */
  function Plain(inputs: seq<Input>): seq<Input> {
    seq(|inputs|, i requires 0 <= i < |inputs| => Stamp(inputs[i], 0))
  }

  lemma PlainNext(inputs: seq<Input>, x: Input)
    ensures Plain(inputs + [x]) == Plain(inputs) + [Stamp(x, 0)]
  {
  }

  /** The loop is where its schedule so far takes it: on those events, tokens aside, in that state or with that result. */
  ghost predicate Follows(p: Progress, s: Stretch, result: Option<RunResult>, r: ConnectedStretch.Run, last: Input) {
    if result.None? then p == Live(Erased(s), Plain(r.inputs))
    else p == Over(result.value, Plain(r.inputs) + [Stamp(last, 0)])
  }

  lemma FollowsFrom(opening: Opening, schedule: seq<Input>, r: ConnectedStretch.Run, last: Input)
    requires r == ConnectedStretch.Run(opening, [], [Open(opening)])
    ensures W.RunsTo(r, Open(opening)) && Follows(After(opening, schedule[..0]), Open(opening), None, r, last)
  {
    assert schedule[..0] == [];
  }

  /** What one turn does to the stretch and the tracker. */
  ghost predicate Turned(s: Stretch, y: Input, s': Stretch, result: Option<RunResult>, t: C.Tracker, t': C.Tracker, a: C.Address) {
    && Enabled(s, y)
    && match Step(s, y)
       case Continue(next, effect) => result.None? && s' == next && t' == W.TrackEffect(t, a, effect)
       case Return(value, effect) => result == Some(value) && t' == W.TrackEffect(t, a, effect)
  }

  /** `now` is `was` and then `y`, or `was` itself if `y` made the stretch return. */
  ghost predicate Extends(was: ConnectedStretch.Run, y: Input, now: ConnectedStretch.Run, s': Stretch, result: Option<RunResult>) {
    if result.None? then
      W.RunsTo(now, s') && now.opening == was.opening && now.inputs == was.inputs + [y] && was.states <= now.states
    else
      now == was && W.ReturnsFrom(now, y, result.value)
  }

  lemma TurnExtends(was: ConnectedStretch.Run, s: Stretch, y: Input, s': Stretch, result: Option<RunResult>,
                    t: C.Tracker, t': C.Tracker, a: C.Address) returns (now: ConnectedStretch.Run)
    requires W.RunsTo(was, s) && Turned(s, y, s', result, t, t', a)
    ensures Extends(was, y, now, s', result)
  {
    if result.None? {
      now := W.ExtendRun(was, y);
    } else {
      now := was;
    }
  }

  lemma FollowsSkip(opening: Opening, schedule: seq<Input>, i: nat, s: Stretch, r: ConnectedStretch.Run, last: Input)
    requires i < |schedule| && Follows(After(opening, schedule[..i]), s, None, r, last) && !Enabled(s, schedule[i])
    ensures Follows(After(opening, schedule[..i + 1]), s, None, r, last)
  {
    hide After, Erased, Plain, Step, Enabled;
    AfterNext(opening, schedule, i);
    StepErases(s, schedule[i], 0);
  }

  /** One more event of the schedule, with the token the tracker handed out. */
  lemma FollowsNext(opening: Opening, schedule: seq<Input>, i: nat, s: Stretch, token: nat, s': Stretch, result: Option<RunResult>,
                    t: C.Tracker, t': C.Tracker, a: C.Address, was: ConnectedStretch.Run, before: Input, now: ConnectedStretch.Run)
    requires i < |schedule| && Follows(After(opening, schedule[..i]), s, None, was, before) && Enabled(s, schedule[i])
    requires Turned(s, Stamp(schedule[i], token), s', result, t, t', a) && Extends(was, Stamp(schedule[i], token), now, s', result)
    ensures Follows(After(opening, schedule[..i + 1]), s', result, now, Stamp(schedule[i], token))
  {
    hide After, Erased, Plain, Step, Enabled;
    AfterNext(opening, schedule, i);
    StepErases(s, schedule[i], token);
    PlainNext(was.inputs, Stamp(schedule[i], token));
  }

  lemma FollowsTo(opening: Opening, schedule: seq<Input>, i: nat, s: Stretch, result: Option<RunResult>, r: ConnectedStretch.Run, last: Input)
    requires i <= |schedule| && Follows(After(opening, schedule[..i]), s, result, r, last)
    requires result.None? ==> i == |schedule|
    ensures Follows(After(opening, schedule), s, result, r, last)
  {
    if result.Some? {
      OverStaysOver(opening, schedule, i);
    } else {
      assert schedule[..i] == schedule;
    }
  }

  /** A step keeps the entries of an address those of its active connections. */
  lemma StepCredits(t: C.Tracker, a: C.Address, s: Stretch, x: Input)
    requires C.Entries(t, a) == W.CreditOf(W.Running(s)) && Inv(s)
    requires Enabled(s, x) && W.TakesNextToken(t, x) && !(IsEnd(x) && SharesToken(s))
    ensures
      var o := Step(s, x);
      C.Entries(W.TrackEffect(t, a, o.effect), a) == if o.Continue? then W.CreditOf(W.Running(o.next)) else []
  {
    var system := W.System(t, map[a := W.Running(s)], 0);
    assert W.PhaseOf(system, a) == W.Running(s);
    W.StretchStepAgrees(system, a, x);
  }

  /**
   * Along the run `r`, as long as tokens stayed apart, the entries are those of the active
   * connections, and there are none once the stretch returned.
   */
  ghost predicate Credits(r: ConnectedStretch.Run, entries: seq<C.Entry>, s: Stretch, result: Option<RunResult>)
    requires IsRun(r)
  {
    TokensApart(r) ==> entries == if result.None? then W.CreditOf(W.Running(s)) else []
  }

  lemma TurnCredits(t: C.Tracker, t': C.Tracker, a: C.Address, s: Stretch, y: Input, s': Stretch, result: Option<RunResult>,
                    was: ConnectedStretch.Run, now: ConnectedStretch.Run)
    requires W.RunsTo(was, s) && W.TakesNextToken(t, y)
    requires Turned(s, y, s', result, t, t', a) && Extends(was, y, now, s', result)
    requires Credits(was, C.Entries(t, a), s, None)
    ensures Credits(now, C.Entries(t', a), s', result)
  {
    hide Step, Enabled, W.CreditOf, W.TrackEffect;
    if TokensApart(now) {
      forall j | 0 <= j < |was.inputs| ensures !(IsEnd(was.inputs[j]) && SharesToken(was.states[j])) {
        assert now.inputs[j] == was.inputs[j] && now.states[j] == was.states[j];
      }
      RunKeepsInv(was, |was.inputs|);
      LastEndApart(s, y, s', result, t, t', a, was, now);
      StepCredits(t, a, s, y);
    }
  }

  lemma LastEndApart(s: Stretch, y: Input, s': Stretch, result: Option<RunResult>, t: C.Tracker, t': C.Tracker, a: C.Address,
                     was: ConnectedStretch.Run, now: ConnectedStretch.Run)
    requires W.RunsTo(was, s) && Turned(s, y, s', result, t, t', a) && Extends(was, y, now, s', result)
    requires TokensApart(now)
    ensures !(IsEnd(y) && SharesToken(s))
  {
    if result.None? {
      var n := |was.inputs|;
      assert now.inputs[n] == y && now.states[n] == was.states[n];
    }
  }

  class ConnectedAddress {
    const address: C.Address
    const tracker: C.AssignmentConvergenceTracker
    var primary: Active
    var joined: Option<Active>
    var candidate: Candidate
    var failure: Option<End>
    var shutdownStarted: bool
    var maintenanceLive: bool
    var born: nat

    function State(): Stretch
      reads this
    {
      Stretch(primary, joined, candidate, failure, shutdownStarted, maintenanceLive, born)
    }

    /** Open the stretch on a dialed connection: record its credit, then follow its hint. */
    constructor (address: C.Address, tracker: C.AssignmentConvergenceTracker,
                 generation: Generation, interruptions: nat, shutdownStarted: bool, sample: Sample)
      modifies tracker
      ensures this.address == address && this.tracker == tracker
      ensures State() == Open(Opening(generation, interruptions, old(tracker.nextConnection), shutdownStarted, sample))
      ensures tracker.State() == C.AddCredit(old(tracker.State()), address, generation)
    {
      var token := tracker.CarryingCredit(address, generation);
      this.address, this.tracker := address, tracker;
      this.primary := Active(0, generation, token, interruptions, true);
      this.joined, this.candidate, this.failure := None, Idle, None;
      this.shutdownStarted, this.maintenanceLive, this.born := shutdownStarted, true, 1;
      new;
      Reconcile(false, sample);
    }

    /** Bring the candidate in line with what the sample allows and hints. */
    method Reconcile(hasJoined: bool, sample: Sample)
      modifies this`candidate
      ensures candidate == Follow(old(candidate), hasJoined, shutdownStarted, sample)
    {
      var allowed := AllowsCandidates(shutdownStarted, sample);
      var hint := if allowed then sample.hint.generation else None;
      if hint.None? {
        if Target(candidate).Some? {
          candidate := Idle;
        }
        return;
      }
      if Target(candidate) == hint {
        return;
      }
      if Target(candidate).Some? {
        candidate := Idle;
      }
      if hasJoined {
        return;
      }
      candidate := Waiting(hint.value);
    }

    /** Decide what a finished attempt becomes: a second active connection, a retry, or nothing. */
    method Settle(outcome: AttemptOutcome, sample: Sample) returns (next: Option<Active>)
      requires candidate.Warming?
      requires outcome.Connected? ==> outcome.generation == candidate.target
      modifies this`candidate, this`born, tracker
      ensures candidate == AfterAttempt(old(State()), old(candidate.target), outcome, sample)
      ensures next.Some? <==> Joins(old(State()), old(candidate.target), outcome, sample)
      ensures next.Some? ==>
        && next == Some(Active(old(born), outcome.generation, old(tracker.nextConnection), outcome.interruptions, true))
        && tracker.State() == C.AddCredit(old(tracker.State()), address, outcome.generation)
        && born == old(born) + 1
      ensures next.None? ==> tracker.State() == old(tracker.State()) && born == old(born)
    {
      var target := candidate.target;
      candidate := Idle;
      match outcome {
        case Connected(generation, interruptions, _) =>
          if !AllowsCandidates(shutdownStarted, sample) {
            return None;
          }
          if !StillHints(primary, target, sample.hint) {
            candidate := Waiting(target);
            return None;
          }
          var token := tracker.CarryingCredit(address, generation);
          next := Some(Active(born, generation, token, interruptions, true));
          born := born + 1;
        case Retryable =>
          candidate := Waiting(target);
          next := None;
        case FatalLocalMaterial(_) =>
          candidate := Waiting(target);
          next := None;
      }
    }

    /** Note an ended connection's result; only the earliest protocol failure is kept. */
    method KeepProtocolFailure(result: RunResult)
      modifies this`failure
      ensures failure == KeepFailure(old(failure), result)
    {
      if failure.None? {
        match result
        case Ok(_) =>
        case Err(end) =>
          if end.WithdrawalProtocolFailure? {
            failure := Some(end);
          }
      }
    }

    /** One turn of the select loop. A result means the stretch returned. */
    method Turn(input: Input) returns (result: Option<RunResult>)
      requires Enabled(State(), input)
      modifies this, tracker
      ensures
        var o := Step(old(State()), Stamp(input, old(tracker.nextConnection)));
        && (result.None? <==> o.Continue?)
        && (result.None? ==> State() == o.next)
        && (result.Some? ==> result.value == o.result)
        && tracker.State() == W.TrackEffect(old(tracker.State()), address, o.effect)
    {
      result := None;
      match input {
        case PrimaryEnded(ended, sample) =>
          if joined.None? {
            candidate := Idle;
            tracker.Release(address, primary.token);
            return Some(if failure.Some? then Err(failure.value) else ended);
          }
          var next := joined.value;
          joined := None;
          KeepProtocolFailure(ended);
          tracker.Release(address, primary.token);
          primary := next;
          Reconcile(false, sample);
        case JoinedEnded(ended, sample) =>
          tracker.Release(address, joined.value.token);
          joined := None;
          KeepProtocolFailure(ended);
          Reconcile(false, sample);
        case ShutdownObserved =>
          shutdownStarted := true;
          candidate := Idle;
        case MaintenanceClosed =>
          maintenanceLive := false;
        case MaintenanceChanged(intent, sample) =>
          if intent == Retire {
            candidate := Idle;
          } else {
            Reconcile(joined.Some?, sample);
          }
        case HintsClosed =>
          primary := primary.(hintsLive := false);
        case HintChanged(hint, sample) =>
          if hint.interruptions != primary.interruptions {
            primary := primary.(interruptions := hint.interruptions);
            candidate := Idle;
          }
          Reconcile(joined.Some?, sample);
        case DelayElapsed =>
          candidate := Warming(candidate.target);
        case Attempted(outcome, sample) =>
          var next := Settle(outcome, sample);
          if next.Some? {
            joined := next;
          }
      }
    }

    /** Other workers and the controller use the tracker between two turns. */
    method OthersRun()
      modifies tracker
      ensures C.Entries(tracker.State(), address) == old(C.Entries(tracker.State(), address))
      ensures address in tracker.connected <==> old(address in tracker.connected)
    {
      var steps: nat := *;
      while steps > 0
        invariant C.Entries(tracker.State(), address) == old(C.Entries(tracker.State(), address))
        invariant address in tracker.connected <==> old(address in tracker.connected)
      {
        var addresses: seq<C.Address> := *;
        var other: C.Address := *;
        var token: nat := *;
        var generation: Generation := *;
        if {
          case true => var _ := tracker.ReplaceAssigned(addresses);
          case other != address => var _ := tracker.CarryingCredit(other, generation);
          case other != address => tracker.Release(other, token);
          case other != address => var _ := tracker.ObserveConnected(other);
          case other != address => var _ := tracker.ObserveDisconnected(other);
        }
        steps := steps - 1;
      }
    }

    /**
     * Run the loop on a schedule of ready events. It takes exactly the events the schedule calls
     * for and returns when and what that calls for. The history `r`, and then `last` if it returned,
     * is a run of the stretch machine on those events with the tokens they got, and along it the
     * tracker credits the address with its active connections.
     */
    method Run(schedule: seq<Input>, ghost opening: Opening)
      returns (result: Option<RunResult>, ghost r: ConnectedStretch.Run, ghost last: Input)
      requires State() == Open(opening)
      modifies this, tracker
      ensures r.opening == opening
      ensures result.None? ==> W.RunsTo(r, State())
      ensures result.Some? ==> W.ReturnsFrom(r, last, result.value)
      ensures Follows(After(opening, schedule), State(), result, r, last)
      ensures address in tracker.connected <==> old(address in tracker.connected)
      ensures IsRun(r)
      ensures old(C.Entries(tracker.State(), address) == W.CreditOf(W.Running(State()))) ==>
        Credits(r, C.Entries(tracker.State(), address), State(), result)
    {
      r := ConnectedStretch.Run(opening, [], [State()]);
      last := ShutdownObserved;
      result := None;
      FollowsFrom(opening, schedule, r, last);
      ghost var credited := C.Entries(tracker.State(), address) == W.CreditOf(W.Running(State()));
      hide After, Follows, Credits, IsRun, Open, W.RunsTo, W.ReturnsFrom, W.CreditOf, C.Entries;
      var i := 0;
      while i < |schedule| && result.None?
        invariant 0 <= i <= |schedule|
        invariant r.opening == opening && IsRun(r)
        invariant result.None? ==> W.RunsTo(r, State())
        invariant result.Some? ==> W.ReturnsFrom(r, last, result.value)
        invariant Follows(After(opening, schedule[..i]), State(), result, r, last)
        invariant address in tracker.connected <==> old(address in tracker.connected)
        invariant credited ==> Credits(r, C.Entries(tracker.State(), address), State(), result)
      {
        result, r, last := TakeReady(schedule, i, opening, r, last, credited);
        i := i + 1;
      }
      FollowsTo(opening, schedule, i, State(), result, r, last);
    }

    /** One ready event of the schedule, after others used the tracker; a disabled arm does not fire. */
    method TakeReady(schedule: seq<Input>, i: nat, ghost opening: Opening, ghost was: ConnectedStretch.Run, ghost before: Input, ghost credited: bool)
      returns (result: Option<RunResult>, ghost r: ConnectedStretch.Run, ghost last: Input)
      requires i < |schedule| && W.RunsTo(was, State()) && was.opening == opening
      requires Follows(After(opening, schedule[..i]), State(), None, was, before)
      requires credited ==> Credits(was, C.Entries(tracker.State(), address), State(), None)
      modifies this, tracker
      ensures r.opening == opening && IsRun(r)
      ensures result.None? ==> W.RunsTo(r, State())
      ensures result.Some? ==> W.ReturnsFrom(r, last, result.value)
      ensures Follows(After(opening, schedule[..i + 1]), State(), result, r, last)
      ensures address in tracker.connected <==> old(address in tracker.connected)
      ensures credited ==> Credits(r, C.Entries(tracker.State(), address), State(), result)
    {
      hide After, Follows, Credits, IsRun, Step, Enabled, Erased, W.CreditOf, C.Entries;
      OthersRun();
      if !Enabled(State(), schedule[i]) {
        FollowsSkip(opening, schedule, i, State(), was, before);
        return None, was, before;
      }
      ghost var s, t := State(), tracker.State();
      StepErases(s, schedule[i], t.nextConnection);
      last := Stamp(schedule[i], t.nextConnection);
      result := Turn(schedule[i]);
      assert Turned(s, last, State(), result, t, tracker.State(), address);
      r := TurnExtends(was, s, last, State(), result, t, tracker.State(), address);
      FollowsNext(opening, schedule, i, s, t.nextConnection, State(), result, t, tracker.State(), address, was, before, r);
      if credited { TurnCredits(t, tracker.State(), address, s, last, State(), result, was, r); }
    }
  }

  /** What one dial of the primary comes to; an interrupted dial is one the control channels cut short. */
  datatype Dial =
    | Interrupted(exits: bool)
    | DialRetryable
    | DialFatal(message: string)
    | DialConnected(generation: Generation, interruptions: nat)

  /** Everything one turn of the outer loop samples, in order. */
  datatype Round = Round(
    shutdownAtTop: bool, intentAtTop: Intent,
    dial: Dial, intentAfterDial: Intent,
    shutdownStarted: bool, sample: Sample, schedule: seq<Input>,
    shutdownAtClose: bool, intentAtClose: Intent,
    retriesAfterDelay: bool)

  /** What the worker does after a round: start another, stay in its stretch, or finish. */
  datatype Move = Again | StillRunning | Finishes(outcome: Result<(), string>)

  function OpeningOf(round: Round): Opening
    requires round.dial.DialConnected?
  {
    Opening(round.dial.generation, round.dial.interruptions, 0, round.shutdownStarted, round.sample)
  }

  /** The move a round calls for. */
  function MoveAfter(round: Round): Move {
    var retry := if round.retriesAfterDelay then Again else Finishes(Ok(()));
    if round.shutdownAtTop || round.intentAtTop == Retire then Finishes(Ok(()))
    else if round.dial.Interrupted? then (if round.dial.exits then Finishes(Ok(())) else Again)
    else if round.intentAfterDial == Retire then Finishes(Ok(()))
    else
      match round.dial
      case DialFatal(message) => Finishes(Err(message))
      case DialConnected(_, _) =>
        (match After(OpeningOf(round), round.schedule)
         case Live(_, _) => StillRunning
         case Over(result, _) =>
           match W.AfterStretch(result, round.shutdownAtClose, round.intentAtClose)
           case Finished(outcome) => Finishes(outcome)
           case _ => retry)
      case _ => retry
  }

  /** What a worker comes to: it finishes in the first round that does not call for another. */
  function OutcomeOf(rounds: seq<Round>): Move {
    if rounds == [] then Again
    else
      var move := MoveAfter(rounds[0]);
      if move.Again? then OutcomeOf(rounds[1..]) else move
  }

  /** The round got as far as the outcome of its dial. */
  predicate Dialed(round: Round) {
    !round.shutdownAtTop && round.intentAtTop == Maintain && !round.dial.Interrupted? && round.intentAfterDial == Maintain
  }

  /** The stretch of the round returned, and `message` is the first withdrawal protocol failure among the ends it took. */
  ghost predicate FailsFirstWith(round: Round, message: string) {
    && round.dial.DialConnected?
    && After(OpeningOf(round), round.schedule).Over?
    && exists i ::
         && FirstFailure(Ends(After(OpeningOf(round), round.schedule).taken), i)
         && Ends(After(OpeningOf(round), round.schedule).taken)[i] == Err(WithdrawalProtocolFailure(message))
  }

  /**
   * A round fails the worker exactly when its primary dial was fatal, or its stretch returned and
   * some connection in it had ended with a withdrawal protocol failure, and then with the first
   * one's message; a candidate's local material is neither.
   */
  lemma RoundsFailExactly(round: Round, message: string)
    ensures MoveAfter(round) == Finishes(Err(message))
       <==> Dialed(round) && (round.dial == DialFatal(message) || FailsFirstWith(round, message))
  {
    if round.dial.DialConnected? && After(OpeningOf(round), round.schedule).Over? {
      var p := After(OpeningOf(round), round.schedule);
      OverReports(OpeningOf(round), round.schedule);
      if IsProtocolFailure(p.result) {
        var i := FirstFailureExists(Ends(p.taken));
        assert Ends(p.taken)[i] == p.result;
      }
    }
  }

  /** The round's stretch came to an end that calls for another connection. */
  ghost predicate LostConnection(round: Round) {
    && round.dial.DialConnected?
    && After(OpeningOf(round), round.schedule).Over?
    && NoFailure(Ends(After(OpeningOf(round), round.schedule).taken))
    && EndsInError(Ends(After(OpeningOf(round), round.schedule).taken))
    && !round.shutdownAtClose && round.intentAtClose == Maintain
  }

  predicate EndsInError(ends: seq<RunResult>) {
    ends != [] && ends[|ends| - 1].Err?
  }

  /**
   * A round calls for another exactly when its dial was cut short without an exit, or when it got as
   * far as the dial's outcome, retries after the delay, and either that outcome was retryable or the
   * connection was lost while it was still wanted. It leaves the worker in its stretch exactly when
   * the dial connected and the stretch has not returned.
   */
  lemma RoundsRepeatExactly(round: Round)
    ensures MoveAfter(round) == Again <==>
      || (!round.shutdownAtTop && round.intentAtTop == Maintain && round.dial == Interrupted(false))
      || (Dialed(round) && round.retriesAfterDelay && (round.dial.DialRetryable? || LostConnection(round)))
    ensures MoveAfter(round) == StillRunning <==>
      Dialed(round) && round.dial.DialConnected? && After(OpeningOf(round), round.schedule).Live?
  {
    if round.dial.DialConnected? && After(OpeningOf(round), round.schedule).Over? {
      OverReports(OpeningOf(round), round.schedule);
    }
  }

  /** A worker comes to the move of its first round that does not call for another. */
  lemma {:induction false} OutcomeIsFirst(rounds: seq<Round>, i: nat)
    requires i <= |rounds| && forall j :: 0 <= j < i ==> MoveAfter(rounds[j]) == Again
    ensures i == |rounds| ==> OutcomeOf(rounds) == Again
    ensures i < |rounds| && MoveAfter(rounds[i]) != Again ==> OutcomeOf(rounds) == MoveAfter(rounds[i])
    decreases i
  {
    if i > 0 {
      assert forall j :: 0 <= j < i - 1 ==> rounds[1..][j] == rounds[j + 1];
      OutcomeIsFirst(rounds[1..], i - 1);
      if i < |rounds| { assert rounds[1..][i - 1] == rounds[i]; }
    }
  }

  lemma {:induction false} FirstFailureExists(ends: seq<RunResult>) returns (k: int)
    requires !NoFailure(ends)
    ensures FirstFailure(ends, k)
  {
    var n := |ends| - 1;
    if NoFailure(ends[..n]) {
      k := n;
    } else {
      k := FirstFailureExists(ends[..n]);
    }
  }

  /** Announce Connected, run the stretch on the dialed connection, and announce its end. */
  method RunConnected(address: C.Address, tracker: C.AssignmentConvergenceTracker, round: Round)
    returns (result: Option<RunResult>)
    requires round.dial.DialConnected?
    modifies tracker
    ensures
      match After(OpeningOf(round), round.schedule)
      case Live(_, _) => result.None? && address in tracker.connected
      case Over(ended, _) => result == Some(ended) && address !in tracker.connected
  {
    var generation, interruptions := round.dial.generation, round.dial.interruptions;
    var _ := tracker.ObserveConnected(address);
    ghost var opening := Opening(generation, interruptions, tracker.nextConnection, round.shutdownStarted, round.sample);
    var stretch := new ConnectedAddress(address, tracker, generation, interruptions, round.shutdownStarted, round.sample);
    TokenIsNoMatter(opening, 0, round.schedule);
    ghost var r, last;
    result, r, last := stretch.Run(round.schedule, opening);
    if result.Some? {
      var _ := tracker.ObserveDisconnected(address);
    }
  }

  lemma {:induction false} TokenIsNoMatter(opening: Opening, token: nat, schedule: seq<Input>)
    ensures After(opening, schedule) == After(opening.(token := token), schedule)
    decreases |schedule|
  {
    if schedule != [] { TokenIsNoMatter(opening, token, schedule[..|schedule| - 1]); }
  }

  /** One turn of the outer loop. */
  method RunRound(address: C.Address, tracker: C.AssignmentConvergenceTracker, round: Round) returns (move: Move)
    modifies tracker
    ensures move == MoveAfter(round)
    ensures if move.StillRunning? then address in tracker.connected
            else address in tracker.connected ==> old(address in tracker.connected)
  {
    hide After;
    if round.shutdownAtTop || round.intentAtTop == Retire {
      return Finishes(Ok(()));
    }
    if round.dial.Interrupted? {
      return if round.dial.exits then Finishes(Ok(())) else Again;
    }
    if round.intentAfterDial == Retire {
      return Finishes(Ok(()));
    }
    match round.dial {
      case DialFatal(message) =>
        return Finishes(Err(message));
      case DialConnected(_, _) =>
        var result := RunConnected(address, tracker, round);
        if result.None? {
          return StillRunning;
        }
        if IsProtocolFailure(result.value) {
          return Finishes(Err(result.value.error.message));
        }
        if round.shutdownAtClose || round.intentAtClose == Retire || result.value.Ok? {
          return Finishes(Ok(()));
        }
      case _ =>
    }
    move := if round.retriesAfterDelay then Again else Finishes(Ok(()));
  }

  /**
   * Drive one address worker through `rounds`. It comes to exactly what the rounds call for, and
   * its address stays announced exactly while it is in a stretch.
   */
  method RunAddressWorker(address: C.Address, tracker: C.AssignmentConvergenceTracker, rounds: seq<Round>) returns (end: Move)
    modifies tracker
    ensures end == OutcomeOf(rounds)
    ensures if end.StillRunning? then address in tracker.connected
            else address in tracker.connected ==> old(address in tracker.connected)
  {
    for i := 0 to |rounds|
      invariant OutcomeOf(rounds) == OutcomeOf(rounds[i..])
      invariant address in tracker.connected ==> old(address in tracker.connected)
    {
      assert rounds[i..][1..] == rounds[i + 1..];
      var move := RunRound(address, tracker, rounds[i]);
      if !move.Again? {
        return move;
      }
    }
    end := Again;
  }
}
