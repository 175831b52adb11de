/**
 * All address workers of a Managed Client together with the tracker they share.
 *
 * A worker establishes, announces Connected, runs one Connected stretch, announces Disconnected
 * and then reconnects or finishes. Each event below is one lock of the tracker or one step of one
 * stretch, and events of different workers interleave freely.
 */
module WorkerSystem {
  import opened Prelude
  import opened Addresses
  import opened Convergence
  import CS = ConnectedStretch
  import Sorting

  datatype Phase =
    | Establishing
    | Announced(generation: Generation, interruptions: nat)
    | Running(stretch: CS.Stretch)
    | Closing(result: CS.RunResult)
    | Finished(outcome: Result<(), string>)

  /** `issued` counts every credit entry ever recorded. */
  datatype System = System(tracker: Tracker, workers: map<Address, Phase>, issued: nat)

  datatype WorkerEvent =
    /** Shutdown, Retire or a closed control channel seen while establishing or backing off. */
    | GivesUp
    | DialFails(message: string)
    | DialConnects(generation: Generation, interruptions: nat)
    | StretchOpens(shutdownStarted: bool, sample: CS.Sample)
    | StretchSteps(input: CS.Input)
    | StretchCloses(shutdownRequested: bool, intent: CS.Intent)

  datatype Event =
    | Assigned(addresses: seq<Address>)
    | Spawned(address: Address)
    | Worker(address: Address, what: WorkerEvent)

  const INITIAL := System(EMPTY, map[], 0)

  function PhaseOf(s: System, a: Address): Phase {
    if a in s.workers then s.workers[a] else Finished(Ok(()))
  }

  /** Whether the worker of an address reconnects or finishes after a stretch. */
  function AfterStretch(result: CS.RunResult, shutdownRequested: bool, intent: CS.Intent): Phase {
    if CS.IsProtocolFailure(result) then Finished(Err(result.error.message))
    else if shutdownRequested || intent == CS.Retire then Finished(Ok(()))
    else if result.Ok? then Finished(Ok(()))
    else Establishing
  }

  /** A joining connection takes the token the tracker hands out at that moment. */
  predicate TakesNextToken(t: Tracker, input: CS.Input) {
    input.Attempted? && input.outcome.Connected? ==> input.outcome.token == t.nextConnection
  }

  predicate Enabled(s: System, e: Event) {
    match e
    case Assigned(_) => true
    case Spawned(a) => PhaseOf(s, a).Finished?
    case Worker(a, what) =>
      match what
      case GivesUp => PhaseOf(s, a).Establishing?
      case DialFails(_) => PhaseOf(s, a).Establishing?
      case DialConnects(_, _) => PhaseOf(s, a).Establishing?
      case StretchOpens(_, _) => PhaseOf(s, a).Announced?
      case StretchSteps(input) =>
        PhaseOf(s, a).Running? && CS.Enabled(PhaseOf(s, a).stretch, input) && TakesNextToken(s.tracker, input)
      case StretchCloses(_, _) => PhaseOf(s, a).Closing?
  }

  /** What a change of a stretch's active connections does to the tracker. */
  function TrackEffect(t: Tracker, a: Address, effect: CS.Effect): Tracker {
    match effect
    case NoEffect => t
    case Left(who) => DropCredit(t, a, who.token)
    case Entered(who) => AddCredit(t, a, who.generation)
  }

  function Track(s: System, a: Address, effect: CS.Effect): System {
    s.(tracker := TrackEffect(s.tracker, a, effect), issued := s.issued + if effect.Entered? then 1 else 0)
  }

  function Step(s: System, e: Event): System
    requires Enabled(s, e)
  {
    match e
    case Assigned(addresses) => s.(tracker := SetAssigned(s.tracker, addresses))
    case Spawned(a) => s.(workers := s.workers[a := Establishing])
    case Worker(a, what) =>
      match what
      case GivesUp => s.(workers := s.workers[a := Finished(Ok(()))])
      case DialFails(message) => s.(workers := s.workers[a := Finished(Err(message))])
      case DialConnects(generation, interruptions) =>
        s.(tracker := MarkConnected(s.tracker, a), workers := s.workers[a := Announced(generation, interruptions)])
      case StretchOpens(shutdownStarted, sample) =>
        var p := PhaseOf(s, a);
        var opening := CS.Opening(p.generation, p.interruptions, s.tracker.nextConnection, shutdownStarted, sample);
        Track(s, a, CS.Entered(CS.Open(opening).primary)).(workers := s.workers[a := Running(CS.Open(opening))])
      case StretchSteps(input) =>
        (match CS.Step(PhaseOf(s, a).stretch, input)
         case Continue(next, effect) => Track(s, a, effect).(workers := s.workers[a := Running(next)])
         case Return(result, effect) => Track(s, a, effect).(workers := s.workers[a := Closing(result)]))
      case StretchCloses(shutdownRequested, intent) =>
        s.(tracker := MarkDisconnected(s.tracker, a),
           workers := s.workers[a := AfterStretch(PhaseOf(s, a).result, shutdownRequested, intent)])
  }

  datatype Trace = Trace(events: seq<Event>, states: seq<System>)

  ghost predicate IsTrace(t: Trace) {
    && |t.states| == |t.events| + 1
    && t.states[0] == INITIAL
    && forall k :: 0 <= k < |t.events| ==> StepsTo(t.states[k], t.events[k], t.states[k + 1])
  }

  ghost predicate StepsTo(s: System, e: Event, s': System) {
    Enabled(s, e) && Step(s, e) == s'
  }

  // ---------------------------------------------------------------------------------------------
  // Every stretch in the system is a run of the stretch machine
  // ---------------------------------------------------------------------------------------------

  /** A run of the stretch machine that ends in `stretch`. */
  ghost predicate RunsTo(r: CS.Run, stretch: CS.Stretch) {
    CS.IsRun(r) && r.states[|r.inputs|] == stretch
  }

  /** `r` followed by `last` returns `result`. */
  ghost predicate ReturnsFrom(r: CS.Run, last: CS.Input, result: CS.RunResult) {
    && CS.IsRun(r)
    && CS.Enabled(r.states[|r.inputs|], last)
    && CS.Step(r.states[|r.inputs|], last).Return?
    && CS.Step(r.states[|r.inputs|], last).result == result
  }

  lemma ExtendRun(r: CS.Run, input: CS.Input) returns (r': CS.Run)
    requires CS.IsRun(r)
    requires CS.Enabled(r.states[|r.inputs|], input) && CS.Step(r.states[|r.inputs|], input).Continue?
    ensures RunsTo(r', CS.Step(r.states[|r.inputs|], input).next)
    ensures r'.opening == r.opening && r'.inputs == r.inputs + [input] && r.states <= r'.states
  {
    var next := CS.Step(r.states[|r.inputs|], input).next;
    r' := CS.Run(r.opening, r.inputs + [input], r.states + [next]);
    forall k | 0 <= k < |r'.inputs| ensures CS.StepsTo(r'.states[k], r'.inputs[k], r'.states[k + 1]) {
      if k < |r.inputs| { assert CS.StepsTo(r.states[k], r.inputs[k], r.states[k + 1]); }
    }
  }

  /** The stretch a worker opened last: how it opened, and the inputs it was given since. */
  datatype Given = Given(opening: Option<CS.Opening>, inputs: seq<CS.Input>)

  function OpeningOf(s: System, p: Phase, shutdownStarted: bool, sample: CS.Sample): CS.Opening
    requires p.Announced?
  {
    CS.Opening(p.generation, p.interruptions, s.tracker.nextConnection, shutdownStarted, sample)
  }

  /** What the first `k` events of a trace gave to the last stretch of `a`. */
  ghost function GivenTo(t: Trace, k: nat, a: Address): Given
    requires IsTrace(t) && k <= |t.events|
  {
    if k == 0 then Given(None, [])
    else
      var before, e := t.states[k - 1], t.events[k - 1];
      assert StepsTo(before, e, t.states[k]);
      var given := GivenTo(t, k - 1, a);
      if e.Worker? && e.address == a && e.what.StretchOpens? then
        Given(Some(OpeningOf(before, PhaseOf(before, a), e.what.shutdownStarted, e.what.sample)), [])
      else if e.Worker? && e.address == a && e.what.StretchSteps? then given.(inputs := given.inputs + [e.what.input])
      else given
  }

  /** `r` is the run of the stretch machine on these inputs from this opening; there is no other. */
  ghost predicate IsRunOn(r: CS.Run, given: Given) {
    CS.IsRun(r) && given.opening == Some(r.opening) && given.inputs == r.inputs
  }

  /** A returned stretch: a run on all inputs but the last, which makes it return `result`. */
  ghost predicate ReturnsOn(given: Given, result: CS.RunResult) {
    exists r, last :: ReturnsFrom(r, last, result) && given == Given(Some(r.opening), r.inputs + [last])
  }

  /**
   * In any interleaving of all workers, the stretch of a running worker is where the stretch
   * machine gets on exactly the inputs the trace gave it since it opened, and a closing worker
   * holds what the machine returns on them.
   */
  lemma {:induction false} StretchesAreRuns(t: Trace, k: nat, a: Address)
    requires IsTrace(t) && k <= |t.events|
    ensures PhaseOf(t.states[k], a).Running? ==>
      exists r :: IsRunOn(r, GivenTo(t, k, a)) && RunsTo(r, PhaseOf(t.states[k], a).stretch)
    ensures PhaseOf(t.states[k], a).Closing? ==> ReturnsOn(GivenTo(t, k, a), PhaseOf(t.states[k], a).result)
  {
    hide CS.Step, CS.Follow;
    if k > 0 {
      StretchesAreRuns(t, k - 1, a);
      var before, e, after := t.states[k - 1], t.events[k - 1], t.states[k];
      assert StepsTo(before, e, after);
      var given, was := GivenTo(t, k, a), GivenTo(t, k - 1, a);
      if e.Worker? && e.address == a && e.what.StretchOpens? {
        var r := CS.Run(given.opening.value, [], [CS.Open(given.opening.value)]);
        assert IsRunOn(r, given) && RunsTo(r, PhaseOf(after, a).stretch);
      } else if e.Worker? && e.address == a && e.what.StretchSteps? {
        var r :| IsRunOn(r, was) && RunsTo(r, PhaseOf(before, a).stretch);
        StretchGoesOn(r, was, e.what.input);
      } else {
        assert PhaseOf(after, a) == PhaseOf(before, a) || (!PhaseOf(after, a).Running? && !PhaseOf(after, a).Closing?);
      }
    }
  }

  lemma StretchGoesOn(r: CS.Run, was: Given, input: CS.Input)
    requires IsRunOn(r, was) && CS.Enabled(r.states[|r.inputs|], input)
    ensures
      var given, o := was.(inputs := was.inputs + [input]), CS.Step(r.states[|r.inputs|], input);
      if o.Continue? then exists r' :: IsRunOn(r', given) && RunsTo(r', o.next) else ReturnsOn(given, o.result)
  {
    var given := was.(inputs := was.inputs + [input]);
    if CS.Step(r.states[|r.inputs|], input).Continue? {
      var r' := ExtendRun(r, input);
      assert IsRunOn(r', given);
    } else {
      assert ReturnsFrom(r, input, CS.Step(r.states[|r.inputs|], input).result);
    }
  }

  /**
   * Every connection that carries credit in a trace is the one its worker dialed for this stretch,
   * or joined at one of the inputs the trace gave the stretch, with every joining condition met.
   */
  lemma CreditedWereAdmitted(t: Trace, k: nat, a: Address, who: CS.Active)
    requires IsTrace(t) && k <= |t.events| && who in Carriers(PhaseOf(t.states[k], a))
    ensures exists r :: IsRunOn(r, GivenTo(t, k, a)) && Admitted(r, who)
  {
    StretchesAreRuns(t, k, a);
    var r :| IsRunOn(r, GivenTo(t, k, a)) && RunsTo(r, PhaseOf(t.states[k], a).stretch);
    CS.CarriersWereAdmitted(r, |r.inputs|, who);
    assert Admitted(r, who);
  }

  ghost predicate Admitted(r: CS.Run, who: CS.Active)
    requires CS.IsRun(r)
  {
    || (who.id == 0 && who.generation == r.opening.generation)
    || exists j :: 0 <= j < |r.inputs| && CS.JoinsAt(r, j, who)
  }

  // ---------------------------------------------------------------------------------------------
  // The tracker agrees with what the workers run
  // ---------------------------------------------------------------------------------------------

  function EntryOf(who: CS.Active): Entry {
    Entry(who.token, who.generation)
  }

  /** The connections of a worker that carry credit, oldest first. */
  function Carriers(p: Phase): seq<CS.Active> {
    if p.Running? then CS.Actives(p.stretch) else []
  }

  function CreditOf(p: Phase): seq<Entry> {
    var carriers := Carriers(p);
    seq(|carriers|, i requires 0 <= i < |carriers| => EntryOf(carriers[i]))
  }

  predicate IsConnected(p: Phase) {
    p.Announced? || p.Running? || p.Closing?
  }

  ghost predicate AgreesOn(s: System, a: Address) {
    && Entries(s.tracker, a) == CreditOf(PhaseOf(s, a))
    && (PhaseOf(s, a).Running? ==> CS.Inv(PhaseOf(s, a).stretch))
  }

  /** For every address, the credit entries are those of its active connections. */
  ghost predicate Inv(s: System) {
    forall a: Address :: AgreesOn(s, a)
  }

  /** The event ends a connection of `a` while another one carries credit under the same token. */
  ghost predicate EndsShared(s: System, e: Event) {
    && e.Worker? && e.what.StretchSteps? && (e.what.input.PrimaryEnded? || e.what.input.JoinedEnded?)
    && PhaseOf(s, e.address).Running?
    && PhaseOf(s, e.address).stretch.joined.Some?
    && PhaseOf(s, e.address).stretch.joined.value.token == PhaseOf(s, e.address).stretch.primary.token
  }

  /** The entries of a running worker, one by one. */
  lemma EntriesListed(s: System, a: Address)
    requires AgreesOn(s, a) && PhaseOf(s, a).Running?
    ensures
      var stretch := PhaseOf(s, a).stretch;
      Entries(s.tracker, a) == [EntryOf(stretch.primary)] + (if stretch.joined.Some? then [EntryOf(stretch.joined.value)] else [])
  {
  }

  /** The end of a connection whose token no other one carries removes exactly its entry. */
  lemma EndAgrees(s: System, a: Address, input: CS.Input)
    requires AgreesOn(s, a) && Enabled(s, Worker(a, StretchSteps(input)))
    requires input.PrimaryEnded? || input.JoinedEnded?
    requires !EndsShared(s, Worker(a, StretchSteps(input)))
    ensures AgreesOn(Step(s, Worker(a, StretchSteps(input))), a)
  {
    EntriesListed(s, a);
    DropUnshared(Entries(s.tracker, a), if input.PrimaryEnded? then 0 else 1);
  }

  lemma BothGo(first: Entry, second: Entry)
    requires first.token == second.token
    ensures Without([first, second], first.token) == []
  {
    var tail := [first, second][1..];
    assert tail == [second] && tail[1..] == [];
    assert Without(tail, first.token) == [];
  }

  /** The end of one of two connections that share a token leaves the other without credit. */
  lemma SharedEndDisagrees(s: System, e: Event)
    requires Enabled(s, e) && EndsShared(s, e) && AgreesOn(s, e.address)
    ensures Entries(Step(s, e).tracker, e.address) == []
    ensures |Carriers(PhaseOf(Step(s, e), e.address))| == 1
  {
    EntriesListed(s, e.address);
    var entries := Entries(s.tracker, e.address);
    assert entries == [entries[0], entries[1]] && entries[0].token == entries[1].token;
    BothGo(entries[0], entries[1]);
  }

  /** A stretch step changes the credit entries exactly as the tracker is told. */
  lemma StretchStepAgrees(s: System, a: Address, input: CS.Input)
    requires AgreesOn(s, a) && Enabled(s, Worker(a, StretchSteps(input)))
    requires !EndsShared(s, Worker(a, StretchSteps(input)))
    ensures AgreesOn(Step(s, Worker(a, StretchSteps(input))), a)
  {
    if input.PrimaryEnded? || input.JoinedEnded? {
      EndAgrees(s, a, input);
    } else {
      EntriesListed(s, a);
    }
  }

  /** A step of one worker leaves every other address alone. */
  lemma OthersAgree(s: System, e: Event, b: Address)
    requires Inv(s) && Enabled(s, e)
    requires !e.Assigned? ==> e.address != b
    ensures AgreesOn(Step(s, e), b)
  {
    assert AgreesOn(s, b);
    assert PhaseOf(Step(s, e), b) == PhaseOf(s, b);
  }

  lemma OwnStepAgrees(s: System, e: Event)
    requires Inv(s) && Enabled(s, e) && !EndsShared(s, e)
    requires !e.Assigned?
    ensures AgreesOn(Step(s, e), e.address)
  {
    assert AgreesOn(s, e.address);
    if e.Worker? && e.what.StretchSteps? {
      StretchStepAgrees(s, e.address, e.what.input);
    }
  }

  lemma StepKeepsInv(s: System, e: Event)
    requires Inv(s) && Enabled(s, e) && !EndsShared(s, e)
    ensures Inv(Step(s, e))
  {
    forall a: Address ensures AgreesOn(Step(s, e), a) {
      if !e.Assigned? && e.address == a {
        OwnStepAgrees(s, e);
      } else {
        OthersAgree(s, e, a);
      }
    }
  }

  /** Until state `k` no connection ended while another of its address carried the same token. */
  ghost predicate NoSharedEnds(t: Trace, k: nat)
    requires IsTrace(t) && k <= |t.events|
  {
    forall j :: 0 <= j < k ==> !EndsShared(t.states[j], t.events[j])
  }

  lemma {:induction false} TraceKeepsInv(t: Trace, k: nat)
    requires IsTrace(t) && k <= |t.events| && NoSharedEnds(t, k)
    ensures Inv(t.states[k])
  {
    if k > 0 {
      TraceKeepsInv(t, k - 1);
      assert StepsTo(t.states[k - 1], t.events[k - 1], t.states[k]);
      StepKeepsInv(t.states[k - 1], t.events[k - 1]);
    }
  }

  function GenerationsOf(carriers: seq<CS.Active>): seq<Generation> {
    seq(|carriers|, i requires 0 <= i < |carriers| => carriers[i].generation)
  }

  /** In state `k` every address is credited with exactly the generations of its active connections. */
  ghost predicate CreditIsExact(s: System) {
    forall a: Address :: multiset(Generations(Entries(s.tracker, a))) == multiset(GenerationsOf(Carriers(PhaseOf(s, a))))
  }

  /**
   * The exact condition, over all traces: credit is exact in every state up to `k` if and only if
   * until then no connection ended while another of its address carried the same token.
   */
  lemma CreditIsExactExactly(t: Trace, k: nat)
    requires IsTrace(t) && k <= |t.events|
    ensures (forall i :: 0 <= i <= k ==> CreditIsExact(t.states[i])) <==> NoSharedEnds(t, k)
  {
    if NoSharedEnds(t, k) {
      forall i | 0 <= i <= k ensures CreditIsExact(t.states[i]) {
        TraceKeepsInv(t, i);
        InvCredits(t.states[i]);
      }
    } else {
      var j := FirstSharedEnd(t, k);
      TraceKeepsInv(t, j);
      assert StepsTo(t.states[j], t.events[j], t.states[j + 1]);
      assert AgreesOn(t.states[j], t.events[j].address);
      SharedEndIsInexact(t.states[j], t.events[j]);
    }
  }

  lemma SharedEndIsInexact(s: System, e: Event)
    requires Enabled(s, e) && EndsShared(s, e) && AgreesOn(s, e.address)
    ensures !CreditIsExact(Step(s, e))
  {
    SharedEndDisagrees(s, e);
    var s', a := Step(s, e), e.address;
    assert |Generations(Entries(s'.tracker, a))| == 0 && |GenerationsOf(Carriers(PhaseOf(s', a)))| == 1;
    assert |multiset(Generations(Entries(s'.tracker, a)))| == 0 && |multiset(GenerationsOf(Carriers(PhaseOf(s', a))))| == 1;
  }

  lemma InvCredits(s: System)
    requires Inv(s)
    ensures CreditIsExact(s)
  {
    forall a: Address ensures Generations(Entries(s.tracker, a)) == GenerationsOf(Carriers(PhaseOf(s, a))) {
      assert AgreesOn(s, a);
      CreditedGenerations(PhaseOf(s, a));
    }
  }

  lemma {:induction false} FirstSharedEnd(t: Trace, k: nat) returns (j: nat)
    requires IsTrace(t) && k <= |t.events| && !NoSharedEnds(t, k)
    ensures j < k && EndsShared(t.states[j], t.events[j]) && NoSharedEnds(t, j)
  {
    if NoSharedEnds(t, k - 1) {
      j := k - 1;
    } else {
      j := FirstSharedEnd(t, k - 1);
    }
  }

  /** The worker of `a` carries credit under the tokens 0 to `issued`, the joined one's after the primary's. */
  ghost predicate TokensInOrder(s: System, a: Address) {
    PhaseOf(s, a).Running? ==>
      var stretch := PhaseOf(s, a).stretch;
      && stretch.primary.token < s.issued
      && (stretch.joined.Some? ==> stretch.primary.token < stretch.joined.value.token < s.issued)
  }

  /** A step of a stretch keeps the tokens it has, and a joining connection brings one. */
  lemma StretchTokens(stretch: CS.Stretch, input: CS.Input)
    requires CS.Enabled(stretch, input) && CS.Step(stretch, input).Continue?
    ensures
      var o := CS.Step(stretch, input);
      && (o.next.primary.token == stretch.primary.token
          || (stretch.joined.Some? && o.next.primary.token == stretch.joined.value.token && o.next.joined.None?))
      && (o.next.joined.Some? ==> o.next.primary.token == stretch.primary.token)
      && (if o.effect.Entered? then
            input.Attempted? && input.outcome.Connected? && o.next.joined.Some? && o.next.joined.value.token == input.outcome.token
          else o.next.joined.Some? ==> o.next.joined == stretch.joined)
  {
    hide CS.Follow, CS.AfterAttempt, CS.KeepFailure;
  }

  lemma StepKeepsTokens(s: System, e: Event, a: Address)
    requires Enabled(s, e) && TokensInOrder(s, a)
    requires s.tracker.nextConnection == s.issued < U64_LIMIT || Step(s, e).issued == s.issued
    ensures TokensInOrder(Step(s, e), a)
  {
    hide CS.Follow, CS.Step, CS.Enabled;
    if e.Worker? && e.address == a && e.what.StretchSteps? {
      var stretch, input := PhaseOf(s, a).stretch, e.what.input;
      if CS.Step(stretch, input).Continue? { StretchTokens(stretch, input); }
    } else if !(e.Worker? && e.address == a && e.what.StretchOpens?) {
      assert PhaseOf(Step(s, e), a) == PhaseOf(s, a) || !PhaseOf(Step(s, e), a).Running?;
    }
  }

  lemma CountsOnlyCredit(t: Tracker)
    ensures forall addresses :: SetAssigned(t, addresses).nextConnection == t.nextConnection
    ensures forall a :: MarkConnected(t, a).nextConnection == t.nextConnection
    ensures forall a :: MarkDisconnected(t, a).nextConnection == t.nextConnection
    ensures forall a, token :: DropCredit(t, a, token).nextConnection == t.nextConnection
    ensures forall a, g :: AddCredit(t, a, g).nextConnection == (t.nextConnection + 1) % U64_LIMIT
  {
  }

  lemma StepCountsTokens(s: System, e: Event)
    requires Enabled(s, e) && s.tracker.nextConnection == s.issued % U64_LIMIT
    ensures s.issued <= Step(s, e).issued <= s.issued + 1
    ensures Step(s, e).tracker.nextConnection == Step(s, e).issued % U64_LIMIT
  {
    hide CS.Follow, CS.Step, CS.Enabled, SetAssigned, MarkConnected, MarkDisconnected, DropCredit, AddCredit;
    CountsOnlyCredit(s.tracker);
  }

  lemma StepInOrder(s: System, e: Event, a: Address)
    requires Enabled(s, e) && TokensInOrder(s, a)
    requires s.tracker.nextConnection == s.issued % U64_LIMIT && Step(s, e).issued <= U64_LIMIT
    ensures Step(s, e).tracker.nextConnection == Step(s, e).issued % U64_LIMIT
    ensures TokensInOrder(Step(s, e), a)
  {
    hide Step, Enabled, TokensInOrder;
    StepCountsTokens(s, e);
    StepKeepsTokens(s, e, a);
  }

  /** Until the token counter wraps, tokens are handed out in order. */
  lemma {:induction false} TokensComeInOrder(t: Trace, k: nat, a: Address)
    requires IsTrace(t) && k <= |t.events|
    requires t.states[k].issued <= U64_LIMIT
    ensures t.states[k].tracker.nextConnection == t.states[k].issued % U64_LIMIT
    ensures TokensInOrder(t.states[k], a)
  {
    if k > 0 {
      assert StepsTo(t.states[k - 1], t.events[k - 1], t.states[k]);
      hide Step, Enabled;
      IssuedGrows(t, k - 1, k);
      TokensComeInOrder(t, k - 1, a);
      StepInOrder(t.states[k - 1], t.events[k - 1], a);
    }
  }

  lemma {:induction false} IssuedGrows(t: Trace, j: nat, k: nat)
    requires IsTrace(t) && j <= k <= |t.events|
    ensures t.states[j].issued <= t.states[k].issued
    decreases k
  {
    if j < k {
      IssuedGrows(t, j, k - 1);
      assert StepsTo(t.states[k - 1], t.events[k - 1], t.states[k]);
    }
  }

  /** Before more than 2^64 credit entries were recorded, no two connections of an address share a token. */
  lemma NoSharedEndsBeforeWrap(t: Trace, k: nat)
    requires IsTrace(t) && k <= |t.events|
    requires t.states[k].issued <= U64_LIMIT
    ensures NoSharedEnds(t, k)
  {
    forall j | 0 <= j < k ensures !EndsShared(t.states[j], t.events[j]) {
      IssuedGrows(t, j, k);
      if t.events[j].Worker? { TokensComeInOrder(t, j, t.events[j].address); }
    }
  }

  // ---------------------------------------------------------------------------------------------
  // A trace in which credit goes wrong
  // ---------------------------------------------------------------------------------------------

  /** A state some trace gets to. */
  ghost predicate Reached(s: System) {
    exists t: Trace :: IsTrace(t) && t.states[|t.events|] == s
  }

  lemma StartIsReached()
    ensures Reached(INITIAL)
  {
    assert IsTrace(Trace([], [INITIAL]));
  }

  lemma StepReaches(s: System, e: Event)
    requires Reached(s) && Enabled(s, e)
    ensures Reached(Step(s, e))
  {
    var t: Trace :| IsTrace(t) && t.states[|t.events|] == s;
    var longer := Trace(t.events + [e], t.states + [Step(s, e)]);
    forall k | 0 <= k < |longer.events| ensures StepsTo(longer.states[k], longer.events[k], longer.states[k + 1]) {
      if k < |t.events| { assert StepsTo(t.states[k], t.events[k], t.states[k + 1]); }
    }
    assert IsTrace(longer);
  }

  const OLD: Generation := "old"
  const NEWER: Generation := "new"
  const HINTED := CS.Sample(false, CS.Maintain, CS.ReplacementHint(Some(NEWER), 0, false))

  /** A stretch on token 0 that is warming a candidate. */
  const WARMING := CS.Stretch(CS.Active(0, OLD, 0, 0, true), None, CS.Warming(NEWER), None, false, true, 1)

  /** The worker of `a` is warming a candidate, and `n` stretches of `b` came and went meanwhile. */
  function Meanwhile(a: Address, b: Address, n: nat): System
    requires a != b
  {
    System(
      Tracker({}, {a}, map[a := [Entry(0, OLD)]], (n + 1) % U64_LIMIT),
      map[a := Running(WARMING), b := Finished(Ok(()))],
      n + 1)
  }

  lemma FirstCredit(t: Tracker, a: Address, generation: Generation)
    requires a !in t.carrying
    ensures AddCredit(t, a, generation) ==
      t.(carrying := t.carrying[a := [Entry(t.nextConnection, generation)]], nextConnection := (t.nextConnection + 1) % U64_LIMIT)
  {
    assert [] + [Entry(t.nextConnection, generation)] == [Entry(t.nextConnection, generation)];
  }

  /** The worker of `a` opens a stretch whose hint calls for a candidate. */
  lemma WaitingIsReached(a: Address) returns (s: System)
    ensures Reached(s) && s.issued == 1
    ensures s.tracker == Tracker({}, {a}, map[a := [Entry(0, OLD)]], 1)
    ensures s.workers == map[a := Running(WARMING.(candidate := CS.Waiting(NEWER)))]
  {
    hide Reached;
    StartIsReached();
    var s0 := Walk(INITIAL, Spawned(a));
    var s1 := Walk(s0, Worker(a, DialConnects(OLD, 0)));
    FirstCredit(s1.tracker, a, OLD);
    s := Walk(s1, Worker(a, StretchOpens(false, HINTED)));
    assert s.tracker == Tracker({}, {a}, map[a := [Entry(0, OLD)]], 1);
  }

  lemma WarmingIsReached(a: Address, b: Address)
    requires a != b
    ensures Reached(Meanwhile(a, b, 0))
  {
    hide Reached, AddCredit, DropCredit;
    var s2 := WaitingIsReached(a);
    var s3 := Walk(s2, Worker(a, StretchSteps(CS.DelayElapsed)));
    var s4 := Walk(s3, Spawned(b));
    var s5 := Walk(s4, Worker(b, GivesUp));
    assert s5.workers == Meanwhile(a, b, 0).workers;
  }

  lemma Walk(s: System, e: Event) returns (s': System)
    requires Reached(s) && Enabled(s, e)
    ensures Reached(s') && s' == Step(s, e)
  {
    StepReaches(s, e);
    s' := Step(s, e);
  }

  const QUIET := CS.Sample(false, CS.Maintain, CS.ReplacementHint(None, 0, false))

  lemma NextToken(n: nat)
    ensures ((n + 1) % U64_LIMIT + 1) % U64_LIMIT == (n + 2) % U64_LIMIT
  {
  }

  lemma AnnouncedIsReached(a: Address, b: Address, n: nat) returns (s': System)
    requires a != b && Reached(Meanwhile(a, b, n))
    ensures Reached(s') && s'.issued == n + 1
    ensures s'.tracker == Meanwhile(a, b, n).tracker.(connected := {a, b})
    ensures s'.workers == map[a := Running(WARMING), b := Announced(OLD, 0)]
  {
    hide Reached;
    var s0 := Walk(Meanwhile(a, b, n), Spawned(b));
    s' := Walk(s0, Worker(b, DialConnects(OLD, 0)));
  }

  /** Opening a stretch of `b` takes the next token. */
  lemma OpensStretch(a: Address, b: Address, n: nat) returns (s': System)
    requires a != b && Reached(Meanwhile(a, b, n))
    ensures Reached(s') && s'.issued == n + 2
    ensures s'.tracker ==
      Tracker({}, {a, b}, map[a := [Entry(0, OLD)], b := [Entry((n + 1) % U64_LIMIT, OLD)]], (n + 2) % U64_LIMIT)
    ensures s'.workers ==
      map[a := Running(WARMING), b := Running(CS.Open(CS.Opening(OLD, 0, (n + 1) % U64_LIMIT, false, QUIET)))]
  {
    hide Reached, AddCredit, DropCredit;
    var s1 := AnnouncedIsReached(a, b, n);
    FirstCredit(s1.tracker, b, OLD);
    NextToken(n);
    s' := Walk(s1, Worker(b, StretchOpens(false, QUIET)));
    assert s'.tracker.carrying == map[a := [Entry(0, OLD)], b := [Entry((n + 1) % U64_LIMIT, OLD)]];
  }

  /** A stretch of `b` that opens and ends uses up one token and leaves no other mark. */
  lemma OneMoreStretch(a: Address, b: Address, n: nat)
    requires a != b && Reached(Meanwhile(a, b, n))
    ensures Reached(Meanwhile(a, b, n + 1))
  {
    hide Reached;
    var s2 := OpensStretch(a, b, n);
    var entry := Entry((n + 1) % U64_LIMIT, OLD);
    var s3 := Walk(s2, Worker(b, StretchSteps(CS.PrimaryEnded(Ok(()), QUIET))));
    assert Entries(s2.tracker, b) == [entry] && [entry][1..] == [];
    assert Without([entry], entry.token) == [];
    assert s3.tracker.carrying == map[a := [Entry(0, OLD)]];
    var s4 := Walk(s3, Worker(b, StretchCloses(false, CS.Maintain)));
    assert s4.tracker == Meanwhile(a, b, n + 1).tracker;
    assert s4.workers == Meanwhile(a, b, n + 1).workers;
  }

  lemma {:induction false} TokensRunOut(a: Address, b: Address, n: nat)
    requires a != b
    ensures Reached(Meanwhile(a, b, n))
    decreases n
  {
    if n == 0 {
      WarmingIsReached(a, b);
    } else {
      TokensRunOut(a, b, n - 1);
      OneMoreStretch(a, b, n - 1);
    }
  }

  /**
   * Credit does go wrong once the tokens are used up, with the first entry past 2^64: the candidate
   * of `a` joins under its primary's token, and the end of the primary takes both entries.
   */
  lemma CreditCanGoWrong(a: Address, b: Address)
    requires a != b
    ensures exists s :: Reached(s) && s.issued == U64_LIMIT + 1 && !CreditIsExact(s)
  {
    hide Reached;
    var n := U64_LIMIT - 1;
    TokensRunOut(a, b, n);
    var s0 := Meanwhile(a, b, n);
    var s1 := Walk(s0, Worker(a, StretchSteps(CS.Attempted(CS.Connected(NEWER, 0, 0), HINTED))));
    var e := Worker(a, StretchSteps(CS.PrimaryEnded(Ok(()), HINTED)));
    assert s1.issued == U64_LIMIT + 1;
    assert PhaseOf(s1, a).Running? && Entries(s1.tracker, a) == [Entry(0, OLD), Entry(0, NEWER)];
    assert AgreesOn(s1, a);
    var s2 := Walk(s1, e);
    SharedEndIsInexact(s1, e);
  }

  /**
   * As long as no connection ended while another of its address carried the same token, and so in
   * particular before the token counter wraps, the report lists for each assigned address exactly
   * the sorted generations of that address's active connections.
   */
  lemma ReportIsExact(t: Trace, k: nat, a: Address, listing: seq<Generation>)
    requires IsTrace(t) && k <= |t.events|
    requires NoSharedEnds(t, k) || t.states[k].issued <= U64_LIMIT
    requires a in t.states[k].tracker.assignment
    ensures Render(a) in Reported(t.states[k].tracker)
    ensures listing == Reported(t.states[k].tracker)[Render(a)]
       <==> Sorting.Sorted(listing) && multiset(listing) == multiset(GenerationsOf(Carriers(PhaseOf(t.states[k], a))))
  {
    hide Reported;
    hide Sorting.Sorted;
    var s := t.states[k];
    if t.states[k].issued <= U64_LIMIT { NoSharedEndsBeforeWrap(t, k); }
    TraceKeepsInv(t, k);
    assert AgreesOn(s, a);
    ReportedListing(s.tracker, a, listing);
    CreditedGenerations(PhaseOf(s, a));
  }

  lemma CreditedGenerations(p: Phase)
    ensures Generations(CreditOf(p)) == GenerationsOf(Carriers(p))
  {
  }

  /** Every address is marked connected exactly while its worker has announced it. */
  lemma {:induction false} ConnectedIsAnnounced(t: Trace, k: nat, a: Address)
    requires IsTrace(t) && k <= |t.events|
    ensures a in t.states[k].tracker.connected <==> IsConnected(PhaseOf(t.states[k], a))
  {
    if k > 0 {
      assert StepsTo(t.states[k - 1], t.events[k - 1], t.states[k]);
      ConnectedIsAnnounced(t, k - 1, a);
    }
  }

  /**
   * In every reachable state the convergence status is the one the workers' phases call for: an
   * address counts as connected from its worker announcing Connected until it announces the end.
   */
  lemma ConvergenceIsExact(t: Trace, k: nat)
    requires IsTrace(t) && k <= |t.events|
    ensures
      var s := t.states[k];
      && (Current(s.tracker) == Converged <==>
            forall a :: a in s.tracker.assignment ==> IsConnected(PhaseOf(s, a)))
      && (Current(s.tracker) == Unconverged <==>
            s.tracker.assignment != {} && forall a :: a in s.tracker.assignment ==> !IsConnected(PhaseOf(s, a)))
  {
    var s := t.states[k];
    forall a: Address ensures a in s.tracker.connected <==> IsConnected(PhaseOf(s, a)) {
      ConnectedIsAnnounced(t, k, a);
    }
    StatusMeansSets(s.tracker, Converged);
    StatusMeansSets(s.tracker, Unconverged);
  }

  // ---------------------------------------------------------------------------------------------
  // How a worker fails
  // ---------------------------------------------------------------------------------------------

  /** Event `j` ended the worker of `a` with `message`: a fatal primary dial, or a stretch whose first withdrawal protocol failure it is. */
  ghost predicate FailsAt(t: Trace, j: nat, a: Address, message: string)
    requires IsTrace(t) && j < |t.events|
  {
    || t.events[j] == Worker(a, DialFails(message))
    || (&& t.events[j].Worker? && t.events[j].address == a && t.events[j].what.StretchCloses?
        && PhaseOf(t.states[j], a) == Closing(Err(CS.WithdrawalProtocolFailure(message))))
  }

  /** A worker that failed did so at one of those two points; a candidate's failure is neither. */
  lemma {:induction false} WhyWorkersFail(t: Trace, k: nat, a: Address, message: string)
    requires IsTrace(t) && k <= |t.events|
    requires PhaseOf(t.states[k], a) == Finished(Err(message))
    ensures exists j :: 0 <= j < k && FailsAt(t, j, a, message)
  {
    assert k > 0;
    assert StepsTo(t.states[k - 1], t.events[k - 1], t.states[k]);
    if PhaseOf(t.states[k - 1], a) == Finished(Err(message)) && !FailsAt(t, k - 1, a, message) {
      WhyWorkersFail(t, k - 1, a, message);
    } else {
      assert FailsAt(t, k - 1, a, message);
    }
  }

  /**
   * A stretch to which the trace gave some connection's end with a withdrawal protocol failure
   * fails its worker with the first such failure, whatever the intent and shutdown state; any other
   * stretch does not fail it.
   */
  lemma ProtocolFailureFailsTheWorker(t: Trace, k: nat, a: Address)
    requires IsTrace(t) && k < |t.events|
    requires t.events[k].Worker? && t.events[k].address == a && t.events[k].what.StretchCloses?
    ensures
      var ends, after := CS.Ends(GivenTo(t, k, a).inputs), PhaseOf(t.states[k + 1], a);
      && (CS.NoFailure(ends) <==> !(after.Finished? && after.outcome.Err?))
      && forall i :: CS.FirstFailure(ends, i) ==> after == Finished(Err(ends[i].error.message))
  {
    assert StepsTo(t.states[k], t.events[k], t.states[k + 1]);
    StretchesAreRuns(t, k, a);
    ReturnedReports(GivenTo(t, k, a), PhaseOf(t.states[k], a).result);
  }

  /**
   * After a stretch the worker reconnects exactly when no withdrawal protocol failure was among the
   * ends the trace gave it, the last of them was an error, the intent is Maintain and no shutdown
   * was requested; without such a failure it otherwise finishes without error.
   */
  lemma ReconnectsExactly(t: Trace, k: nat, a: Address)
    requires IsTrace(t) && k < |t.events|
    requires t.events[k].Worker? && t.events[k].address == a && t.events[k].what.StretchCloses?
    ensures
      var ends, what, after := CS.Ends(GivenTo(t, k, a).inputs), t.events[k].what, PhaseOf(t.states[k + 1], a);
      && ends != []
      && (after == Establishing <==>
            CS.NoFailure(ends) && ends[|ends| - 1].Err? && !what.shutdownRequested && what.intent == CS.Maintain)
      && (CS.NoFailure(ends) && after != Establishing ==> after == Finished(Ok(())))
  {
    assert StepsTo(t.states[k], t.events[k], t.states[k + 1]);
    StretchesAreRuns(t, k, a);
    ReturnedReports(GivenTo(t, k, a), PhaseOf(t.states[k], a).result);
  }

  /** What a stretch returns is the first failure among the ends it was given, or the last end. */
  lemma ReturnedReports(given: Given, result: CS.RunResult)
    requires ReturnsOn(given, result)
    ensures CS.ReportsFirstFailure(result, CS.Ends(given.inputs))
  {
    var r, last :| ReturnsFrom(r, last, result) && given == Given(Some(r.opening), r.inputs + [last]);
    CS.ReturnsFirstFailure(r, last);
  }
}
