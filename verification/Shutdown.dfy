/**
 * Orderly shutdown: a lock-free mode, a write-once start time and a notify.
 *
 * The machine below takes one atomic step at a time (a load, a start-time write, a
 * compare-and-swap, a notify, the creation of a waiter's notification, a mode check) for any
 * number of callers and waiters in any interleaving. A notification created before
 * `notify_waiters` is woken by it. Besides plain requests there are internal stops, which read
 * the mode and request Fast only if they read none.
 */
module Shutdown {
  import opened Prelude

  datatype Mode = Graceful | Fast

  datatype Transition = Started(mode: Mode) | EscalatedToFast | AlreadyStarted(mode: Mode)

  /** The number stored for a mode; 0 means shutdown has not started. */
  function Level(mode: Mode): nat {
    match mode case Graceful => 1 case Fast => 2
  }

  function ModeAt(level: nat): Option<Mode> {
    if level == 0 then None else if level == 1 then Some(Graceful) else Some(Fast)
  }

  /** The sequential meaning of a request: the mode it leaves and what it returns. */
  function Begin(mode: Option<Mode>, request: Mode): (Option<Mode>, Transition) {
    match mode
    case None => (Some(request), Started(request))
    case Some(Fast) => (mode, AlreadyStarted(Fast))
    case Some(Graceful) =>
      if request == Fast then (Some(Fast), EscalatedToFast) else (mode, AlreadyStarted(Graceful))
  }

  // ---------------------------------------------------------------------------------------------
  // The machine
  // ---------------------------------------------------------------------------------------------

  /**
   * Where a caller stands; `since` is how many operations had taken effect when it was called, and
   * `read` how many had when it read the mode, if it is an internal stop. An internal stop that has
   * not read the mode yet is `Peeking`.
   */
  datatype Caller =
    | Peeking(since: nat)
    | Loading(request: Mode, since: nat, retries: nat, read: Option<nat>)
    | Stamping(request: Mode, since: nat, retries: nat, read: Option<nat>)
    | Swapping(request: Mode, since: nat, retries: nat, current: nat, read: Option<nat>)
    | Notifying(request: Mode, since: nat, current: nat, at: nat)

  datatype Wish = ForStart | ForFast

  /** Where a waiter stands; `woken` says whether its notification has been notified. */
  datatype Waiter =
    | Checking(wish: Wish, woken: bool)
    | Parked(wish: Wish, woken: bool)

  /** A request taking effect, with the response it will return. */
  datatype Op = Op(caller: nat, request: Mode, response: Transition)

  /** A finished call: called when `since` operations had taken effect, returned when `until` had; its own was number `at`. */
  datatype Done = Done(op: Op, since: nat, at: nat, until: nat)

  /** An internal stop that has read the mode: it then declined, or its request was operation `at`. */
  datatype Stop = Declined(caller: nat, readAt: nat) | Acted(caller: nat, readAt: nat, at: nat)

  /** `history`, `done` and `stops` are history variables; the rest is the shared and local state. */
  datatype Machine = Machine(
    level: nat,
    startedAt: Option<int>,
    callers: map<nat, Caller>,
    waiters: map<nat, Waiter>,
    history: seq<Op>,
    done: seq<Done>,
    stops: seq<Stop>)

  const INITIAL := Machine(0, None, map[], map[], [], [], [])

  datatype Action =
    | Call(caller: nat, request: Mode)
    | CallStop(caller: nat)
    | Peek(caller: nat)
    | Load(caller: nat)
    | Stamp(caller: nat, now: int)
    | Swap(caller: nat)
    | Notify(caller: nat)
    | Wait(waiter: nat, wish: Wish)
    | Check(waiter: nat)
    | Resume(waiter: nat)

  predicate Satisfied(level: nat, wish: Wish) {
    match wish case ForStart => level > 0 case ForFast => level == 2
  }

  predicate Enabled(m: Machine, a: Action) {
    match a
    case Call(c, _) => c !in m.callers
    case CallStop(c) => c !in m.callers
    case Peek(c) => c in m.callers && m.callers[c].Peeking?
    case Load(c) => c in m.callers && m.callers[c].Loading?
    case Stamp(c, _) => c in m.callers && m.callers[c].Stamping?
    case Swap(c) => c in m.callers && m.callers[c].Swapping?
    case Notify(c) => c in m.callers && m.callers[c].Notifying?
    case Wait(w, _) => w !in m.waiters
    case Check(w) => w in m.waiters && m.waiters[w].Checking?
    case Resume(w) => w in m.waiters && m.waiters[w].Parked? && m.waiters[w].woken
  }

  /** The value a successful swap from `current` returns. */
  function SwapResponse(current: nat, request: Mode): Transition {
    if current == 0 then Started(request) else EscalatedToFast
  }

  /** The request of an internal stop takes effect as the next operation. */
  function StopsAfter(m: Machine, c: nat, read: Option<nat>): seq<Stop> {
    if read.Some? then m.stops + [Acted(c, read.value, |m.history|)] else m.stops
  }

  function WakeAll(waiters: map<nat, Waiter>): map<nat, Waiter> {
    map w | w in waiters :: waiters[w].(woken := true)
  }

  function Step(m: Machine, a: Action): Machine
    requires Enabled(m, a)
  {
    match a
    case Call(c, request) => m.(callers := m.callers[c := Loading(request, |m.history|, 0, None)])
    case CallStop(c) => m.(callers := m.callers[c := Peeking(|m.history|)])
    case Peek(c) =>
      if m.level == 0 then m.(callers := m.callers[c := Loading(Fast, m.callers[c].since, 0, Some(|m.history|))])
      else m.(callers := m.callers - {c}, stops := m.stops + [Declined(c, |m.history|)])
    case Load(c) =>
      var Loading(request, since, retries, read) := m.callers[c];
      if m.level >= Level(request) then
        var op := Op(c, request, AlreadyStarted(if m.level == 1 then Graceful else Fast));
        m.(callers := m.callers - {c},
           history := m.history + [op],
           done := m.done + [Done(op, since, |m.history|, |m.history| + 1)],
           stops := StopsAfter(m, c, read))
      else if m.level == 0 then m.(callers := m.callers[c := Stamping(request, since, retries, read)])
      else m.(callers := m.callers[c := Swapping(request, since, retries, m.level, read)])
    case Stamp(c, now) =>
      var Stamping(request, since, retries, read) := m.callers[c];
      m.(startedAt := if m.startedAt.None? then Some(now) else m.startedAt,
         callers := m.callers[c := Swapping(request, since, retries, 0, read)])
    case Swap(c) =>
      var Swapping(request, since, retries, current, read) := m.callers[c];
      if m.level == current then
        m.(level := Level(request),
           history := m.history + [Op(c, request, SwapResponse(current, request))],
           callers := m.callers[c := Notifying(request, since, current, |m.history|)],
           stops := StopsAfter(m, c, read))
      else
        m.(callers := m.callers[c := Loading(request, since, retries + 1, read)])
    case Notify(c) =>
      var Notifying(request, since, current, at) := m.callers[c];
      m.(waiters := WakeAll(m.waiters),
         callers := m.callers - {c},
         done := m.done + [Done(Op(c, request, SwapResponse(current, request)), since, at, |m.history|)])
    case Wait(w, wish) => m.(waiters := m.waiters[w := Checking(wish, false)])
    case Check(w) =>
      if Satisfied(m.level, m.waiters[w].wish) then m.(waiters := m.waiters - {w})
      else m.(waiters := m.waiters[w := Parked(m.waiters[w].wish, m.waiters[w].woken)])
    case Resume(w) => m.(waiters := m.waiters[w := Checking(m.waiters[w].wish, false)])
  }

  /** The caller that takes a step; waiters' steps have none. */
  function Actor(a: Action): Option<nat> {
    match a
    case Wait(_, _) => None
    case Check(_) => None
    case Resume(_) => None
    case _ => Some(a.caller)
  }

  datatype Run = Run(actions: seq<Action>, states: seq<Machine>)

  ghost predicate IsRun(r: Run) {
    && |r.states| == |r.actions| + 1
    && r.states[0] == INITIAL
    && forall k :: 0 <= k < |r.actions| ==> StepsTo(r.states[k], r.actions[k], r.states[k + 1])
  }

  ghost predicate StepsTo(m: Machine, a: Action, m': Machine) {
    Enabled(m, a) && Step(m, a) == m'
  }

  // ---------------------------------------------------------------------------------------------
  // Sequential histories
  // ---------------------------------------------------------------------------------------------

  /** The mode after the requests of a history, taken one at a time. */
  function ModeAfter(history: seq<Op>): Option<Mode> {
    if history == [] then None
    else Begin(ModeAfter(history[..|history| - 1]), history[|history| - 1].request).0
  }

  /** Every response is the one the sequential object gives at that point. */
  ghost predicate IsSequential(history: seq<Op>) {
    forall i :: 0 <= i < |history| ==>
      history[i].response == Begin(ModeAfter(history[..i]), history[i].request).1
  }

  // ---------------------------------------------------------------------------------------------
  // Invariant
  // ---------------------------------------------------------------------------------------------

  /** An internal stop on its way to a request has read an empty history, and requests Fast. */
  predicate StopReadNone(request: Mode, read: Option<nat>) {
    read.Some? ==> request == Fast && read.value == 0
  }

  ghost predicate CallerInv(m: Machine, c: nat, k: Caller) {
    && k.since <= |m.history|
    && match k
       case Peeking(_) => true
       case Loading(request, _, retries, read) =>
         retries <= m.level && retries <= Level(request) && StopReadNone(request, read)
       case Stamping(request, _, retries, read) => retries == 0 && StopReadNone(request, read)
       case Swapping(request, _, retries, current, read) =>
         && retries <= current <= m.level && current < Level(request)
         && m.startedAt.Some? && StopReadNone(request, read)
       case Notifying(request, since, current, at) =>
         && since <= at < |m.history|
         && m.history[at] == Op(c, request, SwapResponse(current, request))
         && Level(request) <= m.level
  }

  ghost predicate DoneInv(m: Machine, d: Done) {
    d.since <= d.at < d.until <= |m.history| && m.history[d.at] == d.op
  }

  ghost predicate StopInv(m: Machine, s: Stop) {
    match s
    case Declined(_, readAt) => 0 < readAt <= |m.history|
    case Acted(c, readAt, at) =>
      readAt == 0 && at < |m.history| && m.history[at].caller == c && m.history[at].request == Fast
  }

  /** Somebody still has to notify the waiters of this wish. */
  ghost predicate NotifyPending(m: Machine, wish: Wish) {
    exists c :: c in m.callers && m.callers[c].Notifying? && Satisfied(Level(m.callers[c].request), wish)
  }

  ghost predicate WaiterInv(m: Machine, w: Waiter) {
    w.Parked? && !w.woken && Satisfied(m.level, w.wish) ==> NotifyPending(m, w.wish)
  }

  /** Call `i` or a caller about to notify accounts for operation `n` of the history. */
  ghost predicate Claimed(m: Machine, n: nat) {
    || (exists i :: 0 <= i < |m.done| && m.done[i].at == n)
    || (exists c :: c in m.callers && m.callers[c].Notifying? && m.callers[c].at == n)
  }

  /** Calls and operations correspond one to one. */
  ghost predicate ClaimsInv(m: Machine) {
    && (forall i, j :: 0 <= i < j < |m.done| ==> m.done[i].at != m.done[j].at)
    && (forall i, c :: 0 <= i < |m.done| && c in m.callers && m.callers[c].Notifying? ==>
          m.done[i].at != m.callers[c].at)
    && (forall n: nat :: n < |m.history| ==> Claimed(m, n))
  }

  ghost predicate Inv(m: Machine) {
    && m.level <= 2
    && (m.level > 0 ==> m.startedAt.Some?)
    && ModeAfter(m.history) == ModeAt(m.level)
    && IsSequential(m.history)
    && (forall c :: c in m.callers ==> CallerInv(m, c, m.callers[c]))
    && (forall i :: 0 <= i < |m.done| ==> DoneInv(m, m.done[i]))
    && (forall i :: 0 <= i < |m.stops| ==> StopInv(m, m.stops[i]))
    && (forall w :: w in m.waiters ==> WaiterInv(m, m.waiters[w]))
  }

  /** Adding one request to a sequential history. */
  lemma AppendOp(history: seq<Op>, op: Op)
    requires IsSequential(history)
    requires op.response == Begin(ModeAfter(history), op.request).1
    ensures IsSequential(history + [op])
    ensures ModeAfter(history + [op]) == Begin(ModeAfter(history), op.request).0
  {
    var longer := history + [op];
    assert longer[..|history|] == history;
    forall i | 0 <= i < |longer|
      ensures longer[i].response == Begin(ModeAfter(longer[..i]), longer[i].request).1
    {
      if i < |history| { assert longer[..i] == history[..i]; }
    }
  }

  /** Facts about callers, finished calls and waiters survive a step that only lets history and level grow. */
  ghost predicate Grows(m: Machine, m': Machine) {
    m.level <= m'.level <= 2 && m.history <= m'.history && (m.startedAt.Some? ==> m'.startedAt == m.startedAt)
  }

  lemma OthersKeepPlace(m: Machine, a: Action, c: nat)
    requires Enabled(m, a) && Actor(a) != Some(c)
    ensures c in m.callers <==> c in Step(m, a).callers
    ensures c in m.callers ==> Step(m, a).callers[c] == m.callers[c]
  {
  }

  lemma CallersSurvive(m: Machine, m': Machine, c: nat)
    requires Inv(m) && Grows(m, m') && c in m.callers
    ensures CallerInv(m', c, m.callers[c])
  {
  }

  lemma StepGrows(m: Machine, a: Action)
    requires Inv(m) && Enabled(m, a)
    ensures Grows(m, Step(m, a))
  {
    if a.Swap? { assert CallerInv(m, a.caller, m.callers[a.caller]); }
  }

  /** A load that finds the mode high enough, and a successful swap, answer as the sequential object does. */
  lemma AnswersSequentially(level: nat, request: Mode)
    requires level <= 2
    ensures level >= Level(request) ==>
      Begin(ModeAt(level), request) == (ModeAt(level), AlreadyStarted(if level == 1 then Graceful else Fast))
    ensures level < Level(request) ==>
      Begin(ModeAt(level), request) == (ModeAt(Level(request)), SwapResponse(level, request))
  {
  }

  lemma StepKeepsHistory(m: Machine, a: Action)
    requires Inv(m) && Enabled(m, a)
    ensures IsSequential(Step(m, a).history)
    ensures ModeAfter(Step(m, a).history) == ModeAt(Step(m, a).level)
    ensures Step(m, a).level > 0 ==> Step(m, a).startedAt.Some?
  {
    hide IsSequential;
    hide ModeAfter;
    hide Begin;
    if a.Load? || a.Swap? {
      var k := m.callers[a.caller];
      assert CallerInv(m, a.caller, k);
      AnswersSequentially(m.level, k.request);
      if a.Load? && m.level >= Level(k.request) {
        AppendOp(m.history, Op(a.caller, k.request, AlreadyStarted(if m.level == 1 then Graceful else Fast)));
      } else if a.Swap? && m.level == k.current {
        AppendOp(m.history, Op(a.caller, k.request, SwapResponse(k.current, k.request)));
      }
    }
  }

  /** Only an empty history leaves no mode. */
  lemma NoModeExactly(history: seq<Op>)
    ensures ModeAfter(history).None? <==> history == []
  {
  }

  lemma ActorKeepsInv(m: Machine, a: Action)
    requires Inv(m) && Enabled(m, a) && Actor(a).Some? && Actor(a).value in Step(m, a).callers
    ensures CallerInv(Step(m, a), Actor(a).value, Step(m, a).callers[Actor(a).value])
  {
    hide IsSequential, ModeAfter;
    StepGrows(m, a);
    NoModeExactly(m.history);
    if Actor(a).value in m.callers { assert CallerInv(m, Actor(a).value, m.callers[Actor(a).value]); }
  }

  lemma StepKeepsCallers(m: Machine, a: Action)
    requires Inv(m) && Enabled(m, a)
    ensures forall c :: c in Step(m, a).callers ==> CallerInv(Step(m, a), c, Step(m, a).callers[c])
  {
    var m' := Step(m, a);
    StepGrows(m, a);
    forall c | c in m'.callers ensures CallerInv(m', c, m'.callers[c]) {
      if Actor(a) == Some(c) {
        ActorKeepsInv(m, a);
      } else {
        OthersKeepPlace(m, a, c);
        CallersSurvive(m, m', c);
      }
    }
  }

  lemma StepKeepsDone(m: Machine, a: Action)
    requires Inv(m) && Enabled(m, a)
    ensures forall i :: 0 <= i < |Step(m, a).done| ==> DoneInv(Step(m, a), Step(m, a).done[i])
  {
    hide IsSequential, ModeAfter;
    StepGrows(m, a);
    var m' := Step(m, a);
    forall i | 0 <= i < |m'.done| ensures DoneInv(m', m'.done[i]) {
      if i < |m.done| {
        assert DoneInv(m, m.done[i]);
      } else {
        assert CallerInv(m, a.caller, m.callers[a.caller]);
      }
    }
  }

  lemma StepKeepsStops(m: Machine, a: Action)
    requires Inv(m) && Enabled(m, a)
    ensures forall i :: 0 <= i < |Step(m, a).stops| ==> StopInv(Step(m, a), Step(m, a).stops[i])
  {
    hide IsSequential, ModeAfter;
    StepGrows(m, a);
    NoModeExactly(m.history);
    var m' := Step(m, a);
    forall i | 0 <= i < |m'.stops| ensures StopInv(m', m'.stops[i]) {
      if i < |m.stops| {
        assert StopInv(m, m.stops[i]);
      } else {
        assert CallerInv(m, a.caller, m.callers[a.caller]);
      }
    }
  }

  lemma ClaimSurvives(m: Machine, a: Action, n: nat)
    requires ClaimsInv(m) && Enabled(m, a) && n < |m.history|
    ensures Claimed(Step(m, a), n)
  {
    var m' := Step(m, a);
    assert Claimed(m, n);
    if i :| 0 <= i < |m.done| && m.done[i].at == n {
      assert m'.done[i].at == n;
    } else {
      var c :| c in m.callers && m.callers[c].Notifying? && m.callers[c].at == n;
      if a == Notify(c) {
        assert m'.done[|m.done|].at == n;
      } else {
        assert c in m'.callers && m'.callers[c].Notifying? && m'.callers[c].at == n;
      }
    }
  }

  lemma NewClaim(m: Machine, a: Action)
    requires Enabled(m, a) && |m.history| < |Step(m, a).history|
    ensures Claimed(Step(m, a), |m.history|)
  {
    var m' := Step(m, a);
    if a.Load? {
      assert m'.done[|m.done|].at == |m.history|;
    } else {
      assert m'.callers[a.caller].Notifying? && m'.callers[a.caller].at == |m.history|;
    }
  }

  lemma StepKeepsClaims(m: Machine, a: Action)
    requires Inv(m) && ClaimsInv(m) && Enabled(m, a)
    ensures ClaimsInv(Step(m, a))
  {
    var m' := Step(m, a);
    forall n: nat | n < |m'.history| ensures Claimed(m', n) {
      if n < |m.history| { ClaimSurvives(m, a, n); } else { NewClaim(m, a); }
    }
    forall i, j | 0 <= i < j < |m'.done| ensures m'.done[i].at != m'.done[j].at {
      DoneStayDistinct(m, a, i, j);
    }
    forall i, c | 0 <= i < |m'.done| && c in m'.callers && m'.callers[c].Notifying?
      ensures m'.done[i].at != m'.callers[c].at
    {
      NotifierStaysDistinct(m, a, i, c);
    }
  }

  lemma DoneStayDistinct(m: Machine, a: Action, i: nat, j: nat)
    requires Inv(m) && ClaimsInv(m) && Enabled(m, a) && i < j < |Step(m, a).done|
    ensures Step(m, a).done[i].at != Step(m, a).done[j].at
  {
    assert DoneInv(m, m.done[i]);
  }

  lemma NotifierStaysDistinct(m: Machine, a: Action, i: nat, c: nat)
    requires Inv(m) && ClaimsInv(m) && Enabled(m, a)
    requires i < |Step(m, a).done| && c in Step(m, a).callers && Step(m, a).callers[c].Notifying?
    ensures Step(m, a).done[i].at != Step(m, a).callers[c].at
  {
    hide IsSequential, ModeAfter, WaiterInv, StopInv, Claimed;
    if i < |m.done| { assert DoneInv(m, m.done[i]); }
    if c in m.callers { assert CallerInv(m, c, m.callers[c]); }
    NotifiersDistinct(m);
  }

  lemma NotifiersDistinct(m: Machine)
    requires Inv(m)
    ensures forall c, d ::
      (c in m.callers && d in m.callers && m.callers[c].Notifying? && m.callers[d].Notifying?
       && m.callers[c].at == m.callers[d].at) ==> c == d
  {
    forall c, d |
      (c in m.callers && d in m.callers && m.callers[c].Notifying? && m.callers[d].Notifying?
       && m.callers[c].at == m.callers[d].at)
      ensures c == d
    {
      assert CallerInv(m, c, m.callers[c]) && CallerInv(m, d, m.callers[d]);
    }
  }

  lemma StepKeepsWaiters(m: Machine, a: Action)
    requires Inv(m) && Enabled(m, a)
    ensures forall w :: w in Step(m, a).waiters ==> WaiterInv(Step(m, a), Step(m, a).waiters[w])
  {
    hide IsSequential, ModeAfter, CallerInv, DoneInv, StopInv;
    var m' := Step(m, a);
    forall w | w in m'.waiters ensures WaiterInv(m', m'.waiters[w]) {
      var x := m'.waiters[w];
      if x.Parked? && !x.woken && Satisfied(m'.level, x.wish) {
        assert w in m.waiters && WaiterInv(m, m.waiters[w]);
        if Satisfied(m.level, x.wish) {
          var c :| c in m.callers && m.callers[c].Notifying? && Satisfied(Level(m.callers[c].request), x.wish);
          assert c in m'.callers && m'.callers[c] == m.callers[c];
        } else {
          assert a.Swap? && a.caller in m'.callers && m'.callers[a.caller].Notifying?;
        }
      }
    }
  }

  lemma {:induction false} RunKeepsInv(r: Run, k: nat)
    requires IsRun(r) && k <= |r.actions|
    ensures Inv(r.states[k]) && ClaimsInv(r.states[k])
  {
    if k > 0 {
      RunKeepsInv(r, k - 1);
      var m, a := r.states[k - 1], r.actions[k - 1];
      assert StepsTo(m, a, r.states[k]);
      StepGrows(m, a);
      StepKeepsHistory(m, a);
      StepKeepsCallers(m, a);
      StepKeepsDone(m, a);
      StepKeepsStops(m, a);
      StepKeepsClaims(m, a);
      StepKeepsWaiters(m, a);
    }
  }

  // ---------------------------------------------------------------------------------------------
  // Results
  // ---------------------------------------------------------------------------------------------

  /**
   * Linearizability: in every reachable state the operations that took effect form a sequential
   * history leading to the stored mode; each finished call is a distinct one of them with the
   * response it returned, placed between its call and its return; and calls that did not overlap
   * keep their order.
   */
  lemma Linearizable(r: Run, k: nat)
    requires IsRun(r) && k <= |r.actions|
    ensures
      var m := r.states[k];
      && IsSequential(m.history) && ModeAfter(m.history) == ModeAt(m.level)
      && (forall i :: 0 <= i < |m.done| ==>
            m.done[i].since <= m.done[i].at < m.done[i].until <= |m.history| && m.history[m.done[i].at] == m.done[i].op)
      && (forall i, j :: 0 <= i < |m.done| && 0 <= j < |m.done| && i != j ==> m.done[i].at != m.done[j].at)
      && (forall i, j :: 0 <= i < |m.done| && 0 <= j < |m.done| && m.done[i].until <= m.done[j].since ==>
            m.done[i].at < m.done[j].at)
      && (forall n: nat :: n < |m.history| ==> Claimed(m, n))
  {
    RunKeepsInv(r, k);
    var m := r.states[k];
    forall i | 0 <= i < |m.done| ensures DoneInv(m, m.done[i]) { }
  }

  /** A history prefix without its last request. */
  lemma ModeAfterPrefix(history: seq<Op>, i: nat)
    requires i < |history|
    ensures ModeAfter(history[..i + 1]) == Begin(ModeAfter(history[..i]), history[i].request).0
  {
    assert history[..i + 1][..i] == history[..i];
  }

  lemma {:induction false} FastIsFinal(history: seq<Op>, i: nat, j: nat)
    requires i <= j <= |history| && ModeAfter(history[..i]) == Some(Fast)
    ensures ModeAfter(history[..j]) == Some(Fast)
    decreases j
  {
    if i < j {
      FastIsFinal(history, i, j - 1);
      ModeAfterPrefix(history, j - 1);
    }
  }

  /**
   * In a sequential history exactly the first request starts shutdown, and a request escalates
   * only after a graceful start and before any other escalation.
   */
  lemma StartsOnceEscalatesOnce(history: seq<Op>, i: nat)
    requires IsSequential(history) && i < |history|
    ensures history[i].response.Started? <==> i == 0
    ensures history[i].response == EscalatedToFast ==> 0 < i && history[0].response == Started(Graceful)
    ensures history[i].response == EscalatedToFast ==>
      forall j :: i < j < |history| ==> history[j].response == AlreadyStarted(Fast)
  {
    assert history[..0] == [];
    ModeAfterPrefix(history, i);
    if i > 0 { ModeAfterPrefix(history, i - 1); }
    if history[i].response == EscalatedToFast {
      forall j | i < j < |history| ensures history[j].response == AlreadyStarted(Fast) {
        FastIsFinal(history, i + 1, j);
      }
      if history[0].request == Fast {
        ModeAfterPrefix(history, 0);
        FastIsFinal(history, 1, i);
      }
    }
  }

  /**
   * The responses of a sequential history, from its requests alone: the first request starts what it
   * asks for; until somebody asks for Fast, Graceful has already started; the first to ask for Fast
   * after that escalates; and from then on Fast has already started.
   */
  lemma ResponsesAreExactly(history: seq<Op>, i: nat)
    requires IsSequential(history) && i < |history|
    ensures history[i].response ==
      if i == 0 then Started(history[0].request)
      else if exists j :: 0 <= j < i && history[j].request == Fast then AlreadyStarted(Fast)
      else if history[i].request == Fast then EscalatedToFast
      else AlreadyStarted(Graceful)
  {
    var before := history[..i];
    GracefulExactly(before);
    NoModeExactly(before);
    assert forall j :: 0 <= j < i ==> before[j] == history[j];
  }

  /** The stored mode, from the requests that took effect alone. */
  lemma ModeIsExactly(r: Run, k: nat)
    requires IsRun(r) && k <= |r.actions|
    ensures
      var m := r.states[k];
      m.level ==
        if m.history == [] then 0
        else if forall i :: 0 <= i < |m.history| ==> m.history[i].request == Graceful then 1
        else 2
  {
    RunKeepsInv(r, k);
    GracefulExactly(r.states[k].history);
    NoModeExactly(r.states[k].history);
  }

  /** Of any two finished calls at most one started shutdown and at most one escalated it. */
  lemma OneCallerStarts(r: Run, k: nat, i: nat, j: nat)
    requires IsRun(r) && k <= |r.actions|
    requires i < |r.states[k].done| && j < |r.states[k].done| && i != j
    ensures !(r.states[k].done[i].op.response.Started? && r.states[k].done[j].op.response.Started?)
    ensures !(r.states[k].done[i].op.response == EscalatedToFast == r.states[k].done[j].op.response)
  {
    Linearizable(r, k);
    var m := r.states[k];
    StartsOnceEscalatesOnce(m.history, m.done[i].at);
    StartsOnceEscalatesOnce(m.history, m.done[j].at);
  }

  // ---------------------------------------------------------------------------------------------
  // Internal stops
  // ---------------------------------------------------------------------------------------------

  /** The mode is Graceful exactly when there were requests and all of them were for Graceful. */
  lemma {:induction false} GracefulExactly(history: seq<Op>)
    ensures ModeAfter(history) == Some(Graceful)
      <==> history != [] && forall i :: 0 <= i < |history| ==> history[i].request == Graceful
  {
    if history != [] {
      var before, last := history[..|history| - 1], history[|history| - 1];
      GracefulExactly(before);
      NoModeExactly(before);
      assert forall i :: 0 <= i < |before| ==> before[i] == history[i];
    }
  }

  /** Operation `n`, at or after `from` and before `to`, started a graceful shutdown that nobody made Fast before `to`. */
  ghost predicate StartsGraceful(history: seq<Op>, n: int, from: nat, to: nat) {
    && from <= n < to <= |history|
    && history[n].response == Started(Graceful)
    && forall i :: n < i < to ==> history[i].request == Graceful
  }

  /** A Fast request escalates exactly a graceful start that is still graceful. */
  lemma EscalatesExactly(history: seq<Op>, at: nat)
    requires IsSequential(history) && at < |history| && history[at].request == Fast
    ensures history[at].response == EscalatedToFast <==> exists n :: StartsGraceful(history, n, 0, at)
  {
    var before := history[..at];
    GracefulExactly(before);
    assert forall i :: 0 <= i < at ==> before[i] == history[i];
    if at > 0 {
      StartsOnceEscalatesOnce(history, 0);
      assert history[..0] == [];
      if history[at].response == EscalatedToFast { assert StartsGraceful(history, 0, 0, at); }
    }
    if n :| StartsGraceful(history, n, 0, at) {
      StartsOnceEscalatesOnce(history, n);
      assert history[..0] == [];
    }
  }

  /**
   * Every internal stop, in every interleaving. It makes a request exactly when it read no mode,
   * and that request turns Graceful into Fast exactly when the graceful shutdown started between
   * its read and its request, and was still graceful. One that had started before the read is
   * left alone.
   */
  lemma StopsEscalateExactly(r: Run, k: nat, i: nat)
    requires IsRun(r) && k <= |r.actions| && i < |r.states[k].stops|
    ensures
      var m := r.states[k];
      var s := m.stops[i];
      && s.readAt <= |m.history|
      && (s.Acted? <==> ModeAfter(m.history[..s.readAt]).None?)
      && (s.Acted? ==>
            && s.readAt <= s.at < |m.history|
            && m.history[s.at].caller == s.caller
            && (m.history[s.at].response == EscalatedToFast
                <==> exists n :: StartsGraceful(m.history, n, s.readAt, s.at)))
  {
    RunKeepsInv(r, k);
    var m := r.states[k];
    var s := m.stops[i];
    assert StopInv(m, s);
    NoModeExactly(m.history[..s.readAt]);
    if s.Acted? {
      EscalatesExactly(m.history, s.at);
    }
  }

  function Extended(r: Run, a: Action): Run
    requires r.states != [] && Enabled(Last(r), a)
  {
    Run(r.actions + [a], r.states + [Step(Last(r), a)])
  }

  function Last(r: Run): Machine
    requires r.states != []
  {
    r.states[|r.states| - 1]
  }

  lemma ExtendedIsRun(r: Run, a: Action)
    requires IsRun(r) && Enabled(Last(r), a)
    ensures IsRun(Extended(r, a)) && Last(Extended(r, a)) == Step(Last(r), a)
  {
    var longer := Extended(r, a);
    forall k | 0 <= k < |longer.actions| ensures StepsTo(longer.states[k], longer.actions[k], longer.states[k + 1]) {
      if k < |r.actions| { assert StepsTo(r.states[k], r.actions[k], r.states[k + 1]); }
    }
  }

  /**
   * An interleaving in which an internal stop escalates: it reads no mode, another thread starts
   * Graceful, and the stop's request then makes it Fast.
   */
  lemma SomeStopEscalates() returns (r: Run)
    ensures IsRun(r) && Last(r).level == 2
    ensures Last(r).stops == [Acted(0, 0, 1)]
    ensures Last(r).history == [Op(1, Graceful, Started(Graceful)), Op(0, Fast, EscalatedToFast)]
  {
    r := Run([], [INITIAL]);
    r := Take(r, CallStop(0));
    r := Take(r, Peek(0));
    r := Take(r, Call(1, Graceful));
    r := Take(r, Load(1));
    r := Take(r, Stamp(1, 0));
    r := Take(r, Swap(1));
    r := Take(r, Load(0));
    r := Take(r, Swap(0));
  }

  lemma Take(r: Run, a: Action) returns (r': Run)
    requires IsRun(r) && Enabled(Last(r), a)
    ensures IsRun(r') && Last(r') == Step(Last(r), a)
  {
    ExtendedIsRun(r, a);
    r' := Extended(r, a);
  }

  // ---------------------------------------------------------------------------------------------
  // Mode, deadline, retries and waiters
  // ---------------------------------------------------------------------------------------------

  /** The mode never goes back, and a start time once written never changes. */
  lemma {:induction false} ModeAndDeadlineAreStable(r: Run, j: nat, k: nat)
    requires IsRun(r) && j <= k <= |r.actions|
    ensures r.states[j].level <= r.states[k].level
    ensures r.states[j].startedAt.Some? ==> r.states[k].startedAt == r.states[j].startedAt
    ensures r.states[k].level > 0 ==> r.states[k].startedAt.Some?
    decreases k
  {
    PublishedHasStart(r, k);
    if j < k {
      ModeAndDeadlineAreStable(r, j, k - 1);
      RunGrows(r, k - 1);
    }
  }

  lemma PublishedHasStart(r: Run, k: nat)
    requires IsRun(r) && k <= |r.actions|
    ensures r.states[k].level > 0 ==> r.states[k].startedAt.Some?
  {
    RunKeepsInv(r, k);
  }

  lemma RunGrows(r: Run, k: nat)
    requires IsRun(r) && k < |r.actions|
    ensures Grows(r.states[k], r.states[k + 1])
  {
    RunKeepsInv(r, k);
    assert StepsTo(r.states[k], r.actions[k], r.states[k + 1]);
    StepGrows(r.states[k], r.actions[k]);
  }

  /** The end of the graceful window; it never changes once a mode is published. */
  function GracefulDeadline(m: Machine, duration: int): Option<int> {
    if m.startedAt.Some? then Some(m.startedAt.value + duration) else None
  }

  lemma DeadlineIsFixedOncePublished(r: Run, j: nat, k: nat, duration: int)
    requires IsRun(r) && j <= k <= |r.actions|
    requires r.states[j].level > 0
    ensures GracefulDeadline(r.states[j], duration).Some?
    ensures GracefulDeadline(r.states[k], duration) == GracefulDeadline(r.states[j], duration)
  {
    ModeAndDeadlineAreStable(r, j, j);
    ModeAndDeadlineAreStable(r, j, k);
  }

  /** The start time is that of the first write, and the deadline lies the graceful duration after it. */
  lemma {:induction false} StartIsFirstWrite(r: Run, k: nat, duration: int)
    requires IsRun(r) && k <= |r.actions|
    ensures r.states[k].startedAt.None? <==> forall j :: 0 <= j < k ==> !r.actions[j].Stamp?
    ensures forall j :: 0 <= j < k && FirstStamp(r.actions, j) ==>
      r.states[k].startedAt == Some(r.actions[j].now) && GracefulDeadline(r.states[k], duration) == Some(r.actions[j].now + duration)
  {
    if k > 0 {
      StartIsFirstWrite(r, k - 1, duration);
      assert StepsTo(r.states[k - 1], r.actions[k - 1], r.states[k]);
    }
  }

  ghost predicate FirstStamp(actions: seq<Action>, j: int) {
    0 <= j < |actions| && actions[j].Stamp? && forall i :: 0 <= i < j ==> !actions[i].Stamp?
  }

  /**
   * A waiter goes on exactly when it checks and its wish has come true: a start waiter once a mode is
   * published, a fast waiter once that is Fast. Otherwise it parks, and a woken one checks again.
   */
  lemma WaitersLeaveExactly(r: Run, k: nat, w: nat)
    requires IsRun(r) && k < |r.actions| && w in r.states[k].waiters
    ensures
      var m, x := r.states[k], r.states[k].waiters[w];
      && (w !in r.states[k + 1].waiters <==>
            r.actions[k] == Check(w) && (if x.wish == ForStart then m.level > 0 else m.level == 2))
      && (w in r.states[k + 1].waiters ==> r.states[k + 1].waiters[w].wish == x.wish)
  {
    assert StepsTo(r.states[k], r.actions[k], r.states[k + 1]);
  }

  /** A graceful request retries at most once and a fast request at most twice. */
  lemma RetriesAreBounded(r: Run, k: nat, c: nat)
    requires IsRun(r) && k <= |r.actions|
    requires c in r.states[k].callers && !r.states[k].callers[c].Notifying? && !r.states[k].callers[c].Peeking?
    ensures r.states[k].callers[c].retries <= Level(r.states[k].callers[c].request)
  {
    RunKeepsInv(r, k);
    assert CallerInv(r.states[k], c, r.states[k].callers[c]);
  }

  /** A waiter that will not run again by itself. */
  predicate Blocked(w: Waiter) {
    w.Parked? && !w.woken
  }

  /**
   * No lost wakeup: once no caller stands between its successful swap and its notify, no
   * `wait_started` waiter is blocked under a published mode and no `wait_for_fast` waiter is
   * blocked under Fast.
   */
  lemma NoLostWakeup(r: Run, k: nat, w: nat)
    requires IsRun(r) && k <= |r.actions|
    requires forall c :: c in r.states[k].callers ==> !r.states[k].callers[c].Notifying?
    requires w in r.states[k].waiters && Blocked(r.states[k].waiters[w])
    ensures r.states[k].waiters[w].wish == ForStart ==> r.states[k].level == 0
    ensures r.states[k].waiters[w].wish == ForFast ==> r.states[k].level < 2
  {
    RunKeepsInv(r, k);
    assert WaiterInv(r.states[k], r.states[k].waiters[w]);
  }
}
