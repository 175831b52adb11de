/**
 * A handle on shutdown, as the code that uses the shared mode and the shutdown flag.
 *
 * Every atomic operation is proved to take a step of the `Shutdown` machine, with other threads
 * taking any steps of their own between two of them. The history `run` is therefore a run of that
 * machine, and every result about its runs is a result about this code. Threads are the callers of
 * the machine: a thread makes one call at a time.
 */
module OrderlyShutdown {
  import opened Prelude
  import opened Shutdown

  /** From `m` to `m'` no operation of thread `c` took effect. */
  ghost predicate NoneBy(m: Machine, m': Machine, c: nat) {
    && m.history <= m'.history && m.done <= m'.done && m.stops <= m'.stops
    && forall n :: |m.history| <= n < |m'.history| ==> m'.history[n].caller != c
  }

  /** From `m` to `m'` exactly one operation of thread `c` took effect, number `at`. */
  ghost predicate OneBy(m: Machine, m': Machine, c: nat, at: nat) {
    && m.history <= m'.history && m.done <= m'.done && m.stops <= m'.stops
    && |m.history| <= at < |m'.history|
    && forall n :: |m.history| <= n < |m'.history| ==> (m'.history[n].caller == c <==> n == at)
  }

  /** While others ran, thread `c` did nothing and stayed where it was. */
  ghost predicate Stays(m: Machine, m': Machine, c: nat) {
    && NoneBy(m, m', c)
    && (c in m.callers <==> c in m'.callers)
    && (c in m.callers ==> m'.callers[c] == m.callers[c])
  }

  lemma NoneYet(m: Machine, c: nat)
    ensures NoneBy(m, m, c)
  {
  }

  lemma OtherStepStays(m: Machine, a: Action, c: nat)
    requires Enabled(m, a) && Actor(a) != Some(c)
    ensures Stays(m, Step(m, a), c)
  {
    OthersKeepPlace(m, a, c);
  }

  lemma StopStays(m: Machine, m': Machine, c: nat, s: Stop)
    requires NoneBy(m, m', c) && s in m.stops
    ensures s in m'.stops
  {
    var i :| 0 <= i < |m.stops| && m.stops[i] == s;
    assert m'.stops[i] == s;
  }

  lemma NoneThenNone(m: Machine, mid: Machine, m': Machine, c: nat)
    requires NoneBy(m, mid, c) && NoneBy(mid, m', c)
    ensures NoneBy(m, m', c)
  {
  }

  lemma NoneThenOne(m: Machine, mid: Machine, m': Machine, c: nat, at: nat)
    requires NoneBy(m, mid, c) && OneBy(mid, m', c, at)
    ensures OneBy(m, m', c, at)
  {
  }

  lemma OneThenNone(m: Machine, mid: Machine, m': Machine, c: nat, at: nat)
    requires OneBy(m, mid, c, at) && NoneBy(mid, m', c)
    ensures OneBy(m, m', c, at)
  {
  }

  ghost predicate At(m: Machine, c: nat, place: Caller) {
    c in m.callers && m.callers[c] == place
  }

  /** The operation `op` of thread `c`, and no other, took effect. */
  ghost predicate Effective(m: Machine, m': Machine, c: nat, read: Option<nat>, op: Op) {
    && OneBy(m, m', c, |m.history|)
    && m'.history[|m.history|] == op
    && (read.Some? ==> Acted(c, read.value, |m.history|) in m'.stops)
  }

  /** The last call to finish is `d`, by thread `c`. */
  ghost predicate Finished(m: Machine, c: nat, d: Done) {
    c !in m.callers && m.done != [] && m.done[|m.done| - 1] == d
  }

  /** The operation took effect and its call finished in the same step. */
  ghost predicate Answered(m: Machine, m': Machine, c: nat, read: Option<nat>, op: Op, since: nat) {
    Effective(m, m', c, read, op) && Finished(m', c, Done(op, since, |m.history|, |m'.history|))
  }

  /**
   * From `m` to `m'` one call of thread `c` ran to its end: exactly one of its operations took
   * effect, number `at`, as the request of the internal stop that read at `read` if it is one.
   */
  ghost predicate Completed(m: Machine, m': Machine, c: nat, read: Option<nat>, op: Op, since: nat, at: nat) {
    && OneBy(m, m', c, at) && m'.history[at] == op
    && (read.Some? ==> Acted(c, read.value, at) in m'.stops)
    && Finished(m', c, Done(op, since, at, |m'.history|))
  }

  lemma AnsweredCompletes(m: Machine, mid: Machine, m': Machine, c: nat, read: Option<nat>, op: Op, since: nat)
    requires NoneBy(m, mid, c) && Answered(mid, m', c, read, op, since)
    ensures Completed(m, m', c, read, op, since, |mid.history|)
  {
    NoneThenOne(m, mid, m', c, |mid.history|);
  }

  lemma NotifiedCompletes(m: Machine, before: Machine, after: Machine, m': Machine, c: nat, read: Option<nat>, op: Op, since: nat)
    requires NoneBy(m, before, c) && Effective(before, after, c, read, op) && NoneBy(after, m', c)
    requires Finished(m', c, Done(op, since, |before.history|, |m'.history|))
    ensures Completed(m, m', c, read, op, since, |before.history|)
  {
    NoneThenOne(m, before, after, c, |before.history|);
    OneThenNone(m, after, m', c, |before.history|);
  }

  lemma CompletedLater(m: Machine, mid: Machine, m': Machine, c: nat, read: Option<nat>, op: Op, since: nat, at: nat)
    requires NoneBy(m, mid, c) && Completed(mid, m', c, read, op, since, at)
    ensures Completed(m, m', c, read, op, since, at)
  {
    NoneThenOne(m, mid, m', c, at);
  }

  /**
   * From `m` to `m'` thread `c` made one call, which finished: its one operation is number `at`,
   * and the finished call was called after `m`.
   */
  ghost predicate Began(m: Machine, m': Machine, c: nat, read: Option<nat>, op: Op, at: nat) {
    && OneBy(m, m', c, at) && m'.history[at] == op && c !in m'.callers
    && (read.Some? ==> Acted(c, read.value, at) in m'.stops)
    && exists d :: d in m'.done && d.op == op && d.since == |m.history| && d.at == at
  }

  lemma BeganLater(m: Machine, mid: Machine, finished: Machine, m': Machine, c: nat, read: Option<nat>, op: Op, at: nat)
    requires NoneBy(m, mid, c) && Completed(mid, finished, c, read, op, |m.history|, at) && Stays(finished, m', c)
    ensures Began(m, m', c, read, op, at) && at < |m'.history|
  {
    NoneThenOne(m, mid, finished, c, at);
    OneThenNone(m, finished, m', c, at);
    var d := finished.done[|finished.done| - 1];
    assert m'.done[|finished.done| - 1] == d;
  }

  /** Entering a call takes no effect. */
  lemma EnteredAt(m: Machine, a: Action)
    requires (a.Call? || a.CallStop?) && Enabled(m, a)
    ensures NoneBy(m, Step(m, a), a.caller)
    ensures At(Step(m, a), a.caller, if a.Call? then Loading(a.request, |m.history|, 0, None) else Peeking(|m.history|))
    ensures Step(m, a).history == m.history
  {
  }

  /** An internal stop that reads no mode goes on to request Fast, and any other is over. */
  lemma PeekedAt(m: Machine, c: nat)
    requires Enabled(m, Peek(c))
    ensures NoneBy(m, Step(m, Peek(c)), c)
    ensures m.level == 0 ==> At(Step(m, Peek(c)), c, Loading(Fast, m.callers[c].since, 0, Some(|m.history|)))
    ensures m.level > 0 ==> c !in Step(m, Peek(c)).callers && Declined(c, |m.history|) in Step(m, Peek(c)).stops
  {
  }

  lemma AnswersInTurn(r: Run, at: nat)
    requires IsRun(r) && at < |Last(r).history|
    ensures Last(r).history[at].response == Begin(ModeAfter(Last(r).history[..at]), Last(r).history[at].request).1
    ensures Last(r).startedAt.Some?
  {
    RunKeepsInv(r, |r.actions|);
    NoModeExactly(Last(r).history);
  }

  lemma StopAnswers(r: Run, c: nat, readAt: nat, at: nat)
    requires IsRun(r) && Acted(c, readAt, at) in Last(r).stops
    ensures readAt <= at < |Last(r).history| && ModeAfter(Last(r).history[..readAt]).None?
    ensures Last(r).history[at].response == EscalatedToFast <==> exists n :: StartsGraceful(Last(r).history, n, readAt, at)
  {
    var i :| 0 <= i < |Last(r).stops| && Last(r).stops[i] == Acted(c, readAt, at);
    StopsEscalateExactly(r, |r.actions|, i);
  }

  // ---------------------------------------------------------------------------------------------
  // A thread that makes internal stops only
  // ---------------------------------------------------------------------------------------------

  /** Operation `n` is the request of an internal stop of thread `c` that read the mode at `from` or later. */
  ghost predicate IsStop(m: Machine, c: nat, from: nat, n: nat) {
    exists s :: s in m.stops && s.Acted? && s.caller == c && from <= s.readAt && s.at == n
  }

  /** From `m` to `m'` every operation of thread `c` is the request of an internal stop it made meanwhile. */
  ghost predicate OnlyStops(m: Machine, m': Machine, c: nat) {
    && m.history <= m'.history && m.stops <= m'.stops
    && forall n :: |m.history| <= n < |m'.history| && m'.history[n].caller == c ==> IsStop(m', c, |m.history|, n)
  }

  lemma OnlyStopsYet(m: Machine, c: nat)
    ensures OnlyStops(m, m, c)
  {
  }

  lemma NoneAreOnlyStops(m: Machine, m': Machine, c: nat)
    requires NoneBy(m, m', c)
    ensures OnlyStops(m, m', c)
  {
  }

  lemma StopIsOnlyStop(m: Machine, m': Machine, c: nat, readAt: nat, op: Op, at: nat)
    requires Began(m, m', c, Some(readAt), op, at) && |m.history| <= readAt
    ensures OnlyStops(m, m', c)
  {
    forall n | |m.history| <= n < |m'.history| && m'.history[n].caller == c ensures IsStop(m', c, |m.history|, n) {
      assert Acted(c, readAt, at) in m'.stops && n == at;
    }
  }

  lemma OnlyStopsOn(m: Machine, mid: Machine, m': Machine, c: nat)
    requires OnlyStops(m, mid, c) && OnlyStops(mid, m', c)
    ensures OnlyStops(m, m', c)
  {
    forall n | |m.history| <= n < |m'.history| && m'.history[n].caller == c ensures IsStop(m', c, |m.history|, n) {
      if n < |mid.history| {
        assert IsStop(mid, c, |m.history|, n);
        var s :| s in mid.stops && s.Acted? && s.caller == c && |m.history| <= s.readAt && s.at == n;
        var i :| 0 <= i < |mid.stops| && mid.stops[i] == s;
        assert m'.stops[i] == s;
      } else {
        assert IsStop(m', c, |mid.history|, n);
      }
    }
  }

  /** Operation `n` is a stop of thread `c`, read at `from` or later and before Graceful started, that made it Fast. */
  ghost predicate CrossesStart(m: Machine, c: nat, from: nat, n: nat) {
    exists readAt, start ::
      from <= readAt && Acted(c, readAt, n) in m.stops && ModeAfter(Before(m.history, readAt)).None?
      && StartsGraceful(m.history, start, readAt, n)
  }

  function Before(history: seq<Op>, n: nat): seq<Op> {
    if n <= |history| then history[..n] else history
  }

  /**
   * From `m` to `m'` thread `c` turned Graceful into Fast only by internal stops that had read no
   * mode before the graceful shutdown started. In particular it left alone a graceful shutdown
   * that had started in `m`.
   */
  ghost predicate SparesGraceful(m: Machine, m': Machine, c: nat) {
    && m.history <= m'.history
    && (forall n :: |m.history| <= n < |m'.history| && m'.history[n].caller == c && m'.history[n].response == EscalatedToFast ==>
          CrossesStart(m', c, |m.history|, n))
    && (m.history != [] ==> forall n :: |m.history| <= n < |m'.history| ==> m'.history[n].caller != c)
  }

  lemma OnlyStopsSpareGraceful(r: Run, m: Machine, c: nat)
    requires IsRun(r) && OnlyStops(m, Last(r), c)
    ensures SparesGraceful(m, Last(r), c)
  {
    var m' := Last(r);
    forall n | |m.history| <= n < |m'.history| && m'.history[n].caller == c
      ensures m.history == []
      ensures m'.history[n].response == EscalatedToFast ==> CrossesStart(m', c, |m.history|, n)
    {
      assert IsStop(m', c, |m.history|, n);
      var s :| s in m'.stops && s.Acted? && s.caller == c && |m.history| <= s.readAt && s.at == n;
      StopAnswers(r, c, s.readAt, n);
      NoModeExactly(m'.history[..s.readAt]);
      if m'.history[n].response == EscalatedToFast {
        var start :| StartsGraceful(m'.history, start, s.readAt, n);
        assert Acted(c, s.readAt, n) in m'.stops;
      }
    }
  }

  // ---------------------------------------------------------------------------------------------
  // The handle
  // ---------------------------------------------------------------------------------------------

  lemma RetriesWithin(r: Run, c: nat)
    requires IsRun(r) && c in Last(r).callers && Last(r).callers[c].Loading?
    ensures Last(r).callers[c].retries <= Level(Last(r).callers[c].request)
  {
    RetriesAreBounded(r, |r.actions|, c);
  }

  /** A step of a run never lowers the level. */
  lemma RunLevels(r: Run, a: Action)
    requires IsRun(r) && Enabled(Last(r), a)
    ensures Last(r).level <= Step(Last(r), a).level <= 2
  {
    RunKeepsInv(r, |r.actions|);
    StepGrows(Last(r), a);
  }

  class Handle {
    var state: nat
    var startedAt: Option<int>
    /** The shutdown flag that workers and the controller watch; it is set after a mode is published. */
    var flag: bool
    /** History: the run of the machine so far. Only `OthersRun` looks at it. */
    var run: Run

    ghost predicate Valid()
      reads this
    {
      && IsRun(run)
      && state == Last(run).level <= 2 && startedAt == Last(run).startedAt
      && (flag ==> state > 0)
    }

    ghost function Now(): Machine
      requires Valid()
      reads this
    {
      Last(run)
    }

    function Mode(): Option<Mode>
      reads this
    {
      ModeAt(state)
    }

    constructor ()
      ensures Valid() && Now() == INITIAL && !flag
    {
      state, startedAt, flag := 0, None, false;
      run := Run([], [INITIAL]);
    }

    /** The run went on by exactly this step. */
    twostate predicate Took(a: Action)
      requires old(Valid()) && Valid()
      reads this
    {
      && Enabled(old(Now()), a)
      && run == Extended(old(run), a)
      && Now() == Step(old(Now()), a)
    }

    /** Other threads take any steps, and may set the flag once there is a mode. */
    method OthersRun(c: nat)
      requires Valid()
      modifies this
      ensures Valid() && old(run.actions) <= run.actions
      ensures Stays(old(Now()), Now(), c) && old(state) <= state && (old(flag) ==> flag)
    {
      var steps: nat := *;
      while steps > 0
        invariant Valid() && old(run.actions) <= run.actions
        invariant Stays(old(Now()), Now(), c) && old(state) <= state && (old(flag) ==> flag)
      {
        var a: Action, flags: bool := *, *;
        if Enabled(Last(run), a) && Actor(a) != Some(c) {
          StepOf(a, c);
        }
        if state > 0 && flags {
          flag := true;
        }
        steps := steps - 1;
      }
    }

    /** One step of another thread. */
    method StepOf(a: Action, c: nat)
      requires Valid() && Enabled(Now(), a) && Actor(a) != Some(c)
      modifies this`state, this`startedAt, this`run
      ensures Valid() && Took(a)
      ensures Stays(old(Now()), Now(), c) && old(state) <= state
    {
      hide IsRun;
      OtherStepStays(Now(), a, c);
      RunLevels(run, a);
      ExtendedIsRun(run, a);
      run := Extended(run, a);
      state, startedAt := Last(run).level, Last(run).startedAt;
    }

    // The atomic operations of thread `c`, each one step of the machine.

    method Enter(c: nat, request: Mode)
      requires Valid() && c !in Now().callers
      modifies this`run
      ensures Valid() && old(run.actions) <= run.actions && Took(Call(c, request))
    {
      ExtendedIsRun(run, Call(c, request));
      run := Extended(run, Call(c, request));
    }

    method EnterStop(c: nat)
      requires Valid() && c !in Now().callers
      modifies this`run
      ensures Valid() && old(run.actions) <= run.actions && Took(CallStop(c))
    {
      ExtendedIsRun(run, CallStop(c));
      run := Extended(run, CallStop(c));
    }

    method ReadMode(c: nat) returns (mode: Option<Mode>)
      requires Valid() && Enabled(Now(), Peek(c))
      modifies this`run
      ensures Valid() && old(run.actions) <= run.actions && Took(Peek(c)) && mode == Mode()
    {
      mode := ModeAt(state);
      ExtendedIsRun(run, Peek(c));
      run := Extended(run, Peek(c));
    }

    method LoadState(c: nat) returns (current: nat)
      requires Valid() && Enabled(Now(), Load(c))
      modifies this`run
      ensures Valid() && old(run.actions) <= run.actions && Took(Load(c)) && current == state
      ensures
        var Loading(request, since, retries, read) := old(Now()).callers[c];
        if current >= Level(request) then
          Answered(old(Now()), Now(), c, read, Op(c, request, AlreadyStarted(if current == 1 then Graceful else Fast)), since)
        else
          && NoneBy(old(Now()), Now(), c)
          && At(Now(), c, if current == 0 then Stamping(request, since, retries, read) else Swapping(request, since, retries, current, read))
    {
      current := state;
      ExtendedIsRun(run, Load(c));
      run := Extended(run, Load(c));
    }

    /** The start time is written once; a later write is ignored. */
    method SetStart(c: nat, now: int)
      requires Valid() && Enabled(Now(), Stamp(c, now))
      modifies this`startedAt, this`run
      ensures Valid() && old(run.actions) <= run.actions && Took(Stamp(c, now)) && NoneBy(old(Now()), Now(), c)
      ensures
        var Stamping(request, since, retries, read) := old(Now()).callers[c];
        At(Now(), c, Swapping(request, since, retries, 0, read))
    {
      if startedAt.None? {
        startedAt := Some(now);
      }
      ExtendedIsRun(run, Stamp(c, now));
      run := Extended(run, Stamp(c, now));
    }

    method CompareExchange(c: nat, current: nat, wanted: nat) returns (swapped: bool)
      requires Valid() && Enabled(Now(), Swap(c))
      requires Now().callers[c].current == current && Level(Now().callers[c].request) == wanted
      modifies this`state, this`run
      ensures Valid() && old(run.actions) <= run.actions && Took(Swap(c)) && (swapped <==> old(state) == current)
      ensures
        var Swapping(request, since, retries, _, read) := old(Now()).callers[c];
        if swapped then
          && state == wanted
          && Effective(old(Now()), Now(), c, read, Op(c, request, SwapResponse(current, request)))
          && At(Now(), c, Notifying(request, since, current, |old(Now()).history|))
        else
          NoneBy(old(Now()), Now(), c) && At(Now(), c, Loading(request, since, retries + 1, read))
    {
      swapped := state == current;
      RunLevels(run, Swap(c));
      if swapped {
        state := wanted;
      }
      ExtendedIsRun(run, Swap(c));
      run := Extended(run, Swap(c));
    }

    method NotifyWaiters(c: nat)
      requires Valid() && Enabled(Now(), Notify(c))
      modifies this`run
      ensures Valid() && old(run.actions) <= run.actions && Took(Notify(c)) && NoneBy(old(Now()), Now(), c)
      ensures
        var Notifying(request, since, current, at) := old(Now()).callers[c];
        Finished(Now(), c, Done(Op(c, request, SwapResponse(current, request)), since, at, |Now().history|))
    {
      ExtendedIsRun(run, Notify(c));
      run := Extended(run, Notify(c));
    }

    /** The second half of a turn: swap what was loaded, and notify if that succeeded. */
    method Publish(c: nat, request: Mode, current: nat, ghost since: nat, ghost retries: nat, ghost read: Option<nat>)
      returns (transition: Option<Transition>, ghost at: nat)
      requires Valid() && At(Now(), c, Swapping(request, since, retries, current, read))
      modifies this
      ensures Valid() && old(run.actions) <= run.actions && (old(flag) ==> flag)
      ensures transition.None? ==> NoneBy(old(Now()), Now(), c) && At(Now(), c, Loading(request, since, retries + 1, read))
      ensures transition.Some? ==>
        Completed(old(Now()), Now(), c, read, Op(c, request, transition.value), since, at) && state >= Level(request)
    {
      hide IsRun, Step, NoneBy, OneBy, Effective, Completed, Took;
      ghost var m := Now();
      OthersRun(c);
      ghost var before := Now();
      var swapped := CompareExchange(c, current, Level(request));
      ghost var after := Now();
      if !swapped {
        NoneThenNone(m, before, after, c);
        return None, 0;
      }
      OthersRun(c);
      ghost var others := Now();
      NotifyWaiters(c);
      NoneThenNone(after, others, Now(), c);
      at := |before.history|;
      transition := Some(if current == 0 then Started(request) else EscalatedToFast);
      NotifiedCompletes(m, before, after, Now(), c, read, Op(c, request, transition.value), since);
    }

    /** A turn that loaded no mode writes the start time first. */
    method RecordStart(c: nat, request: Mode, current: nat, ghost since: nat, ghost retries: nat, ghost read: Option<nat>)
      requires Valid()
      requires At(Now(), c, if current == 0 then Stamping(request, since, retries, read) else Swapping(request, since, retries, current, read))
      modifies this
      ensures Valid() && old(run.actions) <= run.actions && (old(flag) ==> flag)
      ensures NoneBy(old(Now()), Now(), c) && At(Now(), c, Swapping(request, since, retries, current, read))
    {
      hide IsRun, Step, NoneBy, Took;
      ghost var m := Now();
      NoneYet(m, c);
      if current == 0 {
        OthersRun(c);
        ghost var stamping := Now();
        var now: int := *;
        SetStart(c, now);
        NoneThenNone(m, stamping, Now(), c);
      }
    }

    /** One turn of the compare-and-swap loop: the answer, or another turn after a failed swap. */
    method Attempt(c: nat, request: Mode, ghost since: nat, ghost retries: nat, ghost read: Option<nat>)
      returns (transition: Option<Transition>, ghost at: nat)
      requires Valid() && At(Now(), c, Loading(request, since, retries, read))
      modifies this
      ensures Valid() && old(run.actions) <= run.actions && (old(flag) ==> flag)
      ensures transition.None? ==> NoneBy(old(Now()), Now(), c) && At(Now(), c, Loading(request, since, retries + 1, read))
      ensures transition.Some? ==>
        Completed(old(Now()), Now(), c, read, Op(c, request, transition.value), since, at) && state >= Level(request)
    {
      hide IsRun, Step, NoneBy, OneBy, Effective, Completed, Took;
      ghost var m := Now();
      OthersRun(c);
      ghost var loading := Now();
      var current := LoadState(c);
      ghost var loaded := Now();
      if current >= Level(request) {
        at := |loading.history|;
        transition := Some(AlreadyStarted(if current == 1 then Graceful else Fast));
        AnsweredCompletes(m, loading, loaded, c, read, Op(c, request, transition.value), since);
        return;
      }
      NoneThenNone(m, loading, loaded, c);
      RecordStart(c, request, current, since, retries, read);
      ghost var ready := Now();
      NoneThenNone(m, loaded, ready, c);
      transition, at := Publish(c, request, current, since, retries, read);
      if transition.Some? {
        CompletedLater(m, ready, Now(), c, read, Op(c, request, transition.value), since, at);
      } else {
        NoneThenNone(m, ready, Now(), c);
      }
    }

    /**
     * The compare-and-swap loop of thread `c`, which has entered a request. Exactly one operation
     * of the thread takes effect, number `at`, and the call that finishes returns its response.
     * The loop ends because a swap fails at most once per level below the requested one.
     */
    method TransitionTo(c: nat, request: Mode, ghost since: nat, ghost read: Option<nat>)
      returns (transition: Transition, ghost at: nat)
      requires Valid() && At(Now(), c, Loading(request, since, 0, read))
      modifies this
      ensures Valid() && old(run.actions) <= run.actions && (old(flag) ==> flag)
      ensures Completed(old(Now()), Now(), c, read, Op(c, request, transition), since, at) && state >= Level(request)
    {
      hide IsRun, Step, NoneBy, OneBy, Completed;
      ghost var m := Now();
      ghost var retries: nat := 0;
      NoneYet(m, c);
      while true
        invariant Valid() && old(run.actions) <= run.actions && (old(flag) ==> flag)
        invariant NoneBy(m, Now(), c) && At(Now(), c, Loading(request, since, retries, read))
        invariant retries <= Level(request)
        decreases Level(request) - retries
      {
        ghost var turn := Now();
        var answer;
        answer, at := Attempt(c, request, since, retries, read);
        if answer.Some? {
          CompletedLater(m, turn, Now(), c, read, Op(c, request, answer.value), since, at);
          return answer.value, at;
        }
        NoneThenNone(m, turn, Now(), c);
        retries := retries + 1;
        RetriesWithin(run, c);
      }
    }

    /**
     * Start or escalate shutdown and then set the flag. The finished call is operation `at` of the
     * run, and its response the one the sequential object gives there.
     */
    method BeginShutdown(c: nat, request: Mode) returns (transition: Transition, ghost at: nat)
      requires Valid() && c !in Now().callers
      modifies this
      ensures Valid() && old(run.actions) <= run.actions
      ensures Began(old(Now()), Now(), c, None, Op(c, request, transition), at)
      ensures transition == Begin(ModeAfter(Now().history[..at]), request).1
      ensures flag && state >= Level(request) && startedAt.Some?
    {
      hide IsRun, Step, NoneBy, OneBy, Took;
      ghost var m := Now();
      EnteredAt(m, Call(c, request));
      Enter(c, request);
      ghost var entered := Now();
      transition, at := TransitionTo(c, request, |entered.history|, None);
      ghost var finished := Now();
      OthersRun(c);
      BeganLater(m, entered, finished, Now(), c, None, Op(c, request, transition), at);
      AnswersInTurn(run, at);
      flag := true;
    }

    /**
     * An internal stop: request Fast unless the mode read says that shutdown started, then set the
     * flag. It makes a request exactly when it read no mode, and that request, operation `at`,
     * turns Graceful into Fast exactly when Graceful started after the read.
     */
    method RequestShutdown(c: nat) returns (read: Option<Mode>, ghost readAt: nat, ghost at: nat)
      requires Valid() && c !in Now().callers
      modifies this
      ensures Valid() && old(run.actions) <= run.actions && c !in Now().callers
      ensures read.Some? ==> NoneBy(old(Now()), Now(), c) && Declined(c, readAt) in Now().stops
      ensures read.None? ==> exists answer :: Began(old(Now()), Now(), c, Some(readAt), Op(c, Fast, answer), at)
      ensures read.None? ==>
        (Now().history[at].response == EscalatedToFast <==> exists n :: StartsGraceful(Now().history, n, readAt, at))
      ensures |old(Now()).history| <= readAt
      ensures flag && state > 0 && (read.None? ==> state == 2)
    {
      hide IsRun, Step, NoneBy, OneBy, Took, Began;
      at := 0;
      ghost var m := Now();
      EnteredAt(m, CallStop(c));
      EnterStop(c);
      ghost var entered := Now();
      OthersRun(c);
      ghost var peeking := Now();
      readAt := |peeking.history|;
      PeekedAt(peeking, c);
      read := ReadMode(c);
      ghost var peeked := Now();
      NoneThenNone(m, entered, peeking, c);
      NoneThenNone(m, peeking, peeked, c);
      if read.None? {
        var answer;
        answer, at := TransitionTo(c, Fast, |m.history|, Some(readAt));
        ghost var finished := Now();
        OthersRun(c);
        BeganLater(m, peeked, finished, Now(), c, Some(readAt), Op(c, Fast, answer), at);
        StopAnswers(run, c, readAt, at);
      } else {
        OthersRun(c);
        NoneThenNone(m, peeked, Now(), c);
        StopStays(peeked, Now(), c, Declined(c, readAt));
      }
      flag := true;
    }
  }
}
