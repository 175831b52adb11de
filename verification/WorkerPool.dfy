/**
 * The worker pool of the address controller: one slot per address, the outstanding worker futures,
 * and the maintenance intent each worker observes.
 *
 * A worker is named by the number of workers spawned before it. It is alive while it still holds
 * the receiving end of its intent channel. Sending on a channel whose worker has died fails and
 * leaves the stored intent unchanged.
 */
module WorkerPool {
  import opened Prelude
  import opened Convergence
  import CS = ConnectedStretch

  type Intent = CS.Intent

  /** A slot: the worker it belongs to, the generation stored beside it, and the intent last sent. */
  datatype Slot = Slot(worker: nat, generation: nat, intent: Intent)

  /**
   * An outstanding worker future reports its address and generation, and the result its worker will
   * have come to, when it completes.
   */
  datatype Task = Task(address: Address, generation: nat, result: Result<(), string>)

  datatype Completion = Completion(worker: nat, address: Address, result: Result<(), string>)

  /** The generation of the worker spawned after `worker` others; the counter starts at 1 and saturates. */
  function GenerationOf(worker: nat): nat {
    Min(worker + 1, USIZE_MAX)
  }

  lemma NextGenerationIs(worker: nat)
    ensures SaturatingAdd(GenerationOf(worker), 1) == GenerationOf(worker + 1)
  {
  }

  /** Two workers share a generation exactly when both were spawned at or past saturation. */
  lemma GenerationsDistinctExactly(v: nat, w: nat)
    requires v < w
    ensures GenerationOf(v) == GenerationOf(w) <==> v + 1 >= USIZE_MAX
  {
  }

  /** The first error of a drain: the one handed in, or the earliest among the completions. */
  function EarliestError(first: Option<string>, reaped: seq<Completion>): Option<string>
    decreases reaped
  {
    if first.Some? || reaped == [] then first
    else EarliestError(if reaped[0].result.Err? then Some(reaped[0].result.error) else None, reaped[1..])
  }

  lemma {:induction false} EarliestErrorSnoc(first: Option<string>, reaped: seq<Completion>, c: Completion)
    ensures EarliestError(first, reaped + [c]) == EarliestError(EarliestError(first, reaped), [c])
    decreases reaped
  {
    if first.None? && reaped != [] {
      assert (reaped + [c])[1..] == reaped[1..] + [c];
      EarliestErrorSnoc(if reaped[0].result.Err? then Some(reaped[0].result.error) else None, reaped[1..], c);
    } else if reaped == [] {
      assert reaped + [c] == [c];
    }
  }

  /** The shared worker count wraps like its 64-bit counter. */
  function CountUp(count: nat): nat {
    (count + 1) % U64_LIMIT
  }

  function CountDown(count: nat): nat {
    (count + U64_LIMIT - 1) % U64_LIMIT
  }

  lemma CountsWrap(n: nat)
    ensures CountUp(n % U64_LIMIT) == (n + 1) % U64_LIMIT
    ensures n > 0 ==> CountDown(n % U64_LIMIT) == (n - 1) % U64_LIMIT
  {
  }

  type Slots = map<Address, Slot>
  type Tasks = map<nat, Task>

  /** Every slot's worker has an outstanding future that will report this address and generation. */
  ghost predicate SlotsHaveTasks(workers: Slots, running: Tasks) {
    forall a :: a in workers ==>
      var w := workers[a].worker;
      w in running && running[w].address == a && running[w].generation == workers[a].generation
  }

  /** Outstanding workers were spawned before, under the generation of their spawn number. */
  ghost predicate TasksAreNumbered(running: Tasks, spawned: nat) {
    forall w :: w in running ==> w < spawned && running[w].generation == GenerationOf(w)
  }

  /** A live worker is outstanding and owns the slot of its address. */
  ghost predicate LiveOwnSlots(workers: Slots, running: Tasks, alive: set<nat>) {
    forall w :: w in alive ==> w in running && running[w].address in workers && workers[running[w].address].worker == w
  }

  ghost predicate Consistent(workers: Slots, running: Tasks, spawned: nat, alive: set<nat>) {
    && SlotsHaveTasks(workers, running)
    && TasksAreNumbered(running, spawned)
    && alive <= running.Keys
    && (spawned <= USIZE_MAX ==> LiveOwnSlots(workers, running, alive))
  }

  /** Two slot tables differ at most at `a`. */
  ghost predicate SameElsewhere(before: Slots, after: Slots, a: Address) {
    forall b :: b != a ==> (b in before <==> b in after) && (b in before ==> before[b] == after[b])
  }

  lemma ReplacedElsewhere(before: Slots, a: Address, slot: Slot)
    ensures SameElsewhere(before, (before - {a})[a := slot], a)
  {
  }

  /** A new worker for an address without a slot becomes the owner of a new slot. */
  lemma SpawnKeeps(workers: Slots, running: Tasks, spawned: nat, alive: set<nat>, a: Address, result: Result<(), string>)
    requires Consistent(workers, running, spawned, alive) && a !in workers
    ensures Consistent(
              workers[a := Slot(spawned, GenerationOf(spawned), CS.Maintain)],
              running[spawned := Task(a, GenerationOf(spawned), result)],
              spawned + 1,
              alive + {spawned})
  {
  }

  /** A slot whose worker is dead can go. */
  lemma DropKeeps(workers: Slots, running: Tasks, spawned: nat, alive: set<nat>, a: Address)
    requires Consistent(workers, running, spawned, alive) && a in workers
    requires spawned <= USIZE_MAX ==> workers[a].worker !in alive
    ensures Consistent(workers - {a}, running, spawned, alive)
    ensures |workers - {a}| == |workers| - 1
  {
    assert workers.Keys == (workers - {a}).Keys + {a};
  }

  lemma SendKeeps(workers: Slots, running: Tasks, spawned: nat, alive: set<nat>, a: Address, intent: Intent)
    requires Consistent(workers, running, spawned, alive) && a in workers
    ensures Consistent(workers[a := workers[a].(intent := intent)], running, spawned, alive)
    ensures |workers[a := workers[a].(intent := intent)]| == |workers|
  {
    assert workers[a := workers[a].(intent := intent)].Keys == workers.Keys;
  }

  /** A slot carries the intent its address calls for, or its worker is dead. */
  ghost predicate Settled(workers: Slots, alive: set<nat>, desired: set<Address>, a: Address) {
    a in workers ==>
      workers[a].intent == (if a in desired then CS.Maintain else CS.Retire) || workers[a].worker !in alive
  }

  /** Settled slots stay settled while workers die and a new worker appears elsewhere. */
  lemma StaysSettled(before: Slots, after: Slots, running: Tasks, spawned: nat, alive: set<nat>, alive': set<nat>,
                     desired: set<Address>, a: Address, b: Address)
    requires Consistent(before, running, spawned, alive)
    requires SameElsewhere(before, after, a) && a != b
    requires alive' <= alive + {spawned}
    requires Settled(before, alive, desired, b)
    ensures Settled(after, alive', desired, b)
  {
  }

  ghost predicate AllSettled(workers: Slots, alive: set<nat>, desired: set<Address>, todo: set<Address>) {
    forall a :: a !in todo ==> Settled(workers, alive, desired, a)
  }

  lemma StayAllSettled(before: Slots, after: Slots, running: Tasks, spawned: nat, alive: set<nat>, alive': set<nat>,
                       desired: set<Address>, todo: set<Address>, a: Address)
    requires Consistent(before, running, spawned, alive)
    requires SameElsewhere(before, after, a) && alive' <= alive + {spawned}
    requires AllSettled(before, alive, desired, todo) && Settled(after, alive', desired, a)
    ensures AllSettled(after, alive', desired, todo - {a})
  {
    forall b | b !in todo - {a} ensures Settled(after, alive', desired, b) {
      if b != a {
        assert Settled(before, alive, desired, b);
        StaysSettled(before, after, running, spawned, alive, alive', desired, a, b);
      }
    }
  }

  lemma DeathsSettle(workers: Slots, alive: set<nat>, alive': set<nat>, desired: set<Address>)
    requires alive' <= alive && AllSettled(workers, alive, desired, {})
    ensures AllSettled(workers, alive', desired, {})
  {
    forall b ensures Settled(workers, alive', desired, b) { assert Settled(workers, alive, desired, b); }
  }

  /** Every address of `desired` has a slot saying Maintain; any other slot says Retire or its worker is dead. */
  ghost predicate IntentIs(workers: Slots, alive: set<nat>, desired: set<Address>) {
    && (forall a :: a in desired ==> a in workers && workers[a].intent == CS.Maintain)
    && (forall a :: a in workers && a !in desired ==> workers[a].intent == CS.Retire || workers[a].worker !in alive)
  }

  /** Slots that disappeared are exactly slots whose own worker's future is no longer outstanding. */
  ghost predicate SlotsLeaveWithTheirFutures(before: Slots, after: Slots, running: Tasks) {
    && (forall a :: a in after ==> a in before && after[a] == before[a])
    && (forall a :: a in before && a !in after ==> before[a].worker !in running)
  }

  /** The completion of worker `w` is the one its address's slot waits for. */
  predicate IsCurrent(workers: Slots, task: Task) {
    task.address in workers && workers[task.address].generation == task.generation
  }

  /** The slots left after a completion. */
  function AfterCompletion(workers: Slots, task: Task): Slots {
    if IsCurrent(workers, task) then workers - {task.address} else workers
  }

  lemma ReapKeepsStale(workers: Slots, running: Tasks, spawned: nat, alive: set<nat>, w: nat)
    requires Consistent(workers, running, spawned, alive) && w in running && !IsCurrent(workers, running[w])
    ensures Consistent(workers, running - {w}, spawned, alive - {w})
  {
  }

  lemma ReapKeepsCurrent(workers: Slots, running: Tasks, spawned: nat, alive: set<nat>, w: nat)
    requires Consistent(workers, running, spawned, alive) && w in running && IsCurrent(workers, running[w])
    ensures Consistent(workers - {running[w].address}, running - {w}, spawned, alive - {w})
    ensures |workers - {running[w].address}| == |workers| - 1
    ensures spawned <= USIZE_MAX ==> workers[running[w].address].worker == w
  {
    var a := running[w].address;
    assert workers.Keys == (workers - {a}).Keys + {a};
    if spawned <= USIZE_MAX {
      CurrentMeansOwner(workers, running, spawned, alive, w);
      assert LiveOwnSlots(workers - {a}, running - {w}, alive - {w});
    }
  }

  lemma ReapKeeps(workers: Slots, running: Tasks, spawned: nat, alive: set<nat>, w: nat)
    requires Consistent(workers, running, spawned, alive) && w in running
    ensures Consistent(AfterCompletion(workers, running[w]), running - {w}, spawned, alive - {w})
    ensures |running - {w}| == |running| - 1
    ensures IsCurrent(workers, running[w]) ==> |AfterCompletion(workers, running[w])| == |workers| - 1
    ensures spawned <= USIZE_MAX ==>
      SlotsLeaveWithTheirFutures(workers, AfterCompletion(workers, running[w]), running - {w})
  {
    assert running.Keys == (running - {w}).Keys + {w};
    if IsCurrent(workers, running[w]) {
      ReapKeepsCurrent(workers, running, spawned, alive, w);
    } else {
      ReapKeepsStale(workers, running, spawned, alive, w);
    }
  }

  /** Before saturation a completion whose generation matches the slot comes from the slot's own worker. */
  lemma CurrentMeansOwner(workers: Slots, running: Tasks, spawned: nat, alive: set<nat>, w: nat)
    requires Consistent(workers, running, spawned, alive) && spawned <= USIZE_MAX && w in running
    requires running[w].address in workers && workers[running[w].address].generation == running[w].generation
    ensures workers[running[w].address].worker == w
  {
    var slot := workers[running[w].address];
    assert slot.worker in running;
  }

  lemma {:induction false} EarliestErrorJoin(first: Option<string>, a: seq<Completion>, b: seq<Completion>)
    ensures EarliestError(first, a + b) == EarliestError(EarliestError(first, a), b)
    decreases b
  {
    if b == [] {
      assert a + b == a;
    } else {
      var n := |b| - 1;
      EarliestErrorJoin(first, a, b[..n]);
      assert a + b == (a + b[..n]) + [b[n]] && b == b[..n] + [b[n]];
      EarliestErrorSnoc(first, a + b[..n], b[n]);
      EarliestErrorSnoc(EarliestError(first, a), b[..n], b[n]);
    }
  }

  /** Without outstanding futures there is no slot and no live worker. */
  lemma NothingOutstanding(workers: Slots, running: Tasks, spawned: nat, alive: set<nat>)
    requires Consistent(workers, running, spawned, alive) && running == map[]
    ensures workers == map[] && alive == {}
  {
  }

  function Report(error: Option<string>): Result<(), string> {
    if error.Some? then Err(error.value) else Ok(())
  }

  // ---------------------------------------------------------------------------------------------
  // Which workers are reaped
  // ---------------------------------------------------------------------------------------------

  /** From `before` to `after` slots left, and `got` has one completion for each of them and for no other address. */
  ghost predicate ReapsSlots(before: Slots, after: Slots, got: seq<Completion>) {
    && |got| + |after| == |before|
    && (forall a :: a in after ==> a in before && after[a] == before[a])
    && (forall i :: 0 <= i < |got| ==> got[i].address in before && got[i].address !in after)
    && (forall i, j :: 0 <= i < j < |got| ==> got[i].address != got[j].address)
    && (forall a :: a in before && a !in after ==> Reports(got, a))
  }

  ghost predicate Reports(got: seq<Completion>, a: Address) {
    exists i :: 0 <= i < |got| && got[i].address == a
  }

  /** Each completion is the one of its slot's own worker, with the result that worker came to. */
  ghost predicate OwnResults(before: Slots, running: Tasks, got: seq<Completion>) {
    forall i :: 0 <= i < |got| ==>
      && got[i].address in before && got[i].worker == before[got[i].address].worker
      && got[i].worker in running && got[i].result == running[got[i].worker].result
  }

  /** Every outstanding future of `after` was outstanding before. */
  ghost predicate TasksKept(after: Tasks, before: Tasks) {
    forall w :: w in after ==> w in before && after[w] == before[w]
  }

  lemma ReapsOne(before: Slots, c: Completion)
    requires c.address in before
    ensures ReapsSlots(before, before - {c.address}, [c])
  {
    assert before.Keys == (before - {c.address}).Keys + {c.address};
    forall a | a in before && a !in before - {c.address} ensures Reports([c], a) {
      assert [c][0].address == a;
    }
  }

  lemma ReportsJoin(before: Slots, mid: Slots, after: Slots, xs: seq<Completion>, ys: seq<Completion>, a: Address)
    requires ReapsSlots(before, mid, xs) && ReapsSlots(mid, after, ys) && a in before && a !in after
    ensures Reports(xs + ys, a)
  {
    var got := xs + ys;
    if a in mid {
      assert Reports(ys, a);
      var i :| 0 <= i < |ys| && ys[i].address == a;
      assert got[|xs| + i].address == a;
    } else {
      assert Reports(xs, a);
      var i :| 0 <= i < |xs| && xs[i].address == a;
      assert got[i].address == a;
    }
  }

  /** Slots reaped one batch after the other are reaped by both together. */
  lemma ReapsJoin(before: Slots, mid: Slots, after: Slots, xs: seq<Completion>, ys: seq<Completion>)
    requires ReapsSlots(before, mid, xs) && ReapsSlots(mid, after, ys)
    ensures ReapsSlots(before, after, xs + ys)
  {
    hide Reports;
    var got := xs + ys;
    forall a | a in before && a !in after ensures Reports(got, a) {
      ReportsJoin(before, mid, after, xs, ys, a);
    }
    forall i | 0 <= i < |got| ensures got[i].address in before && got[i].address !in after {
      assert got[i] == if i < |xs| then xs[i] else ys[i - |xs|];
    }
    forall i, j | 0 <= i < j < |got| ensures got[i].address != got[j].address {
      assert got[i] == if i < |xs| then xs[i] else ys[i - |xs|];
      assert got[j] == if j < |xs| then xs[j] else ys[j - |xs|];
    }
  }

  lemma OwnResultsJoin(before: Slots, mid: Slots, after: Slots, running: Tasks, later: Tasks, xs: seq<Completion>, ys: seq<Completion>)
    requires ReapsSlots(before, mid, xs) && ReapsSlots(mid, after, ys) && TasksKept(later, running)
    requires OwnResults(before, running, xs) && OwnResults(mid, later, ys)
    ensures OwnResults(before, running, xs + ys)
  {
  }

  /** Completion `c` took one slot, before saturation as its own worker's. */
  ghost predicate Reaped(before: Slots, after: Slots, running: Tasks, spawned: nat, c: Completion) {
    && c.address in before && after == before - {c.address}
    && c.worker in running && c.result == running[c.worker].result
    && (spawned <= USIZE_MAX ==> before[c.address].worker == c.worker)
  }

  lemma ReapedOne(before: Slots, after: Slots, running: Tasks, spawned: nat, c: Completion)
    requires Reaped(before, after, running, spawned, c)
    ensures ReapsSlots(before, after, [c])
    ensures spawned <= USIZE_MAX ==> OwnResults(before, running, [c])
  {
    ReapsOne(before, c);
  }

  /** On the way from `before` and `tasks` to `mid` and `left`, a drain has reaped `got`. */
  ghost predicate Draining(before: Slots, mid: Slots, tasks: Tasks, left: Tasks, spawned: nat, got: seq<Completion>) {
    && ReapsSlots(before, mid, got) && TasksKept(left, tasks)
    && (spawned <= USIZE_MAX ==> OwnResults(before, tasks, got))
  }

  lemma DrainingYet(before: Slots, tasks: Tasks, spawned: nat)
    ensures Draining(before, before, tasks, tasks, spawned, [])
  {
  }

  lemma DrainingNext(before: Slots, mid: Slots, after: Slots, tasks: Tasks, left: Tasks, later: Tasks, spawned: nat,
                     got: seq<Completion>, c: Completion)
    requires Draining(before, mid, tasks, left, spawned, got)
    requires Reaped(mid, after, left, spawned, c) && TasksKept(later, left)
    ensures Draining(before, after, tasks, later, spawned, got + [c])
  {
    hide ReapsSlots, OwnResults;
    ReapedOne(mid, after, left, spawned, c);
    ReapsJoin(before, mid, after, got, [c]);
    if spawned <= USIZE_MAX { OwnResultsJoin(before, mid, after, tasks, left, got, [c]); }
  }

  /** Reaping completions that no slot waits for changes nothing. */
  lemma StaysDraining(before: Slots, tasks: Tasks, left: Tasks, later: Tasks, spawned: nat, got: seq<Completion>)
    requires Draining(before, map[], tasks, left, spawned, got) && TasksKept(later, left)
    ensures Draining(before, map[], tasks, later, spawned, got)
  {
  }

  lemma DrainingEnds(before: Slots, tasks: Tasks, left: Tasks, spawned: nat, got: seq<Completion>)
    requires Draining(before, map[], tasks, left, spawned, got)
    ensures Drained(before, tasks, spawned, got)
    ensures spawned <= USIZE_MAX ==> (EarliestError(None, got).None? <==> NoneFails(before, tasks))
  {
    hide ReapsSlots, OwnResults, NoneFails;
    if spawned <= USIZE_MAX { DrainSucceedsExactly(before, tasks, spawned, got); }
  }

  /** Before saturation a current completion comes from the slot's own worker. */
  lemma CurrentOwns(workers: Slots, running: Tasks, spawned: nat, alive: set<nat>, w: nat)
    requires Consistent(workers, running, spawned, alive) && w in running
    ensures IsCurrent(workers, running[w]) && spawned <= USIZE_MAX ==> workers[running[w].address].worker == w
  {
    if IsCurrent(workers, running[w]) && spawned <= USIZE_MAX { CurrentMeansOwner(workers, running, spawned, alive, w); }
  }

  /** One result per slot: every slot's worker is reaped, and before saturation each with its own result. */
  ghost predicate Drained(before: Slots, running: Tasks, spawned: nat, got: seq<Completion>) {
    ReapsSlots(before, map[], got) && (spawned <= USIZE_MAX ==> OwnResults(before, running, got))
  }

  lemma DrainedAfter(before: Slots, mid: Slots, running: Tasks, later: Tasks, spawned: nat, xs: seq<Completion>, ys: seq<Completion>)
    requires ReapsSlots(before, mid, xs) && (spawned <= USIZE_MAX ==> OwnResults(before, running, xs))
    requires Drained(mid, later, spawned, ys) && TasksKept(later, running)
    ensures Drained(before, running, spawned, xs + ys)
  {
    ReapsJoin(before, mid, map[], xs, ys);
    if spawned <= USIZE_MAX { OwnResultsJoin(before, mid, map[], running, later, xs, ys); }
  }

  lemma DrainedEarlier(before: Slots, running: Tasks, later: Tasks, spawned: nat, got: seq<Completion>)
    requires Drained(before, later, spawned, got) && TasksKept(later, running)
    ensures Drained(before, running, spawned, got)
  {
  }

  lemma ReapedEarlier(before: Slots, after: Slots, running: Tasks, later: Tasks, spawned: nat, c: Completion)
    requires Reaped(before, after, later, spawned, c) && TasksKept(later, running)
    ensures Reaped(before, after, running, spawned, c)
  {
  }

  /** After completions without error, one more decides. */
  lemma FirstErrorIs(reaped: seq<Completion>, since: nat, c: Completion)
    requires since <= |reaped| && EarliestError(None, reaped[since..]).None?
    ensures EarliestError(None, (reaped + [c])[since..]) == if c.result.Err? then Some(c.result.error) else None
  {
    EarliestErrorSnoc(None, reaped[since..], c);
    assert (reaped + [c])[since..] == reaped[since..] + [c];
  }

  /** What was reaped since `before`, if `c` came first. */
  lemma FromFirst(before: seq<Completion>, one: seq<Completion>, now: seq<Completion>, c: Completion)
    requires one == before + [c] && one <= now
    ensures now[|before|..] == [c] + now[|one|..]
  {
  }

  lemma {:induction false} NoErrorExactly(reaped: seq<Completion>)
    ensures EarliestError(None, reaped).None? <==> forall i :: 0 <= i < |reaped| ==> reaped[i].result.Ok?
  {
    if reaped != [] {
      NoErrorExactly(reaped[1..]);
      assert forall i :: 0 < i < |reaped| ==> reaped[i] == reaped[1..][i - 1];
    }
  }

  /** `e` is the error of the first completion that has one. */
  ghost predicate FailsFirst(got: seq<Completion>, e: string) {
    exists i :: 0 <= i < |got| && FirstFailureAt(got, i, e)
  }

  ghost predicate FirstFailureAt(got: seq<Completion>, i: int, e: string)
    requires 0 <= i < |got|
  {
    got[i].result == Err(e) && forall j :: 0 <= j < i ==> got[j].result.Ok?
  }

  /** An error handed in stays, and otherwise the first error among the completions is kept. */
  lemma {:induction false} EarliestErrorIs(first: Option<string>, got: seq<Completion>)
    ensures first.Some? ==> EarliestError(first, got) == first
    ensures first.None? ==> forall e :: EarliestError(None, got) == Some(e) <==> FailsFirst(got, e)
    decreases got
  {
    if first.None? && got != [] {
      var tail := got[1..];
      EarliestErrorIs(None, tail);
      forall e ensures EarliestError(None, got) == Some(e) <==> FailsFirst(got, e) {
        if got[0].result.Err? {
          if got[0].result == Err(e) { assert FirstFailureAt(got, 0, e); }
        } else {
          FailsLater(got, e);
        }
      }
    }
  }

  lemma FailsLater(got: seq<Completion>, e: string)
    requires got != [] && got[0].result.Ok?
    ensures FailsFirst(got, e) <==> FailsFirst(got[1..], e)
  {
    var tail := got[1..];
    if i :| 0 <= i < |tail| && FirstFailureAt(tail, i, e) {
      forall j | 0 <= j < i + 1 ensures got[j].result.Ok? { if j > 0 { assert got[j] == tail[j - 1]; } }
      assert FirstFailureAt(got, i + 1, e);
    }
    if i :| 0 <= i < |got| && FirstFailureAt(got, i, e) {
      forall j | 0 <= j < i - 1 ensures tail[j].result.Ok? { assert tail[j] == got[j + 1]; }
      assert i > 0 && FirstFailureAt(tail, i - 1, e);
    }
  }

  /** What a drain returns: the error handed in, or else the first one reaped, or else none. */
  ghost predicate ReturnsFirst(first: Option<string>, got: seq<Completion>, result: Result<(), string>) {
    && (first.Some? ==> result == Err(first.value))
    && (first.None? ==> forall e :: result == Err(e) <==> FailsFirst(got, e))
  }

  lemma ReportReturnsFirst(first: Option<string>, got: seq<Completion>)
    ensures ReturnsFirst(first, got, Report(EarliestError(first, got)))
  {
    EarliestErrorIs(first, got);
  }

  /** The worker of every slot came to an end without error. */
  ghost predicate NoneFails(slots: Slots, running: Tasks) {
    forall a :: a in slots && slots[a].worker in running ==> running[slots[a].worker].result.Ok?
  }

  /** A drain is free of errors exactly when none of the slots' workers fails. */
  lemma DrainSucceedsExactly(slots: Slots, running: Tasks, spawned: nat, got: seq<Completion>)
    requires Drained(slots, running, spawned, got) && spawned <= USIZE_MAX
    ensures EarliestError(None, got).None? <==> NoneFails(slots, running)
  {
    NoErrorExactly(got);
    if EarliestError(None, got).None? {
      forall a | a in slots && slots[a].worker in running ensures running[slots[a].worker].result.Ok? {
        assert Reports(got, a);
        var i :| 0 <= i < |got| && got[i].address == a;
      }
    }
  }

  // ---------------------------------------------------------------------------------------------
  // Workers that stay
  // ---------------------------------------------------------------------------------------------

  /** A worker that is still alive keeps its slot. */
  ghost predicate KeepsLive(before: Slots, after: Slots, alive: set<nat>) {
    forall a :: a in before && before[a].worker in alive ==> a in after && after[a].worker == before[a].worker
  }

  lemma SlotsWereSpawned(workers: Slots, running: Tasks, spawned: nat, alive: set<nat>)
    requires Consistent(workers, running, spawned, alive)
    ensures forall a :: a in workers ==> workers[a].worker < spawned
  {
  }

  /**
   * From slots `before`, `spawned` workers and the live ones `alive` to `after`, `later` and
   * `alive'`: whoever is still alive was alive or is new, and keeps the slot it had.
   */
  ghost predicate Keeps(before: Slots, after: Slots, spawned: nat, later: nat, alive: set<nat>, alive': set<nat>) {
    && KeepsLive(before, after, alive') && spawned <= later
    && (forall w :: w in alive' && w < spawned ==> w in alive)
    && (forall a :: a in before ==> before[a].worker < spawned)
  }

  lemma KeepsYet(workers: Slots, running: Tasks, spawned: nat, alive: set<nat>)
    requires Consistent(workers, running, spawned, alive)
    ensures Keeps(workers, workers, spawned, spawned, alive, alive)
  {
  }

  /** Only the slot of `a` changed, and not if its worker is still alive. */
  lemma KeepsOne(before: Slots, after: Slots, running: Tasks, spawned: nat, later: nat, alive: set<nat>, alive': set<nat>, a: Address)
    requires Consistent(before, running, spawned, alive) && SameElsewhere(before, after, a)
    requires spawned <= later && alive' <= alive + {spawned}
    requires a in before && before[a].worker in alive' ==> a in after && after[a].worker == before[a].worker
    ensures Keeps(before, after, spawned, later, alive, alive')
  {
  }

  /** While workers only die, slots stay settled and kept, and a live settled slot says what is wanted. */
  lemma DeathsKeep(workers: Slots, running: Tasks, spawned: nat, alive: set<nat>, alive': set<nat>, desired: set<Address>, a: Address)
    requires Consistent(workers, running, spawned, alive') && alive' <= alive && AllSettled(workers, alive, desired, {})
    requires a in workers && a in desired
    ensures AllSettled(workers, alive', desired, {}) && Keeps(workers, workers, spawned, spawned, alive, alive')
    ensures workers[a].worker in alive' ==> workers[a].intent == CS.Maintain
  {
    DeathsSettle(workers, alive, alive', desired);
    assert Settled(workers, alive', desired, a);
  }

  /** A slot that was added says Maintain, and the others stay settled. */
  lemma AddedSettles(before: Slots, after: Slots, running: Tasks, spawned: nat, alive: set<nat>, alive': set<nat>,
                     desired: set<Address>, a: Address)
    requires Consistent(before, running, spawned, alive)
    requires SameElsewhere(before, after, a) && alive' <= alive + {spawned}
    requires AllSettled(before, alive, desired, {}) && a in desired && a in after && after[a].intent == CS.Maintain
    ensures AllSettled(after, alive', desired, {})
  {
    StayAllSettled(before, after, running, spawned, alive, alive', desired, {}, a);
    assert {} - {a} == {};
  }

  /** Every desired address has a worker that was alive before, or that was spawned since. */
  ghost predicate Staffed(workers: Slots, desired: set<Address>, spawned: nat, alive: set<nat>) {
    forall a :: a in desired ==> a in workers && (workers[a].worker in alive || spawned <= workers[a].worker)
  }

  /** Seen from further back. */
  lemma StaffedSince(workers: Slots, desired: set<Address>, before: Slots, mid: Slots, spawned: nat, later: nat, alive: set<nat>, alive': set<nat>)
    requires Staffed(workers, desired, later, alive') && Keeps(before, mid, spawned, later, alive, alive')
    ensures Staffed(workers, desired, spawned, alive)
  {
  }

  lemma StaffedNext(before: Slots, after: Slots, staffed: set<Address>, a: Address, spawned: nat, alive: set<nat>)
    requires SameElsewhere(before, after, a)
    requires Staffed(before, staffed, spawned, alive) && Staffed(after, {a}, spawned, alive)
    ensures Staffed(after, staffed + {a}, spawned, alive)
  {
    assert a in {a};
  }

  lemma KeepsOn(before: Slots, mid: Slots, after: Slots, spawned: nat, later: nat, last: nat,
                alive: set<nat>, alive': set<nat>, alive'': set<nat>)
    requires Keeps(before, mid, spawned, later, alive, alive') && Keeps(mid, after, later, last, alive', alive'')
    ensures Keeps(before, after, spawned, last, alive, alive'')
  {
  }

  /**
   * From `before`, `spawned` and `alive` to `after`, `later` and `alive'`: slots are settled, live
   * workers kept, and the addresses in `staffed` have workers told to maintain them.
   */
  ghost predicate Added(before: Slots, after: Slots, spawned: nat, later: nat, alive: set<nat>, alive': set<nat>,
                        wanted: set<Address>, staffed: set<Address>) {
    && AllSettled(after, alive', wanted, {}) && Keeps(before, after, spawned, later, alive, alive')
    && Staffed(after, staffed, spawned, alive)
    && forall a :: a in staffed ==> a in after && after[a].intent == CS.Maintain
  }

  lemma AddedYet(workers: Slots, running: Tasks, spawned: nat, alive: set<nat>, wanted: set<Address>)
    requires Consistent(workers, running, spawned, alive) && AllSettled(workers, alive, wanted, {})
    ensures Added(workers, workers, spawned, spawned, alive, alive, wanted, {})
  {
  }

  lemma AddedSettled(before: Slots, after: Slots, spawned: nat, later: nat, alive: set<nat>, alive': set<nat>,
                     wanted: set<Address>, staffed: set<Address>)
    requires Added(before, after, spawned, later, alive, alive', wanted, staffed)
    ensures AllSettled(after, alive', wanted, {})
  {
  }

  lemma AddedNext(before: Slots, mid: Slots, after: Slots, spawned: nat, later: nat, last: nat,
                  alive: set<nat>, alive': set<nat>, alive'': set<nat>, wanted: set<Address>, staffed: set<Address>, a: Address)
    requires Added(before, mid, spawned, later, alive, alive', wanted, staffed)
    requires Added(mid, after, later, last, alive', alive'', wanted, {a}) && SameElsewhere(mid, after, a)
    ensures Added(before, after, spawned, last, alive, alive'', wanted, staffed + {a})
  {
    hide AllSettled;
    KeepsOn(before, mid, after, spawned, later, last, alive, alive', alive'');
    assert a in {a};
    StaffedSince(after, {a}, before, mid, spawned, later, alive, alive');
    StaffedNext(mid, after, staffed, a, spawned, alive);
  }

  lemma AddedAll(before: Slots, after: Slots, spawned: nat, later: nat, alive: set<nat>, alive': set<nat>,
                 wanted: set<Address>, staffed: set<Address>, desired: seq<Address>)
    requires Added(before, after, spawned, later, alive, alive', wanted, staffed)
    requires forall j :: 0 <= j < |desired| ==> desired[j] in staffed
    ensures Added(before, after, spawned, later, alive, alive', wanted, (set a | a in desired))
  {
  }

  // ---------------------------------------------------------------------------------------------
  // Every reachable state
  // ---------------------------------------------------------------------------------------------

  datatype Pool = Pool(workers: Slots, running: Tasks, spawned: nat, alive: set<nat>)

  const NEW := Pool(map[], map[], 0, {})

  /** The changes the controller and its workers make. */
  datatype Change =
    | Spawn(address: Address, result: Result<(), string>)
    | Tell(address: Address, intent: Intent)
    | Drop(address: Address)
    | Die(dying: set<nat>)
    | Complete(worker: nat)

  predicate CanChange(p: Pool, c: Change) {
    match c
    case Spawn(a, _) => a !in p.workers
    case Tell(a, _) => a in p.workers && p.workers[a].worker in p.alive
    case Drop(a) => a in p.workers && p.workers[a].worker !in p.alive
    case Die(_) => true
    case Complete(w) => w in p.running
  }

  function Next(p: Pool, c: Change): Pool
    requires CanChange(p, c)
  {
    match c
    case Spawn(a, result) =>
      Pool(p.workers[a := Slot(p.spawned, GenerationOf(p.spawned), CS.Maintain)],
           p.running[p.spawned := Task(a, GenerationOf(p.spawned), result)],
           p.spawned + 1,
           p.alive + {p.spawned})
    case Tell(a, intent) => p.(workers := p.workers[a := p.workers[a].(intent := intent)])
    case Drop(a) => p.(workers := p.workers - {a})
    case Die(dying) => p.(alive := p.alive - dying)
    case Complete(w) =>
      p.(workers := AfterCompletion(p.workers, p.running[w]), running := p.running - {w}, alive := p.alive - {w})
  }

  datatype Changes = Changes(made: seq<Change>, pools: seq<Pool>)

  ghost predicate AreChanges(h: Changes) {
    && |h.pools| == |h.made| + 1
    && h.pools[0] == NEW
    && forall k :: 0 <= k < |h.made| ==> ChangesTo(h.pools[k], h.made[k], h.pools[k + 1])
  }

  ghost predicate ChangesTo(p: Pool, c: Change, p': Pool) {
    CanChange(p, c) && Next(p, c) == p'
  }

  /** A state the controller can get into. */
  ghost predicate Reached(p: Pool) {
    exists h: Changes :: AreChanges(h) && h.pools[|h.made|] == p
  }

  lemma NewIsReached()
    ensures Reached(NEW)
  {
    assert AreChanges(Changes([], [NEW]));
  }

  lemma ChangeReaches(p: Pool, c: Change)
    requires Reached(p) && CanChange(p, c)
    ensures Reached(Next(p, c))
  {
    var h: Changes :| AreChanges(h) && h.pools[|h.made|] == p;
    var longer := Changes(h.made + [c], h.pools + [Next(p, c)]);
    forall k | 0 <= k < |longer.made| ensures ChangesTo(longer.pools[k], longer.made[k], longer.pools[k + 1]) {
      if k < |h.made| { assert ChangesTo(h.pools[k], h.made[k], h.pools[k + 1]); }
    }
    assert AreChanges(longer);
  }

  ghost predicate Agrees(p: Pool) {
    Consistent(p.workers, p.running, p.spawned, p.alive)
  }

  lemma ChangeAgrees(p: Pool, c: Change)
    requires Agrees(p) && CanChange(p, c)
    ensures Agrees(Next(p, c))
  {
    match c
    case Spawn(a, result) => SpawnKeeps(p.workers, p.running, p.spawned, p.alive, a, result);
    case Tell(a, intent) => SendKeeps(p.workers, p.running, p.spawned, p.alive, a, intent);
    case Drop(a) => DropKeeps(p.workers, p.running, p.spawned, p.alive, a);
    case Die(_) =>
    case Complete(w) => ReapKeeps(p.workers, p.running, p.spawned, p.alive, w);
  }

  lemma {:induction false} ChangesAgree(h: Changes, k: nat)
    requires AreChanges(h) && k <= |h.made|
    ensures Agrees(h.pools[k])
  {
    if k > 0 {
      ChangesAgree(h, k - 1);
      assert ChangesTo(h.pools[k - 1], h.made[k - 1], h.pools[k]);
      ChangeAgrees(h.pools[k - 1], h.made[k - 1]);
    }
  }

  /** In every reachable state slots, outstanding futures and live workers agree. */
  lemma ReachedAgrees(p: Pool)
    requires Reached(p)
    ensures Agrees(p)
  {
    var h: Changes :| AreChanges(h) && h.pools[|h.made|] == p;
    ChangesAgree(h, |h.made|);
  }

  lemma PoolSteps(p: Pool, c: Change)
    requires Reached(p) && CanChange(p, c)
    ensures Reached(Next(p, c)) && Agrees(Next(p, c))
  {
    ChangeReaches(p, c);
    ReachedAgrees(Next(p, c));
  }

  /** In every reachable state before saturation: at most one live worker per address, and every outstanding generation belongs to one worker. */
  lemma OneLiveWorkerPerAddress(p: Pool, v: nat, w: nat)
    requires Reached(p) && p.spawned <= USIZE_MAX
    requires v in p.running && w in p.running && v != w
    ensures p.running[v].generation != p.running[w].generation
    ensures v in p.alive && w in p.alive ==> p.running[v].address != p.running[w].address
  {
    hide Reached;
    ReachedAgrees(p);
  }

  /** Once intent is replaced, a live worker owns its slot and is told to maintain exactly a desired address. */
  lemma LiveWorkersFollowIntent(p: Pool, desired: set<Address>, w: nat)
    requires Reached(p) && p.spawned <= USIZE_MAX
    requires IntentIs(p.workers, p.alive, desired) && w in p.alive
    ensures w in p.running && p.running[w].address in p.workers && p.workers[p.running[w].address].worker == w
    ensures p.workers[p.running[w].address].intent == CS.Maintain <==> p.running[w].address in desired
  {
    hide Reached;
    ReachedAgrees(p);
  }

  /**
   * In every reachable state the completion of a worker that no longer owns its address's slot is
   * mistaken for the current one exactly when both workers were spawned at or past saturation.
   */
  lemma StaleIsMistakenExactly(p: Pool, w: nat)
    requires Reached(p) && w in p.running
    requires p.running[w].address in p.workers && p.workers[p.running[w].address].worker != w
    ensures IsCurrent(p.workers, p.running[w])
       <==> w + 1 >= USIZE_MAX && p.workers[p.running[w].address].worker + 1 >= USIZE_MAX
  {
    hide Reached;
    ReachedAgrees(p);
    var owner := p.workers[p.running[w].address].worker;
    assert owner in p.running;
    if w < owner { GenerationsDistinctExactly(w, owner); } else { GenerationsDistinctExactly(owner, w); }
  }

  /** The state after a completion, part by part. */
  lemma ReapReaches(workers: Slots, running: Tasks, spawned: nat, alive: set<nat>, w: nat)
    requires Reached(Pool(workers, running, spawned, alive)) && w in running
    ensures Reached(Pool(AfterCompletion(workers, running[w]), running - {w}, spawned, alive - {w}))
  {
    ChangeReaches(Pool(workers, running, spawned, alive), Complete(w));
  }

  /** Workers that come and complete one after the other use up any number of generations. */
  lemma {:induction false} GenerationsRunOut(a: Address, n: nat)
    ensures Reached(Pool(map[], map[], n, {}))
  {
    if n == 0 {
      NewIsReached();
    } else {
      GenerationsRunOut(a, n - 1);
      var p := Pool(map[], map[], n - 1, {});
      ChangeReaches(p, Spawn(a, Ok(())));
      var q := Next(p, Spawn(a, Ok(())));
      ChangeReaches(q, Complete(n - 1));
      assert Next(q, Complete(n - 1)) == Pool(map[], map[], n, {});
    }
  }

  /**
   * A state that is reached past saturation: the worker of the only slot is alive, and the
   * completion of its dead predecessor clears that slot.
   */
  lemma StaleClearsPastSaturation(a: Address)
    ensures
      var old', new' := USIZE_MAX - 1, USIZE_MAX;
      var p := Pool(
        map[a := Slot(new', USIZE_MAX, CS.Maintain)],
        map[old' := Task(a, USIZE_MAX, Ok(())), new' := Task(a, USIZE_MAX, Ok(()))],
        USIZE_MAX + 1,
        {new'});
      Reached(p) && CanChange(p, Complete(old')) && Next(p, Complete(old')).workers == map[]
  {
    var old', new' := USIZE_MAX - 1, USIZE_MAX;
    GenerationsRunOut(a, old');
    var p0 := Pool(map[], map[], old', {});
    ChangeReaches(p0, Spawn(a, Ok(())));
    var p1 := Next(p0, Spawn(a, Ok(())));
    ChangeReaches(p1, Die({old'}));
    var p2 := Next(p1, Die({old'}));
    ChangeReaches(p2, Drop(a));
    var p3 := Next(p2, Drop(a));
    ChangeReaches(p3, Spawn(a, Ok(())));
  }
}
