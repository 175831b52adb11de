/**
 * The address controller, as the object whose fields its operations update. Workers may die, and
 * other threads may start or escalate shutdown and use the tracker, between any two of its steps.
 */
module Controller {
  import opened Prelude
  import opened Convergence
  import opened OrderlyShutdown
  import opened WorkerPool
  import CS = ConnectedStretch
  import Shutdown

  /** What the managed event loop can find ready. */
  datatype Ready = ApplyArrives(addresses: seq<Address>) | ApplyClosed | CompletionArrives | ShutdownChanged

  /** What workers may have made of the tracker. */
  datatype Left = Left(connected: set<Address>, carrying: map<Address, seq<Entry>>, nextConnection: nat)

  function LeftBy(t: Tracker, left: Left): Tracker {
    Tracker(t.assignment, left.connected, left.carrying, left.nextConnection)
  }

  /** What an event can change, but for the shutdown run. */
  datatype View = View(
    workers: Slots, running: Tasks, spawned: nat, alive: set<nat>,
    reaped: seq<Completion>, assignment: set<Address>, flag: bool)

  /**
   * What serving an event does; a result means the loop returns. An apply settles assignment and
   * intent, a closed channel and a shutdown flag return, and a completion returns exactly when it is
   * a failure. Returning drains, so every slot's worker is reaped.
   */
  ghost predicate Serves(ready: Ready, before: View, after: View, over: bool) {
    && before.reaped <= after.reaped && (before.flag ==> after.flag)
    && (over ==>
          && after.workers == map[] && after.running == map[] && after.alive == {}
          && Drained(before.workers, before.running, before.spawned, after.reaped[|before.reaped|..]))
    && (!ready.ApplyArrives? ==> after.assignment == before.assignment && after.spawned == before.spawned)
    && match ready
       case ApplyArrives(addresses) =>
         && !over && after.reaped == before.reaped
         && after.assignment == (set a | a in addresses) && IntentIs(after.workers, after.alive, after.assignment)
         && KeepsLive(before.workers, after.workers, after.alive)
         && Staffed(after.workers, after.assignment, before.spawned, before.alive)
       case ApplyClosed => over && after.flag
       case CompletionArrives =>
         if before.workers == map[] then !over && after.workers == map[] && after.reaped == before.reaped
         else
           && |before.reaped| < |after.reaped|
           && (over <==> after.reaped[|before.reaped|].result.Err?)
           && (!over ==>
                 && |after.reaped| == |before.reaped| + 1
                 && Reaped(before.workers, after.workers, before.running, before.spawned, after.reaped[|before.reaped|]))
       case ShutdownChanged =>
         && (before.flag ==> over) && (over ==> after.flag)
         && (!over ==> after.workers == before.workers && after.reaped == before.reaped)
  }

  /** The events of a script served one after the other; only the last one may return. */
  ghost predicate ServesAll(script: seq<Ready>, views: seq<View>, returned: bool) {
    && 0 < |views| <= |script| + 1
    && (!returned ==> |views| == |script| + 1) && (returned ==> |views| > 1)
    && forall i :: 0 <= i < |views| - 1 ==> Serves(script[i], views[i], views[i + 1], returned && i == |views| - 2)
  }

  lemma ServesNext(script: seq<Ready>, views: seq<View>, after: View, over: bool)
    requires 0 < |views| <= |script|
    requires forall i :: 0 <= i < |views| - 1 ==> Serves(script[i], views[i], views[i + 1], false)
    requires Serves(script[|views| - 1], views[|views| - 1], after, over)
    ensures
      var longer := views + [after];
      forall i :: 0 <= i < |longer| - 1 ==> Serves(script[i], longer[i], longer[i + 1], over && i == |longer| - 2)
  {
    var longer := views + [after];
    forall i | 0 <= i < |longer| - 1 ensures Serves(script[i], longer[i], longer[i + 1], over && i == |longer| - 2) {
      if i < |views| - 1 { assert Serves(script[i], views[i], views[i + 1], false); }
    }
  }

  class AddressController {
    var workers: map<Address, Slot>
    var running: map<nat, Task>
    var spawned: nat
    var nextGeneration: nat
    var workerCount: nat
    var alive: set<nat>
    /** The shutdown handle it shares with other threads; in it, the controller is thread `me`. */
    const control: Handle
    const me: nat
    /** History: completions of current workers, oldest first. */
    ghost var reaped: seq<Completion>

    ghost function State(): Pool
      reads this
    {
      Pool(workers, running, spawned, alive)
    }

    ghost predicate Valid()
      reads this, control
    {
      && workerCount == |workers| % U64_LIMIT
      && nextGeneration == GenerationOf(spawned)
      && Reached(State()) && Consistent(workers, running, spawned, alive)
      && control.Valid() && me !in control.Now().callers
    }

    constructor (control: Handle, me: nat)
      requires control.Valid() && me !in control.Now().callers
      ensures Valid() && this.control == control && this.me == me
      ensures workers == map[] && running == map[] && reaped == []
    {
      workers, running, alive := map[], map[], {};
      spawned, nextGeneration, workerCount := 0, 1, 0;
      this.control, this.me := control, me;
      reaped := [];
      new;
      NewIsReached();
    }

    /** The shutdown run went on, the flag was not taken back, and this controller made internal stops only. */
    twostate predicate ModeMoved()
      requires old(Valid()) && Valid()
      reads this, control
    {
      && old(control.run.actions) <= control.run.actions
      && (old(control.flag) ==> control.flag)
      && OnlyStops(old(control.Now()), control.Now(), me)
    }

    /** Workers die, and other threads take any steps of theirs toward shutdown. */
    method OthersRun()
      requires Valid()
      modifies this`alive, control
      ensures Valid() && ModeMoved()
      ensures alive <= old(alive)
    {
      var dying: set<nat> := *;
      PoolSteps(State(), Die(dying));
      alive := alive - dying;
      ghost var m := control.Now();
      control.OthersRun(me);
      NoneAreOnlyStops(m, control.Now(), me);
    }

    method DropSlot(a: Address)
      requires Valid() && a in workers && workers[a].worker !in alive
      modifies this`workers, this`workerCount
      ensures Valid() && workers == old(workers) - {a}
    {
      CountsWrap(|workers|);
      DropKeeps(workers, running, spawned, alive, a);
      PoolSteps(State(), Drop(a));
      workers := workers - {a};
      workerCount := CountDown(workerCount);
    }

    /** Spawn a worker for an address without a slot; what it will come to is not known yet. */
    method SpawnWorker(a: Address)
      requires Valid() && a !in workers
      modifies this`workers, this`running, this`spawned, this`nextGeneration, this`workerCount, this`alive
      ensures Valid()
      ensures workers == old(workers)[a := Slot(old(spawned), GenerationOf(old(spawned)), CS.Maintain)]
      ensures old(spawned) in running && running == old(running)[old(spawned) := running[old(spawned)]]
      ensures running[old(spawned)].address == a && running[old(spawned)].generation == GenerationOf(old(spawned))
      ensures spawned == old(spawned) + 1 && alive == old(alive) + {old(spawned)}
    {
      hide Consistent;
      CountsWrap(|workers|);
      NextGenerationIs(spawned);
      var result: Result<(), string> := *;
      PoolSteps(State(), Spawn(a, result));
      var worker, generation := spawned, nextGeneration;
      nextGeneration := SaturatingAdd(nextGeneration, 1);
      spawned := spawned + 1;
      running := running[worker := Task(a, generation, result)];
      alive := alive + {worker};
      workers := workers[a := Slot(worker, generation, CS.Maintain)];
      workerCount := CountUp(workerCount);
    }

    /** Whether the slot's worker still holds its channel at the moment of asking. */
    method SlotIsLive(a: Address) returns (live: bool)
      requires Valid() && a in workers
      modifies this`alive, control
      ensures Valid() && ModeMoved() && alive <= old(alive)
      ensures live <==> workers[a].worker in alive
    {
      OthersRun();
      live := workers[a].worker in alive;
    }

    /** Send an intent to the slot's worker; it is stored only if the worker is still alive. */
    method Send(a: Address, intent: Intent)
      requires Valid() && a in workers
      modifies this`workers, this`alive, control
      ensures Valid() && ModeMoved() && alive <= old(alive)
      ensures a in workers && workers == old(workers)[a := old(workers[a]).(intent := workers[a].intent)]
      ensures workers[a].worker in alive ==> workers[a].intent == intent
    {
      OthersRun();
      if workers[a].worker in alive {
        SendKeeps(workers, running, spawned, alive, a, intent);
        PoolSteps(State(), Tell(a, intent));
        workers := workers[a := workers[a].(intent := intent)];
      }
    }

    /** Give an address a new worker in place of one that died, if it had one. */
    method Replace(a: Address)
      requires Valid()
      requires a in workers ==> workers[a].worker !in alive
      modifies this`workers, this`running, this`spawned, this`nextGeneration, this`workerCount, this`alive
      ensures Valid()
      ensures a in workers && workers[a] == Slot(old(spawned), GenerationOf(old(spawned)), CS.Maintain)
      ensures SameElsewhere(old(workers), workers, a)
      ensures spawned == old(spawned) + 1 && alive == old(alive) + {old(spawned)}
    {
      hide Consistent, Reached, Shutdown.IsRun, SameElsewhere;
      if a in workers {
        DropSlot(a);
      }
      SpawnWorker(a);
      ReplacedElsewhere(old(workers), a, workers[a]);
      assert workers == (old(workers) - {a})[a := workers[a]];
    }

    /** Re-adopt a live worker: its slot says Maintain on return unless the worker died meanwhile. */
    method Keep(a: Address) returns (added: bool)
      requires Valid() && a in workers
      modifies this`workers, this`alive, control
      ensures Valid() && ModeMoved() && alive <= old(alive)
      ensures a in workers && workers[a].worker == old(workers[a].worker) && SameElsewhere(old(workers), workers, a)
      ensures workers[a].intent == CS.Maintain || (added && workers[a].worker !in alive)
      ensures !added <==> old(workers[a].intent) == CS.Maintain
    {
      hide Consistent, Reached, OnlyStops, Shutdown.IsRun;
      OnlyStopsYet(control.Now(), me);
      if workers[a].intent == CS.Maintain {
        return false;
      }
      Send(a, CS.Maintain);
      added := true;
    }

    /**
     * On return the address has a slot, which says Maintain unless its worker died during the
     * call. A live worker is kept, whatever its intent was, and only a dead one is replaced.
     */
    method Add(a: Address) returns (added: bool)
      requires Valid()
      modifies this`workers, this`running, this`spawned, this`nextGeneration, this`workerCount
      modifies this`alive, control
      ensures Valid() && ModeMoved()
      ensures a in workers && SameElsewhere(old(workers), workers, a)
      ensures workers[a].intent == CS.Maintain || workers[a].worker !in alive
      ensures a !in old(workers) || old(workers[a].worker !in alive) ==>
        added && workers[a].worker == old(spawned) && workers[a].intent == CS.Maintain
      ensures a in old(workers) && old(workers[a].intent) == CS.Maintain && old(workers[a].worker) in alive ==> !added
      ensures workers[a].worker in old(alive) || workers[a].worker == old(spawned)
      ensures !added ==> a in old(workers) && old(workers[a].intent) == CS.Maintain == workers[a].intent
      ensures a in old(workers) && workers[a].worker != old(workers[a].worker) ==> old(workers[a].worker) !in alive
      ensures old(spawned) <= spawned && alive <= old(alive) + {old(spawned)}
    {
      hide Consistent, Reached, OnlyStops, Shutdown.IsRun;
      ghost var m := control.Now();
      OnlyStopsYet(m, me);
      SlotsWereSpawned(workers, running, spawned, alive);
      if a in workers {
        var live := SlotIsLive(a);
        ghost var m1 := control.Now();
        if live {
          added := Keep(a);
          OnlyStopsOn(m, m1, control.Now(), me);
          return;
        }
      }
      Replace(a);
      added := true;
    }

    /** Tell the address's worker to retire, if there is one to tell. */
    method Remove(a: Address) returns (removed: bool)
      requires Valid()
      modifies this`workers, this`alive, control
      ensures Valid() && ModeMoved() && alive <= old(alive)
      ensures workers.Keys == old(workers).Keys && SameElsewhere(old(workers), workers, a)
      ensures a in workers ==> workers[a] == old(workers[a]).(intent := workers[a].intent)
      ensures a in workers ==> workers[a].intent == CS.Retire || workers[a].worker !in alive
      ensures removed ==> a in workers
      ensures !removed ==> workers == old(workers) && (a in workers ==> workers[a].worker !in alive)
    {
      hide Consistent, Reached, OnlyStops, Shutdown.IsRun;
      ghost var m := control.Now();
      OnlyStopsYet(m, me);
      if a !in workers {
        return false;
      }
      var live := SlotIsLive(a);
      if !live {
        return false;
      }
      ghost var m1 := control.Now();
      Send(a, CS.Retire);
      OnlyStopsOn(m, m1, control.Now(), me);
      removed := true;
    }

    /** Turn a worker back from Retire to Maintain; no worker is spawned for it. */
    method ReAdopt(a: Address) returns (adopted: bool)
      requires Valid()
      modifies this`workers, this`alive, control
      ensures Valid() && ModeMoved() && alive <= old(alive)
      ensures workers.Keys == old(workers).Keys && SameElsewhere(old(workers), workers, a)
      ensures a in workers ==> workers[a] == old(workers[a]).(intent := workers[a].intent)
      ensures adopted ==> a in workers && (workers[a].intent == CS.Maintain || workers[a].worker !in alive)
      ensures !adopted && a in workers && workers[a].intent == CS.Retire ==> workers[a].worker !in alive
      ensures !adopted ==> workers == old(workers)
    {
      hide Consistent, Reached, OnlyStops, Shutdown.IsRun;
      ghost var m := control.Now();
      OnlyStopsYet(m, me);
      if a !in workers {
        return false;
      }
      var live := SlotIsLive(a);
      if !live || workers[a].intent != CS.Retire {
        return false;
      }
      ghost var m1 := control.Now();
      Send(a, CS.Maintain);
      OnlyStopsOn(m, m1, control.Now(), me);
      adopted := true;
    }

    /** Settle the slot of one existing address. */
    method SettleExisting(a: Address, desired: set<Address>)
      requires Valid() && a in workers
      modifies this`workers, this`workerCount, this`alive, control
      ensures Valid() && ModeMoved() && alive <= old(alive)
      ensures SameElsewhere(old(workers), workers, a)
      ensures Settled(workers, alive, desired, a)
      ensures KeepsLive(old(workers), workers, alive)
    {
      hide Consistent, Reached, OnlyStops, Shutdown.IsRun;
      OnlyStopsYet(control.Now(), me);
      if a in desired {
        if workers[a].intent == CS.Retire {
          var adopted := ReAdopt(a);
          if !adopted {
            DropSlot(a);
          }
        }
      } else if workers[a].intent == CS.Maintain {
        var _ := Remove(a);
      }
    }

    /** The first pass: removals and re-adoptions, in any order of the existing slots. */
    method SettleAll(wanted: set<Address>)
      requires Valid()
      modifies this`workers, this`workerCount, this`alive, control
      ensures Valid() && ModeMoved()
      ensures AllSettled(workers, alive, wanted, {})
      ensures KeepsLive(old(workers), workers, alive) && alive <= old(alive)
    {
      hide Reached, OnlyStops, Shutdown.IsRun;
      OnlyStopsYet(control.Now(), me);
      var todo := workers.Keys;
      while todo != {}
        invariant Valid() && ModeMoved() && todo <= workers.Keys
        invariant AllSettled(workers, alive, wanted, todo)
        invariant KeepsLive(old(workers), workers, alive) && alive <= old(alive)
        decreases todo
      {
        var a :| a in todo;
        ghost var before, alive0, m := workers, alive, control.Now();
        SettleExisting(a, wanted);
        OnlyStopsOn(old(control.Now()), m, control.Now(), me);
        StayAllSettled(before, workers, running, spawned, alive0, alive, wanted, todo, a);
        todo := todo - {a};
      }
    }

    /** The second pass: every desired address without a live worker gets one. */
    method AddMissing(desired: seq<Address>, ghost wanted: set<Address>)
      requires Valid() && AllSettled(workers, alive, wanted, {})
      requires forall a :: a in desired ==> a in wanted
      modifies this`workers, this`running, this`spawned, this`nextGeneration, this`workerCount
      modifies this`alive, control
      ensures Valid() && ModeMoved()
      ensures Added(old(workers), workers, old(spawned), spawned, old(alive), alive, wanted, (set a | a in desired))
    {
      hide Consistent, Reached, OnlyStops, Shutdown.IsRun, Added, AllSettled, SameElsewhere;
      OnlyStopsYet(control.Now(), me);
      AddedYet(workers, running, spawned, alive, wanted);
      ghost var staffed: set<Address> := {};
      for i := 0 to |desired|
        invariant Valid() && ModeMoved()
        invariant Added(old(workers), workers, old(spawned), spawned, old(alive), alive, wanted, staffed)
        invariant forall j :: 0 <= j < i ==> desired[j] in staffed
      {
        ghost var m, mid, alive0, spawned0 := control.Now(), workers, alive, spawned;
        AddedSettled(old(workers), mid, old(spawned), spawned0, old(alive), alive0, wanted, staffed);
        AddIfMissing(desired[i], wanted);
        OnlyStopsOn(old(control.Now()), m, control.Now(), me);
        AddedNext(old(workers), mid, workers, old(spawned), spawned0, spawned, old(alive), alive0, alive, wanted, staffed, desired[i]);
        staffed := staffed + {desired[i]};
      }
      AddedAll(old(workers), workers, old(spawned), spawned, old(alive), alive, wanted, staffed, desired);
    }

    method AddIfMissing(a: Address, ghost wanted: set<Address>)
      requires Valid() && AllSettled(workers, alive, wanted, {}) && a in wanted
      modifies this`workers, this`running, this`spawned, this`nextGeneration, this`workerCount
      modifies this`alive, control
      ensures Valid() && ModeMoved() && SameElsewhere(old(workers), workers, a)
      ensures Added(old(workers), workers, old(spawned), spawned, old(alive), alive, wanted, {a})
    {
      hide Consistent, Reached, OnlyStops, Shutdown.IsRun, Keeps, AllSettled, Settled;
      OnlyStopsYet(control.Now(), me);
      KeepsYet(workers, running, spawned, alive);
      if a in workers {
        var live := SlotIsLive(a);
        DeathsKeep(workers, running, spawned, old(alive), alive, wanted, a);
        if live {
          return;
        }
      }
      ghost var before, running0, spawned0, alive0, m := workers, running, spawned, alive, control.Now();
      var _ := Add(a);
      OnlyStopsOn(old(control.Now()), m, control.Now(), me);
      AddedSettles(before, workers, running0, spawned0, alive0, alive, wanted, a);
      KeepsOne(before, workers, running0, spawned0, spawned, alive0, alive, a);
      KeepsOn(old(workers), before, workers, old(spawned), spawned0, spawned, old(alive), alive0, alive);
    }

    /**
     * Replace maintenance intent. However workers die meanwhile, on return every desired address
     * has a slot saying Maintain, and a slot of any other address says Retire or its worker is dead.
     * A worker that is still alive keeps its slot.
     */
    method ReplaceIntent(desired: seq<Address>)
      requires Valid()
      modifies this`workers, this`running, this`spawned, this`nextGeneration, this`workerCount
      modifies this`alive, control
      ensures Valid() && ModeMoved()
      ensures IntentIs(workers, alive, set a | a in desired)
      ensures KeepsLive(old(workers), workers, alive)
      ensures Staffed(workers, (set a | a in desired), old(spawned), old(alive))
    {
      hide Consistent, Reached, OnlyStops, Shutdown.IsRun, KeepsLive;
      var wanted := set a | a in desired;
      KeepsYet(workers, running, spawned, alive);
      SettleAll(wanted);
      ghost var m, mid, alive0 := control.Now(), workers, alive;
      AddMissing(desired, wanted);
      OnlyStopsOn(old(control.Now()), m, control.Now(), me);
      KeepsOn(old(workers), mid, workers, old(spawned), old(spawned), spawned, old(alive), alive0, alive);
      StaffedSince(workers, wanted, old(workers), mid, old(spawned), old(spawned), old(alive), alive0);
      forall a | a in workers && a !in wanted
        ensures workers[a].intent == CS.Retire || workers[a].worker !in alive
      {
        assert Settled(workers, alive, wanted, a);
      }
    }

    /** Workers use the tracker and leave this behind; only the controller changes the assignment. */
    method OthersTrack(tracker: AssignmentConvergenceTracker, left: Left)
      modifies tracker
      ensures tracker.State() == LeftBy(old(tracker.State()), left)
    {
      tracker.connected, tracker.carrying, tracker.nextConnection := left.connected, left.carrying, left.nextConnection;
    }

    /**
     * One managed apply, up to its acknowledgment: the tracker's assignment and the controller's
     * intent then describe the same addresses, whatever the workers do to the tracker meanwhile.
     * They leave `others[0]` before the assignment is replaced, `others[1]` before a second look at
     * the status, and `others[2]` and `others[3]` before and after intent is replaced. The status is
     * the one the replacement announced, or else the tracker's at that second look.
     */
    method Apply(tracker: AssignmentConvergenceTracker, addresses: seq<Address>, others: seq<Left>) returns (status: Status)
      requires Valid() && |others| == 4
      modifies tracker
      modifies this`workers, this`running, this`spawned, this`nextGeneration, this`workerCount
      modifies this`alive, control
      ensures Valid() && ModeMoved()
      ensures
        var before := LeftBy(old(tracker.State()), others[0]);
        var replaced := SetAssigned(before, addresses);
        && status == (if Current(replaced) != Current(before) then Current(replaced) else Current(LeftBy(replaced, others[1])))
        && tracker.State() == LeftBy(replaced, others[3])
      ensures IntentIs(workers, alive, tracker.assignment)
      ensures KeepsLive(old(workers), workers, alive)
      ensures Staffed(workers, tracker.assignment, old(spawned), old(alive))
    {
      hide Reached, OnlyStops, Shutdown.IsRun;
      OthersTrack(tracker, others[0]);
      var change := tracker.ReplaceAssigned(addresses);
      if change.Some? {
        status := change.value;
      } else {
        OthersTrack(tracker, others[1]);
        status := Current(tracker.State());
      }
      OthersTrack(tracker, others[2]);
      ReplaceIntent(addresses);
      OthersTrack(tracker, others[3]);
    }

    /** Worker `w` completes: its future leaves the pool, and its slot goes if the completion is current. */
    method Reap(w: nat) returns (completion: Option<Completion>)
      requires Valid() && w in running
      modifies this`workers, this`running, this`workerCount, this`alive, this`reaped
      ensures Valid() && running == old(running) - {w} && |running| == |old(running)| - 1 && alive == old(alive) - {w}
      ensures workers == AfterCompletion(old(workers), old(running)[w])
      ensures completion.Some? <==> IsCurrent(old(workers), old(running)[w])
      ensures completion.Some? ==> completion.value == Completion(w, old(running)[w].address, old(running)[w].result)
      ensures reaped == old(reaped) + (if completion.Some? then [completion.value] else [])
      ensures spawned <= USIZE_MAX ==> SlotsLeaveWithTheirFutures(old(workers), workers, running)
    {
      hide Consistent, Reached, SlotsLeaveWithTheirFutures, Shutdown.IsRun;
      ReapKeeps(workers, running, spawned, alive, w);
      ReapReaches(workers, running, spawned, alive, w);
      CountsWrap(|workers|);
      var Task(a, generation, result) := running[w];
      running, alive := running - {w}, alive - {w};
      if !(a in workers && workers[a].generation == generation) {
        return None;
      }
      workers := workers - {a};
      workerCount := CountDown(workerCount);
      completion := Some(Completion(w, a, result));
      reaped := reaped + [completion.value];
    }

    /**
     * Reap futures until one belongs to a slot, which then goes; a replaced worker's completion
     * changes no slot. There is such a completion exactly when there is a slot, and before
     * saturation it is the slot's own worker that is reaped, so a stale completion never clears a
     * respawned slot.
     */
    method NextCompletion() returns (completion: Option<Completion>)
      requires Valid()
      modifies this`workers, this`running, this`workerCount, this`alive, control, this`reaped
      ensures Valid() && ModeMoved() && TasksKept(running, old(running))
      ensures completion.Some? <==> old(workers) != map[]
      ensures completion.None? ==> running == map[] && workers == map[] && reaped == old(reaped)
      ensures completion.Some? ==> reaped == old(reaped) + [completion.value] && |running| < |old(running)|
      ensures completion.Some? ==> Reaped(old(workers), workers, old(running), spawned, completion.value)
      ensures spawned <= USIZE_MAX ==> SlotsLeaveWithTheirFutures(old(workers), workers, running)
    {
      hide Consistent, Reached, OnlyStops, Shutdown.IsRun;
      OnlyStopsYet(control.Now(), me);
      completion := None;
      while running != map[]
        invariant Valid() && ModeMoved() && TasksKept(running, old(running))
        invariant workers == old(workers) && reaped == old(reaped) && completion.None?
        invariant |running| <= |old(running)|
        decreases |running|
      {
        ghost var m := control.Now();
        OthersRun();
        OnlyStopsOn(old(control.Now()), m, control.Now(), me);
        var w :| w in running;
        CurrentOwns(workers, running, spawned, alive, w);
        completion := Reap(w);
        if completion.Some? {
          return;
        }
      }
      NothingOutstanding(workers, running, spawned, alive);
    }

    /**
     * A wait for a completion that is given up because another event is served first: it may have
     * reaped completions of replaced workers.
     */
    method SkipStale()
      requires Valid()
      modifies this`workers, this`running, this`workerCount, this`alive, this`reaped
      ensures Valid() && TasksKept(running, old(running))
      ensures workers == old(workers) && reaped == old(reaped) && alive <= old(alive)
    {
      hide Consistent, Reached, Shutdown.IsRun;
      var steps: nat := *;
      while steps > 0
        invariant Valid() && TasksKept(running, old(running))
        invariant workers == old(workers) && reaped == old(reaped) && alive <= old(alive)
      {
        var w: nat := *;
        if w in running && !IsCurrent(workers, running[w]) {
          var _ := Reap(w);
        }
        steps := steps - 1;
      }
    }

    /**
     * An internal stop by this controller. It makes a request, operation `at`, exactly when it read
     * no mode, and that turns Graceful into Fast exactly when Graceful started after the read.
     */
    method RequestShutdown() returns (read: Option<Shutdown.Mode>, ghost readAt: nat, ghost at: nat)
      requires Valid()
      modifies control
      ensures Valid() && ModeMoved() && control.flag
      ensures if read.None? then OneBy(old(control.Now()), control.Now(), me, at) else NoneBy(old(control.Now()), control.Now(), me)
      ensures read.None? ==>
        (control.Now().history[at].response == Shutdown.EscalatedToFast
         <==> exists n :: Shutdown.StartsGraceful(control.Now().history, n, readAt, at))
      ensures |old(control.Now()).history| <= readAt
    {
      ghost var m := control.Now();
      read, readAt, at := control.RequestShutdown(me);
      if read.None? {
        ghost var answer :| Began(m, control.Now(), me, Some(readAt), Shutdown.Op(me, Shutdown.Fast, answer), at);
        StopIsOnlyStop(m, control.Now(), me, readAt, Shutdown.Op(me, Shutdown.Fast, answer), at);
      } else {
        NoneAreOnlyStops(m, control.Now(), me);
      }
    }

    /** Reap one more worker; the first failure requests shutdown. */
    method DrainNext(first: Option<string>) returns (more: bool, error: Option<string>)
      requires Valid()
      modifies this`workers, this`running, this`workerCount, this`alive, control, this`reaped
      ensures Valid() && ModeMoved() && TasksKept(running, old(running))
      ensures more <==> old(workers) != map[]
      ensures !more ==> running == map[] && workers == map[] && reaped == old(reaped)
      ensures more ==> |running| < |old(running)| && |reaped| == |old(reaped)| + 1 && old(reaped) <= reaped
      ensures more ==> Reaped(old(workers), workers, old(running), spawned, reaped[|old(reaped)|])
      ensures more ==> error == EarliestError(first, [reaped[|old(reaped)|]])
      ensures more && first.None? && error.Some? ==> control.flag
    {
      hide Consistent, Reached, OnlyStops, Shutdown.IsRun, Reaped;
      ghost var m := control.Now();
      var completion := NextCompletion();
      if completion.None? {
        return false, first;
      }
      more, error := true, first;
      if completion.value.result.Err? {
        if first.None? {
          ghost var m1 := control.Now();
          var _, _, _ := RequestShutdown();
          OnlyStopsOn(m, m1, control.Now(), me);
          error := Some(completion.value.result.error);
        }
      }
    }

    /**
     * Wait until every worker has finished. It ends because each completion removes a future, and
     * it leaves no slot, no future and no live worker. Every slot's worker is reaped once, before
     * saturation with the result that worker came to, and the error returned is the one handed in or
     * else the earliest one reaped. Such a failure has already requested shutdown, and turned
     * Graceful into Fast only if Graceful started between the stop's read and its request.
     */
    method Drain(first: Option<string>) returns (result: Result<(), string>)
      requires Valid()
      modifies this`workers, this`running, this`workerCount, this`alive, control, this`reaped
      ensures Valid() && ModeMoved()
      ensures workers == map[] && running == map[] && alive == {}
      ensures old(reaped) <= reaped && Drained(old(workers), old(running), spawned, reaped[|old(reaped)|..])
      ensures result == Report(EarliestError(first, reaped[|old(reaped)|..]))
      ensures ReturnsFirst(first, reaped[|old(reaped)|..], result)
      ensures first.None? && spawned <= USIZE_MAX ==> (result.Ok? <==> NoneFails(old(workers), old(running)))
      ensures first.None? && result.Err? ==> control.flag && control.state > 0
      ensures SparesGraceful(old(control.Now()), control.Now(), me)
    {
      hide Consistent, Reached, SparesGraceful, OnlyStops, Shutdown.IsRun, Draining, Drained, Reaped, TasksKept, NoneFails, ReturnsFirst;
      OnlyStopsYet(control.Now(), me);
      DrainingYet(workers, running, spawned);
      var firstError := first;
      ghost var got: seq<Completion> := [];
      while workers != map[] || running != map[]
        invariant Valid() && ModeMoved()
        invariant reaped == old(reaped) + got
        invariant Draining(old(workers), workers, old(running), running, spawned, got)
        invariant firstError == EarliestError(first, got)
        invariant first.None? && firstError.Some? ==> control.flag
        decreases |running|
      {
        ghost var m, mid, left, n := control.Now(), workers, running, |reaped|;
        var more, error := DrainNext(firstError);
        OnlyStopsOn(old(control.Now()), m, control.Now(), me);
        if !more {
          StaysDraining(old(workers), old(running), left, running, spawned, got);
          break;
        }
        DrainingNext(old(workers), mid, workers, old(running), left, running, spawned, got, reaped[n]);
        EarliestErrorSnoc(first, got, reaped[n]);
        got := got + [reaped[n]];
        firstError := error;
      }
      NothingOutstanding(workers, running, spawned, alive);
      OnlyStopsSpareGraceful(control.run, old(control.Now()), me);
      DrainingEnds(old(workers), old(running), running, spawned, got);
      ReportReturnsFirst(first, got);
      assert reaped[|old(reaped)|..] == got;
      result := if firstError.Some? then Err(firstError.value) else Ok(());
    }

    ghost function Seen(tracker: AssignmentConvergenceTracker): View
      reads this, control, tracker
    {
      View(workers, running, spawned, alive, reaped, tracker.assignment, control.flag)
    }

    /**
     * The managed event loop on a script of ready events. It serves them in turn, from view to view,
     * until one makes it return. When it returns, every worker has finished, and it fails exactly with
     * the earliest worker error since it was entered. A graceful shutdown that starts while it runs
     * becomes Fast through another thread, or through a stop of its own that had read no mode before
     * that start.
     */
    method Run(tracker: AssignmentConvergenceTracker, script: seq<Ready>)
      returns (result: Option<Result<(), string>>, ghost views: seq<View>)
      requires Valid()
      modifies this, control, tracker
      ensures Valid() && ModeMoved()
      ensures SparesGraceful(old(control.Now()), control.Now(), me)
      ensures ServesAll(script, views, result.Some?)
      ensures views[0] == old(Seen(tracker)) && views[|views| - 1] == Seen(tracker)
      ensures old(reaped) <= reaped
      ensures ReturnsFirst(None, reaped[|old(reaped)|..], if result.Some? then result.value else Ok(()))
    {
      hide Consistent, Reached, SparesGraceful, OnlyStops, Shutdown.IsRun, Serves, ReturnsFirst;
      result, views := None, [Seen(tracker)];
      OnlyStopsYet(control.Now(), me);
      var i := 0;
      while i < |script| && result.None?
        invariant 0 <= i <= |script| && |views| == i + 1 && (result.Some? ==> i > 0)
        invariant Valid() && ModeMoved()
        invariant old(reaped) <= reaped
        invariant result == if result.Some? then Some(Report(EarliestError(None, reaped[|old(reaped)|..]))) else None
        invariant result.None? ==> EarliestError(None, reaped[|old(reaped)|..]).None?
        invariant views[0] == old(Seen(tracker)) && views[i] == Seen(tracker)
        invariant forall j :: 0 <= j < i ==> Serves(script[j], views[j], views[j + 1], result.Some? && j == i - 1)
      {
        ghost var m := control.Now();
        result := Serve(tracker, script[i], |old(reaped)|);
        OnlyStopsOn(old(control.Now()), m, control.Now(), me);
        ServesNext(script, views, Seen(tracker), result.Some?);
        views := views + [Seen(tracker)];
        i := i + 1;
      }
      OnlyStopsSpareGraceful(control.run, old(control.Now()), me);
      ReportReturnsFirst(None, reaped[|old(reaped)|..]);
    }

    /**
     * Serve one ready event, after anything others did and after a wait for a completion that was
     * given up.
     */
    method Serve(tracker: AssignmentConvergenceTracker, ready: Ready, ghost since: nat) returns (result: Option<Result<(), string>>)
      requires Valid() && since <= |reaped| && EarliestError(None, reaped[since..]).None?
      modifies this, control, tracker
      ensures Valid() && ModeMoved() && old(reaped) <= reaped
      ensures Serves(ready, old(Seen(tracker)), Seen(tracker), result.Some?)
      ensures result.Some? ==> result.value == Report(EarliestError(None, reaped[since..]))
      ensures result.None? ==> EarliestError(None, reaped[since..]).None?
    {
      hide Consistent, Reached, OnlyStops, Shutdown.IsRun, Drained, Reaped, IntentIs, KeepsLive;
      ghost var m := control.Now();
      OthersRun();
      var left: Left := *;
      OthersTrack(tracker, left);
      SkipStale();
      ghost var m1, tasks := control.Now(), running;
      match ready {
        case ApplyArrives(addresses) =>
          var before: Left, second: Left, between: Left, after: Left := *, *, *, *;
          var _ := Apply(tracker, addresses, [before, second, between, after]);
          OnlyStopsOn(m, m1, control.Now(), me);
        case ApplyClosed =>
          var drained := StopAndDrain(None, since);
          OnlyStopsOn(m, m1, control.Now(), me);
          DrainedEarlier(old(workers), old(running), tasks, spawned, reaped[|old(reaped)|..]);
          return Some(drained);
        case CompletionArrives =>
          result := ServeCompletion(since);
          OnlyStopsOn(m, m1, control.Now(), me);
          if result.Some? {
            DrainedEarlier(old(workers), old(running), tasks, spawned, reaped[|old(reaped)|..]);
          } else if old(workers) != map[] {
            ReapedEarlier(old(workers), workers, old(running), tasks, spawned, reaped[|old(reaped)|]);
          }
          return;
        case ShutdownChanged =>
          if control.flag {
            var drained := DrainFrom(None, since);
            OnlyStopsOn(m, m1, control.Now(), me);
            DrainedEarlier(old(workers), old(running), tasks, spawned, reaped[|old(reaped)|..]);
            return Some(drained);
          }
      }
      result := None;
    }

    /** Reap the next completion; a failure stops and drains. */
    method ServeCompletion(ghost since: nat) returns (result: Option<Result<(), string>>)
      requires Valid() && since <= |reaped| && EarliestError(None, reaped[since..]).None?
      modifies this`workers, this`running, this`workerCount, this`alive, control, this`reaped
      ensures Valid() && ModeMoved() && old(reaped) <= reaped
      ensures result.Some? ==> workers == map[] && running == map[] && alive == {}
      ensures result.Some? ==> result.value == Report(EarliestError(None, reaped[since..]))
      ensures result.None? ==> EarliestError(None, reaped[since..]).None?
      ensures result.Some? ==> Drained(old(workers), old(running), spawned, reaped[|old(reaped)|..])
      ensures old(workers) == map[] ==> result.None? && workers == map[] && reaped == old(reaped)
      ensures old(workers) != map[] ==>
        && |old(reaped)| < |reaped|
        && (result.Some? <==> reaped[|old(reaped)|].result.Err?)
        && (result.None? ==> |reaped| == |old(reaped)| + 1 && Reaped(old(workers), workers, old(running), spawned, reaped[|old(reaped)|]))
    {
      hide Consistent, Reached, OnlyStops, Shutdown.IsRun, Drained, Reaped;
      ghost var m := control.Now();
      OnlyStopsYet(m, me);
      if running == map[] {
        NothingOutstanding(workers, running, spawned, alive);
        return None;
      }
      var completion := NextCompletion();
      if completion.None? {
        return None;
      }
      ghost var m1, mid, later, one := control.Now(), workers, running, reaped;
      FirstErrorIs(old(reaped), since, completion.value);
      if completion.value.result.Err? {
        var drained := StopAndDrain(Some(completion.value.result.error), since);
        OnlyStopsOn(m, m1, control.Now(), me);
        ReapedOne(old(workers), mid, old(running), spawned, completion.value);
        DrainedAfter(old(workers), mid, old(running), later, spawned, [completion.value], reaped[|one|..]);
        FromFirst(old(reaped), one, reaped, completion.value);
        return Some(drained);
      }
      result := None;
    }

    /** Stop, then drain. */
    method StopAndDrain(first: Option<string>, ghost since: nat) returns (result: Result<(), string>)
      requires Valid() && since <= |reaped|
      requires first == EarliestError(None, reaped[since..])
      modifies this`workers, this`running, this`workerCount, this`alive, control, this`reaped
      ensures Valid() && ModeMoved() && control.flag
      ensures workers == map[] && running == map[] && alive == {}
      ensures old(reaped) <= reaped && Drained(old(workers), old(running), spawned, reaped[|old(reaped)|..])
      ensures result == Report(EarliestError(None, reaped[since..]))
    {
      hide Consistent, Reached, OnlyStops, Shutdown.IsRun, Drained;
      ghost var m := control.Now();
      var _, _, _ := RequestShutdown();
      ghost var m1 := control.Now();
      result := DrainFrom(first, since);
      OnlyStopsOn(m, m1, control.Now(), me);
    }

    /** Drain, with the result told from an earlier point of the completion history. */
    method DrainFrom(first: Option<string>, ghost since: nat) returns (result: Result<(), string>)
      requires Valid() && since <= |reaped|
      requires first == EarliestError(None, reaped[since..])
      modifies this`workers, this`running, this`workerCount, this`alive, control, this`reaped
      ensures Valid() && ModeMoved()
      ensures workers == map[] && running == map[] && alive == {}
      ensures old(reaped) <= reaped && Drained(old(workers), old(running), spawned, reaped[|old(reaped)|..])
      ensures result == Report(EarliestError(None, reaped[since..]))
    {
      hide Consistent, Reached, OnlyStops, Shutdown.IsRun, Drained;
      result := Drain(first);
      assert reaped[since..] == old(reaped)[since..] + reaped[|old(reaped)|..];
      EarliestErrorJoin(None, old(reaped)[since..], reaped[|old(reaped)|..]);
    }
  }
}
