/**
 What the process table guarantees over whole runs, read off the steps taken: who may join a
 spawned process and for how long, that a started process can finish, that a waiting joiner
 stays queued until the process it waits for finishes, and that a join returns a value that
 was passed to process_finish.
 */
module Families {
  import opened Sequences
  import opened Machine
  import opened Processes
  import Semaphores

  /** The thread that takes the step. */
  ghost function Actor(s: ProcState, c: nat): Tid {
    if c < |s.m.current| then s.m.current[c] else IDLE
  }

  /** With this step process `p` finishes. */
  ghost predicate Ends(s: ProcState, step: ProcStep, p: int)
    requires Sized(s)
  {
    step.Exit? && step.cpu < |s.m.current| && s.pid[s.m.current[step.cpu]] == p
  }

  /** With this step slot `q` is freed by a join. */
  ghost predicate Frees(s: ProcState, step: ProcStep, q: nat)
    requires Sized(s)
  {
    exists t :: 0 <= t < |s.act| && Reaps(s, step, t) && s.act[t].slot == q
  }

  // ---------- Slots that are being spawned ----------

  /** A slot whose parent is not yet written is active, not yet run, and its spawner is at it. */
  ghost predicate SpawnOk(s: ProcState, t: Tid)
    requires Sized(s) && 0 <= t < |s.act|
  {
    s.act[t].Spawning? ==> var q := s.act[t].slot;
      s.slots[q].state == Active && s.spawner[q] == t && s.runner[q] == -1
  }

  ghost predicate SpawnsOk(s: ProcState)
    requires Sized(s)
  {
    forall t :: 0 <= t < |s.act| ==> SpawnOk(s, t)
  }

  lemma SpawnStep(s: ProcState, step: ProcStep)
    requires ProcInv(s) && ProcEnabled(s, step) && SpawnsOk(s)
    ensures ProcInv(ProcApply(s, step)) && SpawnsOk(ProcApply(s, step))
  {
    ProcStepKeepsInv(s, step);
    var s' := ProcApply(s, step);
    forall t | 0 <= t < |s'.act|
      ensures SpawnOk(s', t)
    {
      assert SpawnOk(s, t);
      SpawnAfter(s, step, t);
    }
  }

  lemma SpawnAfter(s: ProcState, step: ProcStep, t: Tid)
    requires ProcInv(s) && ProcEnabled(s, step) && ProcInv(ProcApply(s, step)) && 0 <= t < |s.act| && SpawnOk(s, t)
    ensures |ProcApply(s, step).act| == |s.act| && SpawnOk(ProcApply(s, step), t)
  {
    if step.Alloc? {
      SpawnAfterAlloc(s, step.cpu, t);
    } else if step.Exit? {
      SpawnAfterExit(s, step.cpu, step.retval, t);
    }
  }

  lemma SpawnAfterAlloc(s: ProcState, c: nat, t: Tid)
    requires ProcInv(s) && ProcEnabled(s, Alloc(c)) && ProcInv(DoAlloc(s, c)) && 0 <= t < |s.act| && SpawnOk(s, t)
    ensures |DoAlloc(s, c).act| == |s.act| && SpawnOk(DoAlloc(s, c), t)
  {
    var q :| FirstVacant(s.slots, q) && DoAlloc(s, c) == AllocAt(s, s.m.current[c], q);
  }

  lemma SpawnAfterExit(s: ProcState, c: nat, v: int, t: Tid)
    requires ProcInv(s) && ProcEnabled(s, Exit(c, v)) && ProcInv(DoExit(s, c, v))
    requires 0 <= t < |s.act| && SpawnOk(s, t)
    ensures |DoExit(s, c, v).act| == |s.act| && SpawnOk(DoExit(s, c, v), t)
  {
    assert ThreadOk(s, s.m.current[c]);
  }

  lemma {:induction false} SpawnsOverRun(s: ProcState, steps: seq<ProcStep>)
    requires ProcInv(s) && ProcRun(s, steps) && SpawnsOk(s)
    ensures ProcInv(ProcAfter(s, steps)) && SpawnsOk(ProcAfter(s, steps))
    decreases |steps|
  {
    if steps != [] {
      SpawnStep(s, steps[0]);
      SpawnsOverRun(ProcApply(s, steps[0]), steps[1..]);
    }
  }

  lemma BootSpawnsOk(threads: nat, cpus: nat, keys: seq<nat>)
    requires 2 <= threads && 1 <= cpus && Semaphores.KeysOk(keys)
    ensures ProcInv(ProcInit(threads, cpus, keys)) && SpawnsOk(ProcInit(threads, cpus, keys))
  {
    ProcInitInv(threads, cpus, keys);
  }

  // ---------- A process can join its own children, and nobody else's ----------

  /** Slot `q` holds a child of process `p`, its parent written. */
  ghost predicate IsChild(s: ProcState, q: nat, p: int)
    requires Sized(s)
  {
    && q < |s.slots| && s.slots[q].state != Vacant && s.slots[q].parent == p
    && forall t :: 0 <= t < |s.act| ==> s.act[t] != Spawning(q)
  }

  lemma SpawnRecordsParent(s: ProcState, c: nat)
    requires ProcInv(s) && SpawnsOk(s) && ProcEnabled(s, SetParent(c))
    ensures var t, s' := s.m.current[c], DoSetParent(s, c);
      ProcInv(s') && IsChild(s', s.act[t].slot, s.pid[t])
  {
    ProcStepKeepsInv(s, SetParent(c));
    var me := s.m.current[c];
    assert SpawnOk(s, me);
    forall t | 0 <= t < |s.act| && t != me
      ensures s.act[t] != Spawning(s.act[me].slot)
    {
      assert SpawnOk(s, t);
    }
  }

  /** Between taking the slot and writing the parent, a spawner stays one, for the same slot and process. */
  lemma SpawningStep(s: ProcState, step: ProcStep, t: Tid)
    requires ProcInv(s) && ProcEnabled(s, step) && 0 <= t < |s.act| && s.act[t].Spawning?
    requires !(step.SetParent? && Actor(s, step.cpu) == t)
    ensures var s' := ProcApply(s, step);
      |s'.act| == |s.act| == |s'.pid| && s'.act[t] == s.act[t] && s'.pid[t] == s.pid[t]
  {
    assert ThreadOk(s, t);
    if step.Alloc? {
      var v :| FirstVacant(s.slots, v) && DoAlloc(s, step.cpu) == AllocAt(s, s.m.current[step.cpu], v);
    }
  }

  lemma ChildStep(s: ProcState, step: ProcStep, q: nat, p: int)
    requires ProcInv(s) && ProcEnabled(s, step) && ProcInv(ProcApply(s, step))
    requires IsChild(s, q, p) && p != NO_PROCESS && !Ends(s, step, p) && !Frees(s, step, q)
    ensures IsChild(ProcApply(s, step), q, p)
  {
    SlotLifeCycle(s, step, q);
    if step.Alloc? {
      var v :| FirstVacant(s.slots, v) && DoAlloc(s, step.cpu) == AllocAt(s, s.m.current[step.cpu], v);
    } else if step.JoinTry? {
      assert !(Reaps(s, step, s.m.current[step.cpu]) && s.act[s.m.current[step.cpu]].slot == q);
    }
  }

  /** In no state of the run does process `p` finish or slot `q` get freed. */
  ghost predicate Undisturbed(s: ProcState, steps: seq<ProcStep>, q: nat, p: int)
    requires ProcInv(s) && ProcRun(s, steps)
    decreases |steps|
  {
    steps == [] ||
    (!Ends(s, steps[0], p) && !Frees(s, steps[0], q) &&
     (ProcStepKeepsInv(s, steps[0]); Undisturbed(ProcApply(s, steps[0]), steps[1..], q, p)))
  }

  lemma {:induction false} ChildOverRun(s: ProcState, steps: seq<ProcStep>, q: nat, p: int)
    requires ProcInv(s) && ProcRun(s, steps) && IsChild(s, q, p) && p != NO_PROCESS && Undisturbed(s, steps, q, p)
    ensures ProcInv(ProcAfter(s, steps)) && IsChild(ProcAfter(s, steps), q, p)
    decreases |steps|
  {
    if steps != [] {
      ProcStepKeepsInv(s, steps[0]);
      ChildStep(s, steps[0], q, p);
      ChildOverRun(ProcApply(s, steps[0]), steps[1..], q, p);
    }
  }

  /**
   Once the spawn has written the parent, and until the slot is freed by a join or the parent
   finishes: a join on the slot is legal for a thread at work exactly if it runs the parent.
   */
  lemma ParentMayJoin(s: ProcState, c: nat, steps: seq<ProcStep>, d: nat)
    requires ProcInv(s) && SpawnsOk(s) && ProcEnabled(s, SetParent(c)) && s.pid[s.m.current[c]] != NO_PROCESS
    requires ProcInv(DoSetParent(s, c)) && ProcRun(DoSetParent(s, c), steps)
    requires Undisturbed(DoSetParent(s, c), steps, s.act[s.m.current[c]].slot, s.pid[s.m.current[c]])
    requires ProcInv(ProcAfter(DoSetParent(s, c), steps)) && AtWork(ProcAfter(DoSetParent(s, c), steps), d)
    ensures var q, p, s' := s.act[s.m.current[c]].slot, s.pid[s.m.current[c]], ProcAfter(DoSetParent(s, c), steps);
      ProcEnabled(s', JoinCall(d, q)) <==> s'.pid[s'.m.current[d]] == p
  {
    SpawnRecordsParent(s, c);
    ChildOverRun(DoSetParent(s, c), steps, s.act[s.m.current[c]].slot, s.pid[s.m.current[c]]);
  }

  /** Exactly the children of a finishing process become orphans, which no process may join. */
  lemma ExitOrphansChildren(s: ProcState, c: nat, v: int, q: nat, d: nat)
    requires ProcInv(s) && ProcEnabled(s, Exit(c, v)) && q < |s.slots|
    ensures var p, s' := s.pid[s.m.current[c]], DoExit(s, c, v);
      && ProcInv(s') && |s'.slots| == |s.slots|
      && s'.slots[q].parent == (if s.slots[q].parent == p then NO_PROCESS else s.slots[q].parent)
      && (s.slots[q].parent == p && AtWork(s', d) && s'.pid[s'.m.current[d]] != NO_PROCESS ==>
            !ProcEnabled(s', JoinCall(d, q)))
  {
    ProcStepKeepsInv(s, Exit(c, v));
  }

  // ---------- A new thread can start a process ----------

  /** Thread row `t` runs no process and is in the middle of nothing. */
  ghost predicate Blank(s: ProcState, t: Tid)
    requires Sized(s)
  {
    0 <= t < |s.pid| && s.pid[t] == NO_PROCESS && s.act[t] == Working
  }

  /** With this step thread `t` enters or continues a call on the process table. */
  ghost predicate ActsAs(s: ProcState, step: ProcStep, t: Tid) {
    !step.Other? && Actor(s, step.cpu) == t
  }

  lemma BlankStep(s: ProcState, step: ProcStep, t: Tid)
    requires ProcInv(s) && ProcEnabled(s, step) && ProcInv(ProcApply(s, step)) && Blank(s, t) && !ActsAs(s, step, t)
    ensures Blank(ProcApply(s, step), t)
  {
    if step.Alloc? {
      var v :| FirstVacant(s.slots, v) && DoAlloc(s, step.cpu) == AllocAt(s, s.m.current[step.cpu], v);
    }
  }

  ghost predicate Passive(s: ProcState, steps: seq<ProcStep>, t: Tid)
    requires ProcInv(s) && ProcRun(s, steps)
    decreases |steps|
  {
    steps == [] ||
    (!ActsAs(s, steps[0], t) && (ProcStepKeepsInv(s, steps[0]); Passive(ProcApply(s, steps[0]), steps[1..], t)))
  }

  lemma {:induction false} BlankOverRun(s: ProcState, steps: seq<ProcStep>, t: Tid)
    requires ProcInv(s) && ProcRun(s, steps) && Blank(s, t) && Passive(s, steps, t)
    ensures ProcInv(ProcAfter(s, steps)) && Blank(ProcAfter(s, steps), t)
    decreases |steps|
  {
    if steps != [] {
      ProcStepKeepsInv(s, steps[0]);
      BlankStep(s, steps[0], t);
      BlankOverRun(ProcApply(s, steps[0]), steps[1..], t);
    }
  }

  /**
   A created thread, whatever its row was used for before, runs no process until it takes one:
   once it runs it can start any spawned process that no thread has started.
   */
  lemma NewThreadCanStart(s: ProcState, t: Tid, steps: seq<ProcStep>, d: nat, q: nat)
    requires ProcInv(s) && ProcEnabled(s, Other(Machine.Create(t))) && ProcInv(DoOther(s, Machine.Create(t)))
    requires ProcRun(DoOther(s, Machine.Create(t)), steps) && Passive(DoOther(s, Machine.Create(t)), steps, t)
    ensures var s' := ProcAfter(DoOther(s, Machine.Create(t)), steps);
      && ProcInv(s') && Blank(s', t)
      && (CanAct(s'.m, d) && s'.m.current[d] == t && q < |s'.slots| && s'.slots[q].state == Active
          && s'.runner[q] == -1 && (forall u :: 0 <= u < |s'.act| ==> s'.act[u] != Spawning(q)) ==>
            ProcEnabled(s', Start(d, q)))
  {
    BlankOverRun(DoOther(s, Machine.Create(t)), steps, t);
  }

  // ---------- A started process can finish ----------

  /** Thread `t` runs process `q` and has not finished it. */
  ghost predicate Executes(s: ProcState, t: Tid, q: nat)
    requires Sized(s)
  {
    0 <= t < |s.pid| && q < |s.slots| && s.pid[t] == q && s.act[t] != Exiting
  }

  lemma ExecutesStep(s: ProcState, step: ProcStep, t: Tid, q: nat)
    requires ProcInv(s) && ProcEnabled(s, step) && ProcInv(ProcApply(s, step))
    requires Executes(s, t, q) && !(step.Exit? && Actor(s, step.cpu) == t)
    ensures Executes(ProcApply(s, step), t, q)
  {
    assert ThreadOk(s, t);
    if step.Alloc? {
      var v :| FirstVacant(s.slots, v) && DoAlloc(s, step.cpu) == AllocAt(s, s.m.current[step.cpu], v);
    }
  }

  /** No step of the run is thread `t`'s call of process_finish. */
  ghost predicate NotFinishedBy(s: ProcState, steps: seq<ProcStep>, t: Tid)
    requires ProcInv(s) && ProcRun(s, steps)
    decreases |steps|
  {
    steps == [] ||
    (!(steps[0].Exit? && Actor(s, steps[0].cpu) == t) &&
     (ProcStepKeepsInv(s, steps[0]); NotFinishedBy(ProcApply(s, steps[0]), steps[1..], t)))
  }

  lemma {:induction false} ExecutesOverRun(s: ProcState, steps: seq<ProcStep>, t: Tid, q: nat)
    requires ProcInv(s) && ProcRun(s, steps) && Executes(s, t, q) && NotFinishedBy(s, steps, t)
    ensures ProcInv(ProcAfter(s, steps)) && Executes(ProcAfter(s, steps), t, q)
    decreases |steps|
  {
    if steps != [] {
      ProcStepKeepsInv(s, steps[0]);
      ExecutesStep(s, steps[0], t, q);
      ExecutesOverRun(ProcApply(s, steps[0]), steps[1..], t, q);
    }
  }

  /**
   The thread that starts a process runs it until it finishes it: the slot stays active and its
   own, and whenever the thread is at work it can finish, which makes that slot a zombie with
   that value.
   */
  lemma StartedCanFinish(s: ProcState, c: nat, q: nat, steps: seq<ProcStep>, d: nat, v: int)
    requires ProcInv(s) && ProcEnabled(s, Start(c, q)) && ProcInv(DoStart(s, c, q)) && ProcRun(DoStart(s, c, q), steps)
    requires NotFinishedBy(DoStart(s, c, q), steps, s.m.current[c])
    ensures var t, s' := s.m.current[c], ProcAfter(DoStart(s, c, q), steps);
      && ProcInv(s') && Executes(s', t, q) && s'.slots[q].state == Active && s'.runner[q] == t
      && (AtWork(s', d) && s'.m.current[d] == t ==>
            && ProcEnabled(s', Exit(d, v)) && |DoExit(s', d, v).slots| == |s'.slots|
            && DoExit(s', d, v).slots[q].state == Zombie && DoExit(s', d, v).slots[q].retval == v)
  {
    ExecutesOverRun(DoStart(s, c, q), steps, s.m.current[c], q);
    assert ThreadOk(ProcAfter(DoStart(s, c, q), steps), s.m.current[c]);
  }

  // ---------- A waiting joiner stays queued until the process finishes ----------

  /** A join that finds no zombie queues the thread behind those already waiting for the slot. */
  lemma JoinQueues(s: ProcState, c: nat)
    requires ProcInv(s) && ProcEnabled(s, JoinTry(c)) && s.slots[s.act[s.m.current[c]].slot].state != Zombie
    ensures var t, q := s.m.current[c], s.act[s.m.current[c]].slot;
      Waiters(DoJoinTry(s, c).m, s.keys[q]) == Waiters(s.m, s.keys[q]) + [t]
  {
    var q := s.act[s.m.current[c]].slot;
    SleepAppends(s.m, c, s.keys[q], s.keys[q]);
  }

  /** Thread `t` waits for the process in slot `q`. */
  ghost predicate WaitsFor(s: ProcState, t: Tid, q: nat)
    requires Sized(s)
  {
    q < |s.keys| && t in Waiters(s.m, s.keys[q])
  }

  lemma WaitsStep(s: ProcState, step: ProcStep, t: Tid, q: nat)
    requires ProcInv(s) && ProcEnabled(s, step) && ProcInv(ProcApply(s, step)) && WaitsFor(s, t, q) && !Ends(s, step, q)
    ensures WaitsFor(ProcApply(s, step), t, q)
  {
    var key := s.keys[q];
    assert key in s.keys;
    match step
    case Other(k) => Semaphores.ForeignStep(s.m, k, key);
    case Alloc(c) =>
      var v :| FirstVacant(s.slots, v) && DoAlloc(s, c) == AllocAt(s, s.m.current[c], v);
    case SetParent(_) =>
    case Start(_, _) =>
    case Exit(c, _) => WakeAllQueues(s.m, s.keys[s.pid[s.m.current[c]]], key);
    case JoinCall(_, _) =>
    case JoinTry(c) =>
      if s.slots[s.act[s.m.current[c]].slot].state != Zombie {
        SleepAppends(s.m, c, s.keys[s.act[s.m.current[c]].slot], key);
      }
  }

  /** In no state of the run does process `q` finish. */
  ghost predicate Unfinished(s: ProcState, steps: seq<ProcStep>, q: nat)
    requires ProcInv(s) && ProcRun(s, steps)
    decreases |steps|
  {
    steps == [] ||
    (!Ends(s, steps[0], q) && (ProcStepKeepsInv(s, steps[0]); Unfinished(ProcApply(s, steps[0]), steps[1..], q)))
  }

  lemma {:induction false} WaitsUntilExit(s: ProcState, steps: seq<ProcStep>, t: Tid, q: nat)
    requires ProcInv(s) && ProcRun(s, steps) && WaitsFor(s, t, q) && Unfinished(s, steps, q)
    ensures ProcInv(ProcAfter(s, steps)) && WaitsFor(ProcAfter(s, steps), t, q)
    decreases |steps|
  {
    if steps != [] {
      ProcStepKeepsInv(s, steps[0]);
      WaitsStep(s, steps[0], t, q);
      WaitsUntilExit(ProcApply(s, steps[0]), steps[1..], t, q);
    }
  }

  /** The process that finishes releases every thread that waits for it: none stays queued, each is ready or runs on. */
  lemma ExitReleases(s: ProcState, c: nat, v: int, t: Tid)
    requires ProcInv(s) && ProcEnabled(s, Exit(c, v)) && WaitsFor(s, t, s.pid[s.m.current[c]])
    ensures var p, m' := s.pid[s.m.current[c]], DoExit(s, c, v).m;
      && Waiters(m', s.keys[p]) == [] && Inv(m') && IsThread(m', t) && m'.sleepsOn[t] == 0
      && (t in m'.ready || (t in m'.current && m'.states[t] == Running))
  {
    var p := s.pid[s.m.current[c]];
    ProcStepKeepsInv(s, Exit(c, v));
    WaitersAreThreads(s.m, s.keys[p]);
    WakeAllQueues(s.m, s.keys[p], s.keys[p]);
    WakeAllRows(s.m, s.keys[p], t);
  }

  // ---------- A join returns what was passed to process_finish ----------

  /** Step `k` of the run is incarnation `e` of process `q` finishing with value `v`. */
  ghost predicate PassedAt(s: ProcState, steps: seq<ProcStep>, k: nat, q: nat, e: nat, v: int)
    requires ProcInv(s) && ProcRun(s, steps)
  {
    && k < |steps| && ProcRun(s, steps[..k]) && steps[k].Exit? && steps[k].retval == v
    && var sk := ProcAfter(s, steps[..k]);
      Sized(sk) && Ends(sk, steps[k], q) && q < |sk.epoch| && sk.epoch[q] == e
  }

  lemma PassedLater(s: ProcState, steps: seq<ProcStep>, k: nat, q: nat, e: nat, v: int)
    requires ProcInv(s) && ProcRun(s, steps) && steps != [] && ProcInv(ProcApply(s, steps[0]))
    requires PassedAt(ProcApply(s, steps[0]), steps[1..], k, q, e, v)
    ensures PassedAt(s, steps, k + 1, q, e, v)
  {
    RunFirst(s, steps[0], steps[1..][..k]);
    assert steps[..k + 1] == [steps[0]] + steps[1..][..k];
  }

  /** Every value on record was there before the run or was passed by a step of it. */
  lemma {:induction false} FinishedWasPassed(s: ProcState, steps: seq<ProcStep>, q: nat, e: nat)
    requires ProcInv(s) && ProcRun(s, steps) && (q, e) in ProcAfter(s, steps).finished
    ensures var v := ProcAfter(s, steps).finished[(q, e)];
      ((q, e) in s.finished && s.finished[(q, e)] == v) || exists k :: PassedAt(s, steps, k, q, e, v)
    decreases |steps|
  {
    if steps != [] {
      ProcStepKeepsInv(s, steps[0]);
      var s1, v := ProcApply(s, steps[0]), ProcAfter(s, steps).finished[(q, e)];
      FinishedWasPassed(s1, steps[1..], q, e);
      if (q, e) in s1.finished && s1.finished[(q, e)] == v {
        if !((q, e) in s.finished && s.finished[(q, e)] == v) {
          PassedNow(s, steps, q, e, v);
        }
      } else {
        var k :| PassedAt(s1, steps[1..], k, q, e, v);
        PassedLater(s, steps, k, q, e, v);
      }
    }
  }

  lemma PassedNow(s: ProcState, steps: seq<ProcStep>, q: nat, e: nat, v: int)
    requires ProcInv(s) && ProcRun(s, steps) && steps != [] && ProcEnabled(s, steps[0])
    requires (q, e) in ProcApply(s, steps[0]).finished && ProcApply(s, steps[0]).finished[(q, e)] == v
    requires !((q, e) in s.finished && s.finished[(q, e)] == v)
    ensures PassedAt(s, steps, 0, q, e, v)
  {
    assert steps[..0] == [];
  }

  /**
   In every run from boot, every join that has returned yielded the argument of a call of
   process_finish: the one made in this run by the incarnation it reaped.
   */
  lemma ReturnsWhatWasPassed(threads: nat, cpus: nat, keys: seq<nat>, steps: seq<ProcStep>, i: nat) returns (k: nat)
    requires 2 <= threads && 1 <= cpus && Semaphores.KeysOk(keys)
    requires ProcInv(ProcInit(threads, cpus, keys)) && ProcRun(ProcInit(threads, cpus, keys), steps)
    requires i < |ProcAfter(ProcInit(threads, cpus, keys), steps).reaped|
    ensures var r := ProcAfter(ProcInit(threads, cpus, keys), steps).reaped[i];
      PassedAt(ProcInit(threads, cpus, keys), steps, k, r.slot, r.got, r.value)
  {
    var s0 := ProcInit(threads, cpus, keys);
    EveryProcRunKeepsInv(s0, steps);
    var s := ProcAfter(s0, steps);
    var r := s.reaped[i];
    assert ReturnOk(s, r);
    FinishedWasPassed(s0, steps, r.slot, r.got);
    k :| PassedAt(s0, steps, k, r.slot, r.got, r.value);
  }
}
