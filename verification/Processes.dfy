/**
 The process table and the finish/join protocol on top of the sleep queue. A joiner sleeps on
 the address of its child's slot; finishing turns the slot into a zombie and wakes all joiners;
 the join that sees the zombie frees the slot. Slots are reused, so every allocation starts a
 new incarnation of its slot, counted by `epoch`.
 */
module Processes {
  import opened Sequences
  import opened Machine
  import Kernel
  import Semaphores

  datatype SlotState = Vacant | Active | Zombie

  datatype Slot = Slot(state: SlotState, retval: int, parent: int)

  const NO_PROCESS := -1

  /** What a thread is in the middle of, as far as the process table is concerned. */
  datatype Activity =
    | Working
    | Spawning(slot: nat)                            // slot allocated, parent not yet written
    | Joining(slot: nat, asked: nat, vacant: bool)   // inside process_join; `asked` is the epoch at the call
    | Exiting                                        // process_finish done, thread_finish to come

  /** A join that returned: which incarnation was asked for, which was reaped, and the value. */
  datatype Return = Return(slot: nat, asked: nat, got: nat, value: int, vacant: bool)

  datatype ProcState = ProcState(
    m: State,
    keys: seq<nat>,               // address of each slot
    slots: seq<Slot>,
    epoch: seq<nat>,              // incarnations of each slot so far
    spawner: seq<Tid>,            // thread that allocated the slot last
    runner: seq<Tid>,             // thread that runs the process, or -1 before it starts
    pid: seq<int>,                // process_id of each thread row
    act: seq<Activity>,
    finished: map<(nat, nat), int>,  // value passed to process_finish by each incarnation
    reaped: seq<Return>)

  datatype ProcStep =
    | Other(step: Step)
    | Alloc(cpu: nat)
    | SetParent(cpu: nat)
    | Start(cpu: nat, slot: nat)
    | Exit(cpu: nat, retval: int)
    | JoinCall(cpu: nat, slot: nat)
    | JoinTry(cpu: nat)

  // ---------- Invariant of every run ----------

  ghost predicate Sized(s: ProcState) {
    && Inv(s.m) && Semaphores.KeysOk(s.keys)
    && |s.keys| == |s.slots| == |s.epoch| == |s.spawner| == |s.runner|
    && |s.pid| == |s.act| == |s.m.states|
    && (forall t :: 0 <= t < |s.pid| ==> NO_PROCESS <= s.pid[t] < |s.slots|)
    && (forall t :: 0 <= t < |s.act| && s.act[t].Joining? ==> s.act[t].slot < |s.slots|)
    && (forall t :: 0 <= t < |s.act| && s.act[t].Spawning? ==> s.act[t].slot < |s.slots|)
  }

  /** Nobody sleeps on a zombie, and a zombie holds the value its incarnation finished with. */
  ghost predicate SlotOk(s: ProcState, q: nat)
    requires Sized(s) && q < |s.slots|
  {
    s.slots[q].state == Zombie ==>
      && Waiters(s.m, s.keys[q]) == []
      && (q, s.epoch[q]) in s.finished && s.finished[(q, s.epoch[q])] == s.slots[q].retval
  }

  /** A process that has not finished owns an active slot and is the only thread running it. */
  ghost predicate ThreadOk(s: ProcState, t: Tid)
    requires Sized(s) && 0 <= t < |s.pid|
  {
    && (s.pid[t] != NO_PROCESS && s.act[t] != Exiting ==>
          s.slots[s.pid[t]].state == Active && s.runner[s.pid[t]] == t)
    && (s.m.states[t] in {Free, Dying} ==> s.act[t] == Exiting || (s.act[t] == Working && s.pid[t] == NO_PROCESS))
    && (s.act[t].Joining? ==>
          && s.act[t].asked <= s.epoch[s.act[t].slot]
          && (s.act[t].vacant ==> s.slots[s.act[t].slot].state == Vacant || s.act[t].asked < s.epoch[s.act[t].slot]))
  }

  /** A returned value is the one its incarnation finished with, and that incarnation is gone. */
  ghost predicate ReturnOk(s: ProcState, r: Return)
    requires Sized(s)
  {
    && r.slot < |s.slots|
    && (r.slot, r.got) in s.finished && s.finished[(r.slot, r.got)] == r.value
    && r.asked <= r.got <= s.epoch[r.slot]
    && (r.got == s.epoch[r.slot] ==> s.slots[r.slot].state == Vacant)
    && (r.vacant ==> r.asked < r.got)
  }

  ghost predicate FinishedOk(s: ProcState)
    requires Sized(s)
  {
    forall k :: k in s.finished ==>
      && k.0 < |s.slots| && k.1 <= s.epoch[k.0]
      && (k.1 == s.epoch[k.0] ==> s.slots[k.0].state != Active)
  }

  /** No incarnation is reaped twice. */
  ghost predicate ReapedOnce(s: ProcState) {
    forall i, j :: 0 <= i < j < |s.reaped| ==>
      (s.reaped[i].slot, s.reaped[i].got) != (s.reaped[j].slot, s.reaped[j].got)
  }

  ghost predicate ProcInv(s: ProcState) {
    && Sized(s)
    && (forall q :: 0 <= q < |s.slots| ==> SlotOk(s, q))
    && (forall t :: 0 <= t < |s.pid| ==> ThreadOk(s, t))
    && (forall i :: 0 <= i < |s.reaped| ==> ReturnOk(s, s.reaped[i]))
    && FinishedOk(s) && ReapedOnce(s)
  }

  ghost function ProcInit(threads: nat, cpus: nat, keys: seq<nat>): ProcState {
    var n := |keys|;
    ProcState(Init(threads, cpus), keys, seq(n, _ => Slot(Vacant, 0, NO_PROCESS)), seq(n, _ => 0),
              seq(n, _ => IDLE), seq(n, _ => -1), seq(threads, _ => NO_PROCESS), seq(threads, _ => Working),
              map[], [])
  }

  // ---------- Steps ----------

  /** The thread on CPU `c` can act and is in the middle of nothing. */
  ghost predicate AtWork(s: ProcState, c: nat)
    requires Sized(s)
  {
    CanAct(s.m, c) && s.act[s.m.current[c]] == Working
  }

  ghost predicate OtherEnabled(s: ProcState, k: Step)
    requires Sized(s)
  {
    && Enabled(s.m, k) && Semaphores.Resource(k) !in s.keys
    && (k.Sleep? ==> s.act[s.m.current[k.cpu]] == Working)
    && (k.Finish? ==> var t := s.m.current[k.cpu];
          s.act[t] == Exiting || (s.act[t] == Working && s.pid[t] == NO_PROCESS))
  }

  /** Slot `q` is the first vacant one, the one alloc_process_id takes. */
  ghost predicate FirstVacant(slots: seq<Slot>, q: nat) {
    q < |slots| && slots[q].state == Vacant && forall j :: 0 <= j < q ==> slots[j].state != Vacant
  }

  ghost predicate ProcEnabled(s: ProcState, step: ProcStep)
    requires ProcInv(s)
  {
    match step
    case Other(k) => OtherEnabled(s, k)
    case Alloc(c) => AtWork(s, c) && exists q :: FirstVacant(s.slots, q)
    case SetParent(c) => CanAct(s.m, c) && s.act[s.m.current[c]].Spawning?
    case Start(c, q) => AtWork(s, c) && q < |s.slots| && s.pid[s.m.current[c]] == NO_PROCESS
                        && s.slots[q].state == Active && s.runner[q] == -1
                        && (forall t :: 0 <= t < |s.act| ==> s.act[t] != Spawning(q))
    case Exit(c, _) => AtWork(s, c) && s.pid[s.m.current[c]] != NO_PROCESS
    case JoinCall(c, q) => AtWork(s, c) && q < |s.slots| && s.slots[q].parent == s.pid[s.m.current[c]]
    case JoinTry(c) => CanAct(s.m, c) && s.act[s.m.current[c]].Joining?
  }

  ghost function DoOther(s: ProcState, k: Step): ProcState
    requires ProcInv(s) && OtherEnabled(s, k)
  {
    var s1 := s.(m := Apply(s.m, k));
    if k.Create? then s1.(pid := s.pid[k.t := NO_PROCESS], act := s.act[k.t := Working]) else s1
  }

  ghost function AllocAt(s: ProcState, t: Tid, q: nat): ProcState
    requires Sized(s) && 0 <= t < |s.act| && q < |s.slots|
  {
    s.(slots := s.slots[q := s.slots[q].(state := Active)], epoch := s.epoch[q := s.epoch[q] + 1],
       spawner := s.spawner[q := t], runner := s.runner[q := -1], act := s.act[t := Spawning(q)])
  }

  ghost function DoAlloc(s: ProcState, c: nat): ProcState
    requires ProcInv(s) && ProcEnabled(s, Alloc(c))
  {
    var q :| FirstVacant(s.slots, q);
    AllocAt(s, s.m.current[c], q)
  }

  ghost function DoSetParent(s: ProcState, c: nat): ProcState
    requires ProcInv(s) && ProcEnabled(s, SetParent(c))
  {
    var t := s.m.current[c];
    var q := s.act[t].slot;
    s.(slots := s.slots[q := s.slots[q].(parent := s.pid[t])], act := s.act[t := Working])
  }

  ghost function DoStart(s: ProcState, c: nat, q: nat): ProcState
    requires ProcInv(s) && ProcEnabled(s, Start(c, q))
  {
    var t := s.m.current[c];
    s.(pid := s.pid[t := q], runner := s.runner[q := t])
  }

  /** The slots once process `p` has finished: `p` is a zombie and its children have no parent. */
  ghost function Orphaned(slots: seq<Slot>, p: nat, retval: int): (r: seq<Slot>)
    requires p < |slots|
    ensures |r| == |slots|
    ensures forall i :: 0 <= i < |r| && i != p ==> r[i].state == slots[i].state && r[i].retval == slots[i].retval
    ensures r[p].state == Zombie && r[p].retval == retval
  {
    seq(|slots|, i requires 0 <= i < |slots| =>
      var row := if i == p then slots[i].(state := Zombie, retval := retval) else slots[i];
      if row.parent == p then row.(parent := NO_PROCESS) else row)
  }

  ghost function DoExit(s: ProcState, c: nat, retval: int): ProcState
    requires ProcInv(s) && ProcEnabled(s, Exit(c, retval))
  {
    var t := s.m.current[c];
    var p := s.pid[t];
    s.(m := DoWakeAll(s.m, s.keys[p]), slots := Orphaned(s.slots, p, retval), act := s.act[t := Exiting],
       finished := s.finished[(p, s.epoch[p]) := retval])
  }

  ghost function DoJoinCall(s: ProcState, c: nat, q: nat): ProcState
    requires ProcInv(s) && ProcEnabled(s, JoinCall(c, q))
  {
    s.(act := s.act[s.m.current[c] := Joining(q, s.epoch[q], s.slots[q].state == Vacant)])
  }

  /** One turn of process_join's loop: reap the zombie, or queue up and be woken later. */
  ghost function DoJoinTry(s: ProcState, c: nat): ProcState
    requires ProcInv(s) && ProcEnabled(s, JoinTry(c))
  {
    var t := s.m.current[c];
    var a := s.act[t];
    if s.slots[a.slot].state == Zombie then
      s.(slots := s.slots[a.slot := Slot(Vacant, 0, NO_PROCESS)], act := s.act[t := Working],
         reaped := s.reaped + [Return(a.slot, a.asked, s.epoch[a.slot], s.slots[a.slot].retval, a.vacant)])
    else
      s.(m := DoSleep(s.m, c, s.keys[a.slot]))
  }

  ghost function ProcApply(s: ProcState, step: ProcStep): ProcState
    requires ProcInv(s) && ProcEnabled(s, step)
  {
    match step
    case Other(k) => DoOther(s, k)
    case Alloc(c) => DoAlloc(s, c)
    case SetParent(c) => DoSetParent(s, c)
    case Start(c, q) => DoStart(s, c, q)
    case Exit(c, v) => DoExit(s, c, v)
    case JoinCall(c, q) => DoJoinCall(s, c, q)
    case JoinTry(c) => DoJoinTry(s, c)
  }

  // ---------- Every step keeps the invariant ----------

  lemma ProcInitInv(threads: nat, cpus: nat, keys: seq<nat>)
    requires 2 <= threads && 1 <= cpus && Semaphores.KeysOk(keys)
    ensures ProcInv(ProcInit(threads, cpus, keys))
  {
    InitInv(threads, cpus);
  }

  /** Which threads are free or dying changes only as the activities allow. */
  lemma OtherStates(m: State, k: Step, t: Tid)
    requires Inv(m) && Enabled(m, k) && 0 <= t < |m.states|
    ensures |Apply(m, k).states| == |m.states|
    ensures Apply(m, k).states[t] in {Free, Dying} ==>
      m.states[t] in {Free, Dying} || (k.Finish? && t == m.current[k.cpu])
    ensures k == Create(t) ==> m.states[t] == Free
  {
    match k
    case WakeAll(r) => WakeAllRows(m, r, t);
    case Wake(r) => WaitersAreThreads(m, r); assert Waiters(m, r) != [] ==> Waiters(m, r)[0] in Waiters(m, r);
    case Schedule(c) =>
      LeaveKeeps(m, c);
      assert Leave(m, c).ready != [] ==> Leave(m, c).ready[0] in Leave(m, c).ready;
    case _ =>
  }

  lemma OtherKeeps(s: ProcState, k: Step)
    requires ProcInv(s) && OtherEnabled(s, k)
    ensures ProcInv(DoOther(s, k))
  {
    var s' := DoOther(s, k);
    StepKeepsInv(s.m, k);
    forall t | 0 <= t < |s.pid|
      ensures |s'.m.states| == |s.m.states|
      ensures ThreadOk(s, t) && (s'.m.states[t] in {Free, Dying} ==>
        s.m.states[t] in {Free, Dying} || (k.Finish? && t == s.m.current[k.cpu]))
      ensures k == Create(t) ==> s.m.states[t] == Free
    {
      OtherStates(s.m, k, t);
    }
    assert Sized(s');
    forall q | 0 <= q < |s.slots|
      ensures SlotOk(s', q)
    {
      assert SlotOk(s, q) && s.keys[q] in s.keys;
      Semaphores.ForeignStep(s.m, k, s.keys[q]);
    }
    forall t | 0 <= t < |s.pid|
      ensures ThreadOk(s', t)
    {
      assert ThreadOk(s, t);
    }
    forall i | 0 <= i < |s.reaped|
      ensures ReturnOk(s', s'.reaped[i])
    {
      assert ReturnOk(s, s.reaped[i]);
    }
  }

  lemma AllocKeeps(s: ProcState, c: nat)
    requires ProcInv(s) && ProcEnabled(s, Alloc(c))
    ensures ProcInv(DoAlloc(s, c))
  {
    var q :| FirstVacant(s.slots, q) && DoAlloc(s, c) == AllocAt(s, s.m.current[c], q);
    var s' := AllocAt(s, s.m.current[c], q);
    assert Sized(s');
    forall p | 0 <= p < |s.slots|
      ensures SlotOk(s', p)
    {
      assert SlotOk(s, p);
    }
    forall t | 0 <= t < |s.pid|
      ensures ThreadOk(s', t)
    {
      assert ThreadOk(s, t);
    }
    forall i | 0 <= i < |s.reaped|
      ensures ReturnOk(s', s'.reaped[i])
    {
      assert ReturnOk(s, s.reaped[i]);
    }
  }

  /** A step that changes neither machine nor slot states only has to keep the threads consistent. */
  lemma QuietKeeps(s: ProcState, s': ProcState)
    requires ProcInv(s) && Sized(s')
    requires s'.m == s.m && s'.keys == s.keys && s'.epoch == s.epoch && s'.finished == s.finished
    requires s'.reaped == s.reaped
    requires forall q :: 0 <= q < |s.slots| ==>
      s'.slots[q].state == s.slots[q].state && s'.slots[q].retval == s.slots[q].retval
    requires forall t :: 0 <= t < |s.pid| ==> ThreadOk(s', t)
    ensures ProcInv(s')
  {
    forall q | 0 <= q < |s.slots|
      ensures SlotOk(s', q)
    {
      assert SlotOk(s, q);
    }
    forall i | 0 <= i < |s.reaped|
      ensures ReturnOk(s', s'.reaped[i])
    {
      assert ReturnOk(s, s.reaped[i]);
    }
  }

  lemma SetParentKeeps(s: ProcState, c: nat)
    requires ProcInv(s) && ProcEnabled(s, SetParent(c))
    ensures ProcInv(DoSetParent(s, c))
  {
    var s' := DoSetParent(s, c);
    assert forall t :: 0 <= t < |s.pid| ==> ThreadOk(s, t) ==> ThreadOk(s', t);
    QuietKeeps(s, s');
  }

  lemma StartKeeps(s: ProcState, c: nat, q: nat)
    requires ProcInv(s) && ProcEnabled(s, Start(c, q))
    ensures ProcInv(DoStart(s, c, q))
  {
    var s' := DoStart(s, c, q);
    assert forall t :: 0 <= t < |s.pid| ==> ThreadOk(s, t) ==> ThreadOk(s', t);
    QuietKeeps(s, s');
  }

  lemma JoinCallKeeps(s: ProcState, c: nat, q: nat)
    requires ProcInv(s) && ProcEnabled(s, JoinCall(c, q))
    ensures ProcInv(DoJoinCall(s, c, q))
  {
    var s' := DoJoinCall(s, c, q);
    assert forall t :: 0 <= t < |s.pid| ==> ThreadOk(s, t) ==> ThreadOk(s', t);
    QuietKeeps(s, s');
  }

  lemma ExitThreads(s: ProcState, c: nat, retval: int)
    requires ProcInv(s) && ProcEnabled(s, Exit(c, retval))
    ensures var s' := DoExit(s, c, retval);
      Sized(s') && forall t :: 0 <= t < |s.pid| ==> ThreadOk(s', t)
  {
    var s' := DoExit(s, c, retval);
    var me := s.m.current[c];
    var p := s.pid[me];
    WakeAllKeepsInv(s.m, s.keys[p]);
    WakeAllRows(s.m, s.keys[p], IDLE);
    assert Sized(s');
    forall t | 0 <= t < |s.pid|
      ensures ThreadOk(s', t)
    {
      assert ThreadOk(s, t) && ThreadOk(s, me);
      WakeAllRows(s.m, s.keys[p], t);
    }
  }

  lemma ExitKeeps(s: ProcState, c: nat, retval: int)
    requires ProcInv(s) && ProcEnabled(s, Exit(c, retval))
    ensures ProcInv(DoExit(s, c, retval))
  {
    var s' := DoExit(s, c, retval);
    var me := s.m.current[c];
    var p := s.pid[me];
    ExitThreads(s, c, retval);
    assert ThreadOk(s, me);
    forall q | 0 <= q < |s.slots|
      ensures SlotOk(s', q)
    {
      assert SlotOk(s, q);
      WakeAllQueues(s.m, s.keys[p], s.keys[q]);
    }
    forall i | 0 <= i < |s.reaped|
      ensures ReturnOk(s', s'.reaped[i])
    {
      assert ReturnOk(s, s.reaped[i]);
    }
  }

  /** The turn of the join loop that goes back to sleep. */
  lemma JoinSleepKeeps(s: ProcState, c: nat)
    requires ProcInv(s) && ProcEnabled(s, JoinTry(c)) && s.slots[s.act[s.m.current[c]].slot].state != Zombie
    ensures ProcInv(DoJoinTry(s, c))
  {
    var s' := DoJoinTry(s, c);
    var q := s.act[s.m.current[c]].slot;
    SleepKeepsInv(s.m, c, s.keys[q]);
    assert Sized(s');
    forall p | 0 <= p < |s.slots|
      ensures SlotOk(s', p)
    {
      assert SlotOk(s, p);
      SleepAppends(s.m, c, s.keys[q], s.keys[p]);
    }
    forall t | 0 <= t < |s.pid|
      ensures ThreadOk(s', t)
    {
      assert ThreadOk(s, t);
    }
    forall i | 0 <= i < |s.reaped|
      ensures ReturnOk(s', s'.reaped[i])
    {
      assert ReturnOk(s, s.reaped[i]);
    }
  }

  /** The turn of the join loop that finds a zombie. */
  lemma JoinReapKeeps(s: ProcState, c: nat)
    requires ProcInv(s) && ProcEnabled(s, JoinTry(c)) && s.slots[s.act[s.m.current[c]].slot].state == Zombie
    ensures ProcInv(DoJoinTry(s, c))
  {
    var s' := DoJoinTry(s, c);
    var a := s.act[s.m.current[c]];
    assert ThreadOk(s, s.m.current[c]) && SlotOk(s, a.slot);
    assert Sized(s');
    forall p | 0 <= p < |s.slots|
      ensures SlotOk(s', p)
    {
      assert SlotOk(s, p);
    }
    forall t | 0 <= t < |s.pid|
      ensures ThreadOk(s', t)
    {
      assert ThreadOk(s, t);
    }
    forall i | 0 <= i < |s'.reaped|
      ensures ReturnOk(s', s'.reaped[i])
    {
      if i < |s.reaped| {
        assert ReturnOk(s, s.reaped[i]);
      }
    }
    forall i | 0 <= i < |s.reaped|
      ensures (s.reaped[i].slot, s.reaped[i].got) != (a.slot, s.epoch[a.slot])
    {
      assert ReturnOk(s, s.reaped[i]);
    }
  }

  lemma ProcStepKeepsInv(s: ProcState, step: ProcStep)
    requires ProcInv(s) && ProcEnabled(s, step)
    ensures ProcInv(ProcApply(s, step))
  {
    match step
    case Other(k) => OtherKeeps(s, k);
    case Alloc(c) => AllocKeeps(s, c);
    case SetParent(c) => SetParentKeeps(s, c);
    case Start(c, q) => StartKeeps(s, c, q);
    case Exit(c, v) => ExitKeeps(s, c, v);
    case JoinCall(c, q) => JoinCallKeeps(s, c, q);
    case JoinTry(c) =>
      if s.slots[s.act[s.m.current[c]].slot].state == Zombie {
        JoinReapKeeps(s, c);
      } else {
        JoinSleepKeeps(s, c);
      }
  }

  ghost function NextState(st: SlotState): SlotState {
    match st
    case Vacant => Active
    case Active => Zombie
    case Zombie => Vacant
  }

  /** A slot only moves vacant to active to zombie to vacant, and an active slot keeps its incarnation. */
  lemma SlotLifeCycle(s: ProcState, step: ProcStep, q: nat)
    requires ProcInv(s) && ProcEnabled(s, step) && q < |s.slots|
    ensures var s' := ProcApply(s, step);
      && |s'.slots| == |s.slots| == |s'.epoch|
      && (s'.slots[q].state == s.slots[q].state || s'.slots[q].state == NextState(s.slots[q].state))
      && s'.epoch[q] == s.epoch[q] + (if s.slots[q].state == Vacant && s'.slots[q].state == Active then 1 else 0)
      && (s.slots[q].state == Zombie && s'.slots[q].state == Vacant ==>
            step.JoinTry? && |s'.reaped| == |s.reaped| + 1 && s'.reaped[|s.reaped|].slot == q)
  {
    if step.Exit? {
      assert ThreadOk(s, s.m.current[step.cpu]);
    } else if step.Alloc? {
      var p :| FirstVacant(s.slots, p) && DoAlloc(s, step.cpu) == AllocAt(s, s.m.current[step.cpu], p);
    }
  }

  // ---------- Whole runs ----------

  ghost predicate ProcRun(s: ProcState, steps: seq<ProcStep>)
    requires ProcInv(s)
    decreases |steps|
  {
    steps == [] ||
    (ProcEnabled(s, steps[0]) && (ProcStepKeepsInv(s, steps[0]); ProcRun(ProcApply(s, steps[0]), steps[1..])))
  }

  ghost function ProcAfter(s: ProcState, steps: seq<ProcStep>): ProcState
    requires ProcInv(s) && ProcRun(s, steps)
    decreases |steps|
  {
    if steps == [] then s else
      ProcStepKeepsInv(s, steps[0]);
      ProcAfter(ProcApply(s, steps[0]), steps[1..])
  }

  lemma {:induction false} EveryProcRunKeepsInv(s: ProcState, steps: seq<ProcStep>)
    requires ProcInv(s) && ProcRun(s, steps)
    ensures ProcInv(ProcAfter(s, steps))
    decreases |steps|
  {
    if steps != [] {
      ProcStepKeepsInv(s, steps[0]);
      EveryProcRunKeepsInv(ProcApply(s, steps[0]), steps[1..]);
    }
  }

  /**
   In every state of every run from boot: nobody sleeps on a zombie, every join that returned
   yielded the value its incarnation finished with, and no incarnation was reaped twice.
   */
  lemma JoinProtocol(threads: nat, cpus: nat, keys: seq<nat>, steps: seq<ProcStep>)
    requires 2 <= threads && 1 <= cpus && Semaphores.KeysOk(keys)
    requires ProcInv(ProcInit(threads, cpus, keys)) && ProcRun(ProcInit(threads, cpus, keys), steps)
    ensures var s := ProcAfter(ProcInit(threads, cpus, keys), steps);
      && |s.keys| == |s.slots| && |s.m.sleepsOn| == |s.m.states|
      && (forall q, t :: 0 <= q < |s.slots| && s.slots[q].state == Zombie && 0 <= t < |s.m.states| ==>
            s.m.sleepsOn[t] != s.keys[q])
      && (forall i :: 0 <= i < |s.reaped| ==> var r := s.reaped[i];
            (r.slot, r.got) in s.finished && r.value == s.finished[(r.slot, r.got)])
      && ReapedOnce(s)
  {
    var s := ProcAfter(ProcInit(threads, cpus, keys), steps);
    EveryProcRunKeepsInv(ProcInit(threads, cpus, keys), steps);
    forall q, t | 0 <= q < |s.slots| && s.slots[q].state == Zombie && 0 <= t < |s.m.states|
      ensures s.m.sleepsOn[t] != s.keys[q]
    {
      NobodySleeps(s, q, t);
    }
    forall i | 0 <= i < |s.reaped|
      ensures (s.reaped[i].slot, s.reaped[i].got) in s.finished
      ensures s.reaped[i].value == s.finished[(s.reaped[i].slot, s.reaped[i].got)]
    {
      assert ReturnOk(s, s.reaped[i]);
    }
  }

  lemma NobodySleeps(s: ProcState, q: nat, t: Tid)
    requires ProcInv(s) && q < |s.slots| && s.slots[q].state == Zombie && 0 <= t < |s.m.states|
    ensures s.m.sleepsOn[t] != s.keys[q]
  {
    assert SlotOk(s, q);
    WaitersAreThreads(s.m, s.keys[q]);
    assert t !in Waiters(s.m, s.keys[q]);
  }

  // ---------- Which incarnation a join returns ----------

  /**
   process_join compares the slot's parent with the caller's process id. Threads that run no
   process all carry the id -1, and so do vacant slots and orphans, so for such a caller the
   comparison does not say whose child the slot holds. The caller can tell: it must have
   allocated the slot, and not have joined it since.
   */
  ghost predicate Disciplined(s: ProcState, step: ProcStep)
    requires ProcInv(s)
  {
    step.JoinCall? && AtWork(s, step.cpu) && step.slot < |s.slots| && s.pid[s.m.current[step.cpu]] == NO_PROCESS ==>
      s.slots[step.slot].state != Vacant && s.spawner[step.slot] == s.m.current[step.cpu]
  }

  /** The joiner is the slot's own spawner and the slot still holds the incarnation asked for. */
  ghost predicate JoinerOk(s: ProcState, t: Tid)
    requires Sized(s) && 0 <= t < |s.act|
  {
    && (s.act[t].Joining? ==> var q := s.act[t].slot;
          && s.act[t].asked == s.epoch[q] && s.slots[q].state != Vacant
          && s.spawner[q] == t && s.slots[q].parent == s.pid[t])
    && (s.act[t].Spawning? ==> var q := s.act[t].slot;
          && s.slots[q] == s.slots[q].(state := Active, parent := NO_PROCESS)
          && s.spawner[q] == t && s.runner[q] == -1)
  }

  /** A slot with a parent was allocated by the live thread that runs the parent. */
  ghost predicate ParentOk(s: ProcState, q: nat)
    requires Sized(s) && q < |s.slots|
  {
    s.slots[q].parent != NO_PROCESS ==>
      && s.slots[q].state != Vacant && 0 <= s.spawner[q] < |s.pid|
      && s.pid[s.spawner[q]] == s.slots[q].parent && s.act[s.spawner[q]] != Exiting
  }

  ghost predicate FamilyInv(s: ProcState) {
    && ProcInv(s)
    && (forall t :: 0 <= t < |s.act| ==> JoinerOk(s, t))
    && (forall q :: 0 <= q < |s.slots| ==> ParentOk(s, q))
    && (forall i :: 0 <= i < |s.reaped| ==> s.reaped[i].asked == s.reaped[i].got)
  }

  lemma FamilyStep(s: ProcState, step: ProcStep)
    requires FamilyInv(s) && ProcEnabled(s, step) && Disciplined(s, step)
    ensures FamilyInv(ProcApply(s, step))
  {
    var s' := ProcApply(s, step);
    ProcStepKeepsInv(s, step);
    match step
    case Other(k) => FamilyOther(s, k);
    case Alloc(c) => FamilyAlloc(s, c);
    case SetParent(c) => FamilySetParent(s, c);
    case Start(c, q) => FamilyStart(s, c, q);
    case Exit(c, v) => FamilyExit(s, c, v);
    case JoinCall(c, q) => FamilyJoinCall(s, c, q);
    case JoinTry(c) => FamilyJoinTry(s, c);
  }

  lemma FamilyOther(s: ProcState, k: Step)
    requires FamilyInv(s) && OtherEnabled(s, k) && ProcInv(DoOther(s, k))
    ensures FamilyInv(DoOther(s, k))
  {
    var s' := DoOther(s, k);
    if k.Create? {
      assert ThreadOk(s, k.t);
    }
    assert forall t :: 0 <= t < |s.act| ==> JoinerOk(s, t) ==> JoinerOk(s', t);
    assert forall q :: 0 <= q < |s.slots| ==> ParentOk(s, q) ==> ParentOk(s', q);
  }

  lemma FamilyAlloc(s: ProcState, c: nat)
    requires FamilyInv(s) && ProcEnabled(s, Alloc(c)) && ProcInv(DoAlloc(s, c))
    ensures FamilyInv(DoAlloc(s, c))
  {
    var q :| FirstVacant(s.slots, q) && DoAlloc(s, c) == AllocAt(s, s.m.current[c], q);
    var s' := AllocAt(s, s.m.current[c], q);
    assert ParentOk(s, q);
    assert forall t :: 0 <= t < |s.act| ==> JoinerOk(s, t) ==> JoinerOk(s', t);
    assert forall p :: 0 <= p < |s.slots| ==> ParentOk(s, p) ==> ParentOk(s', p);
  }

  lemma FamilySetParent(s: ProcState, c: nat)
    requires FamilyInv(s) && ProcEnabled(s, SetParent(c)) && ProcInv(DoSetParent(s, c))
    ensures FamilyInv(DoSetParent(s, c))
  {
    var s' := DoSetParent(s, c);
    assert JoinerOk(s, s.m.current[c]);
    assert forall t :: 0 <= t < |s.act| ==> JoinerOk(s, t) ==> JoinerOk(s', t);
    assert forall q :: 0 <= q < |s.slots| ==> ParentOk(s, q) ==> ParentOk(s', q);
  }

  lemma FamilyStart(s: ProcState, c: nat, q: nat)
    requires FamilyInv(s) && ProcEnabled(s, Start(c, q)) && ProcInv(DoStart(s, c, q))
    ensures FamilyInv(DoStart(s, c, q))
  {
    var s' := DoStart(s, c, q);
    assert forall t :: 0 <= t < |s.act| ==> JoinerOk(s, t) ==> JoinerOk(s', t);
    assert forall p :: 0 <= p < |s.slots| ==> ParentOk(s, p) ==> ParentOk(s', p);
  }

  /** Only the finishing thread can have been the spawner of its process's children. */
  lemma FamilyExit(s: ProcState, c: nat, v: int)
    requires FamilyInv(s) && ProcEnabled(s, Exit(c, v)) && ProcInv(DoExit(s, c, v))
    ensures FamilyInv(DoExit(s, c, v))
  {
    var s' := DoExit(s, c, v);
    var me := s.m.current[c];
    assert ThreadOk(s, me);
    forall t | 0 <= t < |s.act|
      ensures JoinerOk(s', t)
    {
      assert JoinerOk(s, t) && ThreadOk(s, t);
    }
    forall q | 0 <= q < |s.slots|
      ensures ParentOk(s', q)
    {
      assert ParentOk(s, q);
      if s'.slots[q].parent != NO_PROCESS {
        assert ThreadOk(s, s.spawner[q]);
      }
    }
  }

  lemma FamilyJoinCall(s: ProcState, c: nat, q: nat)
    requires FamilyInv(s) && ProcEnabled(s, JoinCall(c, q)) && Disciplined(s, JoinCall(c, q))
    requires ProcInv(DoJoinCall(s, c, q))
    ensures FamilyInv(DoJoinCall(s, c, q))
  {
    var s' := DoJoinCall(s, c, q);
    var me := s.m.current[c];
    assert ThreadOk(s, me) && ParentOk(s, q);
    if s.pid[me] != NO_PROCESS {
      assert ThreadOk(s, s.spawner[q]);
    }
    assert forall t :: 0 <= t < |s.act| ==> JoinerOk(s, t) ==> JoinerOk(s', t);
    assert forall p :: 0 <= p < |s.slots| ==> ParentOk(s, p) ==> ParentOk(s', p);
  }

  lemma FamilyJoinTry(s: ProcState, c: nat)
    requires FamilyInv(s) && ProcEnabled(s, JoinTry(c)) && ProcInv(DoJoinTry(s, c))
    ensures FamilyInv(DoJoinTry(s, c))
  {
    var s' := DoJoinTry(s, c);
    assert JoinerOk(s, s.m.current[c]);
    assert forall t :: 0 <= t < |s.act| ==> JoinerOk(s, t) ==> JoinerOk(s', t);
    assert forall q :: 0 <= q < |s.slots| ==> ParentOk(s, q) ==> ParentOk(s', q);
  }

  ghost predicate DisciplinedRun(s: ProcState, steps: seq<ProcStep>)
    requires ProcInv(s) && ProcRun(s, steps)
    decreases |steps|
  {
    steps == [] ||
    (Disciplined(s, steps[0]) &&
     (ProcStepKeepsInv(s, steps[0]); DisciplinedRun(ProcApply(s, steps[0]), steps[1..])))
  }

  /** With disciplined kernel threads, every join returns the incarnation it was called for. */
  lemma {:induction false} JoinReturnsAskedIncarnation(s: ProcState, steps: seq<ProcStep>)
    requires FamilyInv(s) && ProcRun(s, steps) && DisciplinedRun(s, steps)
    ensures FamilyInv(ProcAfter(s, steps))
    decreases |steps|
  {
    if steps != [] {
      FamilyStep(s, steps[0]);
      JoinReturnsAskedIncarnation(ProcApply(s, steps[0]), steps[1..]);
    }
  }

  lemma BootIsAFamily(threads: nat, cpus: nat, keys: seq<nat>)
    requires 2 <= threads && 1 <= cpus && Semaphores.KeysOk(keys)
    ensures FamilyInv(ProcInit(threads, cpus, keys))
  {
    ProcInitInv(threads, cpus, keys);
  }

  /** A join that found the slot vacant can only return the value of a later incarnation. */
  lemma VacantJoinNeverMatches(s: ProcState, steps: seq<ProcStep>, i: nat)
    requires ProcInv(s) && ProcRun(s, steps) && i < |ProcAfter(s, steps).reaped|
    ensures ProcAfter(s, steps).reaped[i].vacant ==>
      ProcAfter(s, steps).reaped[i].asked < ProcAfter(s, steps).reaped[i].got
  {
    EveryProcRunKeepsInv(s, steps);
    assert ReturnOk(ProcAfter(s, steps), ProcAfter(s, steps).reaped[i]);
  }

  // ---------- Exactly when every join returns the incarnation it asked for ----------

  /** What any caller of process_join can check: the slot holds a process and nobody else is joining it. */
  ghost predicate Careful(s: ProcState, step: ProcStep)
    requires ProcInv(s)
  {
    step.JoinCall? && AtWork(s, step.cpu) && step.slot < |s.slots| ==>
      && s.slots[step.slot].state != Vacant
      && forall t :: 0 <= t < |s.act| ==> !JoinsSlot(s.act[t], step.slot)
  }

  ghost predicate JoinsSlot(a: Activity, q: nat) {
    a.Joining? && a.slot == q
  }

  /** Thread `t` waits for an incarnation that is already gone. */
  ghost predicate Late(s: ProcState, t: Tid)
    requires Sized(s) && 0 <= t < |s.act|
  {
    s.act[t].Joining? && (s.act[t].asked < s.epoch[s.act[t].slot] || s.slots[s.act[t].slot].state == Vacant)
  }

  ghost predicate Rivals(s: ProcState, t: Tid, u: Tid)
    requires Sized(s) && 0 <= t < |s.act| && 0 <= u < |s.act|
  {
    t != u && s.act[t].Joining? && JoinsSlot(s.act[u], s.act[t].slot)
  }

  ghost predicate Matched(s: ProcState) {
    forall i :: 0 <= i < |s.reaped| ==> s.reaped[i].asked == s.reaped[i].got
  }

  /** Every join so far has matched, and none under way is bound to fail. */
  ghost predicate Clean(s: ProcState)
    requires Sized(s)
  {
    && Matched(s)
    && (forall t :: 0 <= t < |s.act| ==> !Late(s, t))
    && (forall t, u :: 0 <= t < |s.act| && 0 <= u < |s.act| ==> !Rivals(s, t, u))
  }

  lemma CarefulStepStaysClean(s: ProcState, step: ProcStep)
    requires ProcInv(s) && ProcEnabled(s, step) && Clean(s) && Careful(s, step)
    ensures Sized(ProcApply(s, step)) && Clean(ProcApply(s, step))
  {
    ProcStepKeepsInv(s, step);
    var s' := ProcApply(s, step);
    forall t | 0 <= t < |s.act|
      ensures !Late(s', t)
    {
      assert !Late(s, t) && ThreadOk(s, t);
      StillTimely(s, step, t);
    }
    forall t, u | 0 <= t < |s.act| && 0 <= u < |s.act|
      ensures !Rivals(s', t, u)
    {
      assert !Rivals(s, t, u) && !Rivals(s, u, t);
      NewJoiner(s, step, t);
      NewJoiner(s, step, u);
    }
    if step.JoinTry? {
      assert !Late(s, s.m.current[step.cpu]) && ThreadOk(s, s.m.current[step.cpu]);
    }
  }

  /** A thread joins a slot after a step only if it did before or has just called. */
  lemma NewJoiner(s: ProcState, step: ProcStep, t: Tid)
    requires ProcInv(s) && ProcEnabled(s, step) && 0 <= t < |s.act|
    ensures var s' := ProcApply(s, step);
      && |s'.act| == |s.act|
     
     
      && (s'.act[t].Joining? ==>
            s'.act[t] == s.act[t] || (step.JoinCall? && s.m.current[step.cpu] == t && s'.act[t].slot == step.slot))
  {
  }

  /** With this step thread `t` returns from its join. */
  ghost predicate Reaps(s: ProcState, step: ProcStep, t: Tid)
    requires Sized(s) && 0 <= t < |s.act|
  {
    && step.JoinTry? && step.cpu < |s.m.current| && s.m.current[step.cpu] == t
    && s.act[t].Joining? && s.slots[s.act[t].slot].state == Zombie
  }

  /** A joiner stays one, for the same incarnation, until it returns. */
  lemma JoinerAfter(s: ProcState, step: ProcStep, t: Tid)
    requires ProcInv(s) && ProcEnabled(s, step) && 0 <= t < |s.act| && s.act[t].Joining?
    ensures |ProcApply(s, step).act| == |s.act|
    ensures ProcApply(s, step).act[t] == if Reaps(s, step, t) then Working else s.act[t]
  {
    assert ThreadOk(s, t);
  }

  lemma ReapEffect(s: ProcState, step: ProcStep, t: Tid)
    requires ProcInv(s) && ProcEnabled(s, step) && 0 <= t < |s.act| && Reaps(s, step, t)
    ensures var q, s' := s.act[t].slot, ProcApply(s, step);
      && |s'.slots| == |s.slots| && s'.slots[q].state == Vacant && s'.epoch == s.epoch && |s'.reaped| == |s.reaped| + 1
      && s'.reaped[|s.reaped|].asked == s.act[t].asked && s'.reaped[|s.reaped|].got == s.epoch[q]
  {
  }

  lemma StillTimely(s: ProcState, step: ProcStep, t: Tid)
    requires ProcInv(s) && ProcEnabled(s, step) && Careful(s, step) && ProcInv(ProcApply(s, step))
    requires 0 <= t < |s.act| && !Late(s, t)
    requires forall u :: 0 <= u < |s.act| ==> !Rivals(s, u, t)
    ensures |ProcApply(s, step).act| == |s.act| && !Late(ProcApply(s, step), t)
  {
    NewJoiner(s, step, t);
    if s.act[t].Joining? {
      JoinerAfter(s, step, t);
      SlotLifeCycle(s, step, s.act[t].slot);
      assert ThreadOk(s, t);
      if step.JoinTry? {
        assert !Rivals(s, s.m.current[step.cpu], t);
      }
    }
  }

  lemma CarelessCallSoils(s: ProcState, step: ProcStep)
    requires ProcInv(s) && ProcEnabled(s, step) && !Careful(s, step)
    ensures Sized(ProcApply(s, step)) && !Clean(ProcApply(s, step))
  {
    ProcStepKeepsInv(s, step);
    var s', me := ProcApply(s, step), s.m.current[step.cpu];
    if s.slots[step.slot].state == Vacant {
      assert Late(s', me);
    } else {
      var t :| 0 <= t < |s.act| && JoinsSlot(s.act[t], step.slot);
      assert Rivals(s', me, t);
    }
  }

  /** A failure that has happened, or is bound to, cannot be undone. */
  lemma SoiledStays(s: ProcState, step: ProcStep)
    requires ProcInv(s) && ProcEnabled(s, step) && !Clean(s)
    ensures Sized(ProcApply(s, step)) && !Clean(ProcApply(s, step))
  {
    ProcStepKeepsInv(s, step);
    var s' := ProcApply(s, step);
    assert s.reaped <= s'.reaped;
    if !Matched(s) {
      var i :| 0 <= i < |s.reaped| && s.reaped[i].asked != s.reaped[i].got;
      assert s'.reaped[i] == s.reaped[i];
    } else if t :| 0 <= t < |s.act| && Late(s, t) {
      LateStays(s, step, t);
    } else {
      var t, u :| 0 <= t < |s.act| && 0 <= u < |s.act| && Rivals(s, t, u);
      RivalsStay(s, step, t, u);
    }
  }

  lemma LateStays(s: ProcState, step: ProcStep, t: Tid)
    requires ProcInv(s) && ProcEnabled(s, step) && ProcInv(ProcApply(s, step)) && 0 <= t < |s.act| && Late(s, t)
    ensures |ProcApply(s, step).act| == |s.act|
    ensures Late(ProcApply(s, step), t) || !Matched(ProcApply(s, step))
  {
    var s' := ProcApply(s, step);
    assert ThreadOk(s, t);
    JoinerAfter(s, step, t);
    if Reaps(s, step, t) {
      ReapEffect(s, step, t);
      assert s'.reaped[|s.reaped|].asked != s'.reaped[|s.reaped|].got;
    } else {
      SlotLifeCycle(s, step, s.act[t].slot);
    }
  }

  lemma RivalsStay(s: ProcState, step: ProcStep, t: Tid, u: Tid)
    requires ProcInv(s) && ProcEnabled(s, step) && ProcInv(ProcApply(s, step))
    requires 0 <= t < |s.act| && 0 <= u < |s.act| && Rivals(s, t, u)
    ensures |ProcApply(s, step).act| == |s.act|
    ensures Rivals(ProcApply(s, step), t, u) || Late(ProcApply(s, step), t) || Late(ProcApply(s, step), u)
  {
    JoinerAfter(s, step, t);
    JoinerAfter(s, step, u);
    if Reaps(s, step, t) {
      ReapEffect(s, step, t);
    } else if Reaps(s, step, u) {
      ReapEffect(s, step, u);
    }
  }

  ghost predicate CarefulRun(s: ProcState, steps: seq<ProcStep>)
    requires ProcInv(s) && ProcRun(s, steps)
    decreases |steps|
  {
    steps == [] ||
    (Careful(s, steps[0]) && (ProcStepKeepsInv(s, steps[0]); CarefulRun(ProcApply(s, steps[0]), steps[1..])))
  }

  lemma {:induction false} CleanExactlyIfCareful(s: ProcState, steps: seq<ProcStep>)
    requires ProcInv(s) && ProcRun(s, steps)
    ensures Sized(ProcAfter(s, steps)) && (Clean(ProcAfter(s, steps)) <==> Clean(s) && CarefulRun(s, steps))
    decreases |steps|
  {
    if steps != [] {
      ProcStepKeepsInv(s, steps[0]);
      CleanExactlyIfCareful(ProcApply(s, steps[0]), steps[1..]);
      if !Clean(s) {
        SoiledStays(s, steps[0]);
      } else if Careful(s, steps[0]) {
        CarefulStepStaysClean(s, steps[0]);
      } else {
        CarelessCallSoils(s, steps[0]);
      }
    }
  }

  /**
   In every run from boot in which every join has returned, all of them returned the incarnation
   they were called for if and only if every call found a process in the slot and nobody joining it.
   */
  lemma JoinsMatchExactlyIfCareful(threads: nat, cpus: nat, keys: seq<nat>, steps: seq<ProcStep>)
    requires 2 <= threads && 1 <= cpus && Semaphores.KeysOk(keys)
    requires ProcInv(ProcInit(threads, cpus, keys)) && ProcRun(ProcInit(threads, cpus, keys), steps)
    requires var s := ProcAfter(ProcInit(threads, cpus, keys), steps);
      forall t :: 0 <= t < |s.act| ==> !s.act[t].Joining?
    ensures Matched(ProcAfter(ProcInit(threads, cpus, keys), steps)) <==>
            CarefulRun(ProcInit(threads, cpus, keys), steps)
  {
    CleanExactlyIfCareful(ProcInit(threads, cpus, keys), steps);
  }

  /** The spawner's rule for kernel threads makes every call, also those of processes, a careful one. */
  lemma SpawnersAreCareful(s: ProcState, step: ProcStep)
    requires FamilyInv(s) && ProcEnabled(s, step) && Disciplined(s, step)
    ensures Careful(s, step)
  {
    if step.JoinCall? {
      var me := s.m.current[step.cpu];
      assert ParentOk(s, step.slot) && ThreadOk(s, me);
      if s.pid[me] != NO_PROCESS {
        assert ThreadOk(s, s.spawner[step.slot]);
      }
      forall t | 0 <= t < |s.act|
        ensures !JoinsSlot(s.act[t], step.slot)
      {
        assert JoinerOk(s, t);
      }
    }
  }

  lemma RunFirst(s: ProcState, step: ProcStep, rest: seq<ProcStep>)
    requires ProcInv(s) && ProcEnabled(s, step) && ProcInv(ProcApply(s, step)) && ProcRun(ProcApply(s, step), rest)
    ensures ProcRun(s, [step] + rest)
    ensures ProcAfter(s, [step] + rest) == ProcAfter(ProcApply(s, step), rest)
  {
    assert ([step] + rest)[1..] == rest;
  }

  // ---------- A run in which a join returns another process ----------

  /** A run from `s` that ends in `s'`. */
  ghost predicate Leads(s: ProcState, steps: seq<ProcStep>, s': ProcState) {
    ProcInv(s) && ProcInv(s') && ProcRun(s, steps) && ProcAfter(s, steps) == s'
  }

  lemma LeadsOn(s: ProcState, steps: seq<ProcStep>, s': ProcState) returns (s1: ProcState)
    requires Leads(s, steps, s') && steps != []
    ensures ProcEnabled(s, steps[0]) && s1 == ProcApply(s, steps[0]) && Leads(s1, steps[1..], s')
  {
    ProcStepKeepsInv(s, steps[0]);
    s1 := ProcApply(s, steps[0]);
  }

  lemma LeadsFirst(s: ProcState, step: ProcStep, s1: ProcState, rest: seq<ProcStep>, s': ProcState)
    requires ProcInv(s) && ProcEnabled(s, step) && s1 == ProcApply(s, step) && Leads(s1, rest, s')
    ensures Leads(s, [step] + rest, s')
  {
    RunFirst(s, step, rest);
  }

  /** One step, taken on its own. */
  lemma OneStep(s: ProcState, step: ProcStep, s': ProcState)
    requires ProcInv(s) && ProcEnabled(s, step) && s' == ProcApply(s, step)
    ensures Leads(s, [step], s')
  {
    ProcStepKeepsInv(s, step);
    LeadsFirst(s, step, s', [], s');
    assert [step] + [] == [step];
  }

  lemma Regroup(a: seq<ProcStep>, b: seq<ProcStep>)
    requires a != []
    ensures [a[0]] + (a[1..] + b) == a + b
  {
  }

  lemma {:induction false} Then(s: ProcState, a: seq<ProcStep>, s1: ProcState, b: seq<ProcStep>, s2: ProcState)
    requires Leads(s, a, s1) && Leads(s1, b, s2)
    ensures Leads(s, a + b, s2)
    decreases |a|
  {
    if a == [] {
      assert a + b == b;
    } else {
      var next := LeadsOn(s, a, s1);
      Then(next, a[1..], s1, b, s2);
      LeadsFirst(s, a[0], next, a[1..] + b, s2);
      Regroup(a, b);
    }
  }

  /** A new thread is created, made ready and dispatched on a CPU. */
  ghost function Launching(t: Tid, c: nat): seq<ProcStep> {
    [Other(Create(t))] + [Other(Run(t))] + [Other(Schedule(c))]
  }

  ghost function Launched(s: ProcState, t: Tid, c: nat): ProcState
    requires Sized(s) && IsThread(s.m, t) && c < |s.m.current|
  {
    s.(m := s.m.(states := s.m.states[t := Running][IDLE := Ready], current := s.m.current[c := t]),
       pid := s.pid[t := NO_PROCESS], act := s.act[t := Working])
  }

  /** On an idle CPU, with nothing else ready, that takes three steps. */
  lemma Launch(s: ProcState, t: Tid, c: nat)
    requires ProcInv(s) && IsThread(s.m, t) && s.m.states[t] == Free && s.m.ready == []
    requires c < |s.m.current| && s.m.current[c] == IDLE
    ensures Leads(s, Launching(t, c), Launched(s, t, c))
  {
    var s1 := ProcApply(s, Other(Create(t)));
    OneStep(s, Other(Create(t)), s1);
    var s2 := ProcApply(s1, Other(Run(t)));
    OneStep(s1, Other(Run(t)), s2);
    LaunchDispatch(s, s2, t, c);
    Then(s, [Other(Create(t))], s1, [Other(Run(t))], s2);
    Then(s, [Other(Create(t))] + [Other(Run(t))], s2, [Other(Schedule(c))], Launched(s, t, c));
  }

  lemma LaunchDispatch(s: ProcState, s2: ProcState, t: Tid, c: nat)
    requires ProcInv(s) && ProcInv(s2) && IsThread(s.m, t) && c < |s.m.current| && s.m.current[c] == IDLE
    requires s2 == s.(m := s.m.(states := s.m.states[t := NonReady][t := Ready], ready := [t]),
                      pid := s.pid[t := NO_PROCESS], act := s.act[t := Working])
    requires s.m.ready == []
    ensures Leads(s2, [Other(Schedule(c))], Launched(s, t, c))
  {
    var s3 := ProcApply(s2, Other(Schedule(c)));
    OneStep(s2, Other(Schedule(c)), s3);
    assert s3.m.states == Launched(s, t, c).m.states;
    assert s3.m.ready == [];
  }

  /** Every thread carries no process and does nothing; slot 0 is vacant; CPUs from `c` on are idle. */
  ghost predicate Quiet(s: ProcState, c: nat) {
    && ProcInv(s) && |s.m.states| >= 4 && |s.m.current| >= 3 && |s.slots| >= 1
    && s.m.ready == [] && (forall t :: 0 <= t < |s.m.states| ==> s.m.sleepsOn[t] == 0)
    && (forall t :: 0 < t < |s.m.states| ==> s.m.states[t] == if t <= c then Running else Free)
    && (forall k :: c <= k < |s.m.current| ==> s.m.current[k] == IDLE)
    && (forall k :: 0 <= k < c && k < |s.m.current| ==> s.m.current[k] == k + 1)
    && (forall t :: 0 <= t < |s.act| ==> s.act[t] == Working && s.pid[t] == NO_PROCESS)
    && s.slots[0] == Slot(Vacant, 0, NO_PROCESS) && s.epoch[0] == 0 && s.reaped == []
  }

  lemma BootIsQuiet(threads: nat, cpus: nat, keys: seq<nat>)
    requires 4 <= threads && 3 <= cpus && Semaphores.KeysOk(keys) && keys != []
    ensures Quiet(ProcInit(threads, cpus, keys), 0)
  {
    ProcInitInv(threads, cpus, keys);
  }

  lemma QuietLaunch(s: ProcState, c: nat)
    requires Quiet(s, c) && c < 2
    ensures Leads(s, Launching(c + 1, c), Launched(s, c + 1, c)) && Quiet(Launched(s, c + 1, c), c + 1)
  {
    Launch(s, c + 1, c);
  }

  /** Thread 1 calls join on the vacant slot, thread 2 allocates it and writes the parent. */
  ghost function Spawn(): seq<ProcStep> {
    [JoinCall(0, 0)] + [Alloc(1)] + [SetParent(1)]
  }

  /** Slot 0 is spawned and not yet run; thread 1 is in a join called before. */
  ghost predicate Spawned(s: ProcState) {
    && ProcInv(s) && |s.m.states| >= 4 && |s.m.current| >= 3 && |s.slots| >= 1
    && s.m.ready == [] && (forall t :: 0 <= t < |s.m.states| ==> s.m.sleepsOn[t] == 0)
    && s.m.states[1] == Running && s.m.states[3] == Free && s.m.current[0] == 1 && s.m.current[1] == 2
    && s.m.current[2] == IDLE
   
   
    && (forall t :: 0 <= t < |s.act| ==>
          s.pid[t] == NO_PROCESS && s.act[t] == if t == 1 then Joining(0, 0, true) else Working)
    && s.slots[0].state == Active && s.epoch[0] == 1 && s.runner[0] == -1 && s.reaped == []
  }

  lemma QuietSpawn(s: ProcState) returns (s': ProcState)
    requires Quiet(s, 2)
    ensures Leads(s, Spawn(), s') && Spawned(s')
  {
    assert s.m.current[0] == 1 && s.m.current[1] == 2;
    assert 1 in s.m.current && 2 in s.m.current;
    var s1 := s.(act := s.act[1 := Joining(0, 0, true)]);
    QuietJoin(s, s1);
    var s2 := AllocAt(s1, 2, 0);
    assert FirstVacant(s1.slots, 0);
    AllocTakesFirst(s1, 1, 0);
    OneStep(s1, Alloc(1), s2);
    s' := DoSetParent(s2, 1);
    OneStep(s2, SetParent(1), s');
    Then(s, [JoinCall(0, 0)], s1, [Alloc(1)], s2);
    Then(s, [JoinCall(0, 0)] + [Alloc(1)], s2, [SetParent(1)], s');
  }

  lemma QuietJoin(s: ProcState, s1: ProcState)
    requires Quiet(s, 2) && s.m.current[0] == 1 && s1 == s.(act := s.act[1 := Joining(0, 0, true)])
    ensures Leads(s, [JoinCall(0, 0)], s1)
  {
    assert 1 in s.m.current;
    OneStep(s, JoinCall(0, 0), s1);
  }

  /** Thread 3 runs the process of slot 0, or has just finished it. */
  ghost predicate Running3(s: ProcState, state: SlotState) {
    && ProcInv(s) && |s.m.states| >= 4 && |s.m.current| >= 3 && |s.slots| >= 1
    && s.m.current[0] == 1 && s.m.current[2] == 3 && CanAct(s.m, 0) && s.pid[3] == 0
    && (forall t :: 0 <= t < |s.act| && t != 1 ==> !s.act[t].Joining?) && s.act[1] == Joining(0, 0, true)
    && s.slots[0].state == state && s.epoch[0] == 1 && s.reaped == []
  }

  lemma StartSpawned(s: ProcState) returns (s': ProcState)
    requires Spawned(s)
    ensures Leads(s, Launching(3, 2) + [Start(2, 0)], s') && Running3(s', Active) && AtWork(s', 2)
  {
    Launch(s, 3, 2);
    var s1 := Launched(s, 3, 2);
    s' := StartLaunched(s, s1);
    Then(s, Launching(3, 2), s1, [Start(2, 0)], s');
  }

  lemma StartLaunched(s: ProcState, s1: ProcState) returns (s': ProcState)
    requires Spawned(s) && s1 == Launched(s, 3, 2) && ProcInv(s1)
    ensures Leads(s1, [Start(2, 0)], s') && Running3(s', Active) && AtWork(s', 2)
  {
    s' := DoStart(s1, 2, 0);
    OneStep(s1, Start(2, 0), s');
  }

  lemma ExitSpawned(s: ProcState, v: int) returns (s': ProcState)
    requires Running3(s, Active) && AtWork(s, 2)
    ensures Leads(s, [Exit(2, v)], s') && Running3(s', Zombie) && s'.slots[0].retval == v
  {
    s' := DoExit(s, 2, v);
    OneStep(s, Exit(2, v), s');
    WakeAllRows(s.m, s.keys[0], 1);
  }

  lemma ReapSpawned(s: ProcState, v: int) returns (s': ProcState)
    requires Running3(s, Zombie) && s.slots[0].retval == v
    ensures Leads(s, [JoinTry(0)], s') && s'.reaped == [Return(0, 0, 1, v, true)]
    ensures forall t :: 0 <= t < |s'.act| ==> !s'.act[t].Joining?
  {
    s' := DoJoinTry(s, 0);
    OneStep(s, JoinTry(0), s');
  }

  /** Two kernel threads start; the first joins the vacant slot 0, the second spawns a process there, which finishes. */
  ghost function StrayRun(v: int): seq<ProcStep> {
    Launching(1, 0) + Launching(2, 1) + Spawn() + (Launching(3, 2) + [Start(2, 0)]) + [Exit(2, v)] + [JoinTry(0)]
  }

  lemma StrayRunLeads(s0: ProcState, v: int) returns (s: ProcState)
    requires Quiet(s0, 0)
    ensures Leads(s0, StrayRun(v), s) && s.reaped == [Return(0, 0, 1, v, true)]
    ensures forall t :: 0 <= t < |s.act| ==> !s.act[t].Joining?
  {
    QuietLaunch(s0, 0);
    var s1 := Launched(s0, 1, 0);
    QuietLaunch(s1, 1);
    var s2 := Launched(s1, 2, 1);
    var s3 := QuietSpawn(s2);
    var s4 := StartSpawned(s3);
    var s5 := ExitSpawned(s4, v);
    s := ReapSpawned(s5, v);
    Then(s0, Launching(1, 0), s1, Launching(2, 1), s2);
    Then(s0, Launching(1, 0) + Launching(2, 1), s2, Spawn(), s3);
    var spawned := Launching(1, 0) + Launching(2, 1) + Spawn();
    Then(s0, spawned, s3, Launching(3, 2) + [Start(2, 0)], s4);
    Then(s0, spawned + (Launching(3, 2) + [Start(2, 0)]), s4, [Exit(2, v)], s5);
    Then(s0, spawned + (Launching(3, 2) + [Start(2, 0)]) + [Exit(2, v)], s5, [JoinTry(0)], s);
  }

  /**
   The property fails on every machine with three CPUs, three threads and a slot: this run from
   boot leaves no join pending, and its join returned a process that did not exist at the call.
   */
  lemma StrayJoinFromBoot(threads: nat, cpus: nat, keys: seq<nat>, v: int)
    requires 4 <= threads && 3 <= cpus && Semaphores.KeysOk(keys) && keys != []
    ensures ProcInv(ProcInit(threads, cpus, keys)) && ProcRun(ProcInit(threads, cpus, keys), StrayRun(v))
    ensures var s := ProcAfter(ProcInit(threads, cpus, keys), StrayRun(v));
      && s.reaped == [Return(0, 0, 1, v, true)] && !Matched(s)
      && forall t :: 0 <= t < |s.act| ==> !s.act[t].Joining?
    ensures !CarefulRun(ProcInit(threads, cpus, keys), StrayRun(v))
  {
    BootIsQuiet(threads, cpus, keys);
    var s := StrayRunLeads(ProcInit(threads, cpus, keys), v);
    assert s.reaped[0].asked != s.reaped[0].got;
    JoinsMatchExactlyIfCareful(threads, cpus, keys, StrayRun(v));
  }

  // ---------- The process table ----------

  lemma AllocTakesFirst(s: ProcState, c: nat, q: nat)
    requires ProcInv(s) && AtWork(s, c) && FirstVacant(s.slots, q)
    ensures ProcEnabled(s, Alloc(c)) && DoAlloc(s, c) == AllocAt(s, s.m.current[c], q)
  {
    assert ProcEnabled(s, Alloc(c));
    var p: nat :| FirstVacant(s.slots, p) && DoAlloc(s, c) == AllocAt(s, s.m.current[c], p);
    assert s.slots[p].state == s.slots[q].state == Vacant;
  }

  /** The state once the thread on `c` has taken the value of slot `q`. */
  ghost function ReapAt(s: ProcState, c: nat, q: nat): ProcState
    requires Sized(s) && c < |s.m.current| && q < |s.slots| && s.act[s.m.current[c]].Joining?
  {
    var a := s.act[s.m.current[c]];
    s.(slots := s.slots[q := Slot(Vacant, 0, NO_PROCESS)], act := s.act[s.m.current[c] := Working],
       reaped := s.reaped + [Return(q, a.asked, s.epoch[q], s.slots[q].retval, a.vacant)])
  }

  /** What a turn of the loop does, part by part. */
  lemma TryParts(s: ProcState, c: nat, q: nat) returns (s': ProcState)
    requires ProcInv(s) && ProcEnabled(s, JoinTry(c)) && s.act[s.m.current[c]].slot == q
    ensures s' == DoJoinTry(s, c) && ProcInv(s') && q < |s.slots|
    ensures s.slots[q].state == Zombie ==> s' == ReapAt(s, c, q) && (q, s.epoch[q]) in s.finished
    ensures s.slots[q].state == Zombie ==> s.finished[(q, s.epoch[q])] == s.slots[q].retval
    ensures s.slots[q].state != Zombie ==>
      Enabled(s.m, Sleep(c, s.keys[q])) && s' == s.(m := DoSleep(s.m, c, s.keys[q]))
  {
    ProcStepKeepsInv(s, JoinTry(c));
    s' := DoJoinTry(s, c);
    assert SlotOk(s, q);
  }

  class ProcessTable {
    const kernel: Kernel.ThreadTable
    const slots: array<Slot>
    const processId: array<int>
    const keys: seq<nat>
    ghost var epoch: seq<nat>
    ghost var spawner: seq<Tid>
    ghost var runner: seq<Tid>
    ghost var act: seq<Activity>
    ghost var finished: map<(nat, nat), int>
    ghost var reaped: seq<Return>

    ghost function View(): ProcState
      reads this, slots, processId, kernel, kernel.threads, kernel.current
    {
      ProcState(kernel.View(), keys, slots[..], epoch, spawner, runner, processId[..], act, finished, reaped)
    }

    ghost predicate Valid()
      reads this, slots, processId, kernel, kernel.threads, kernel.hashtable, kernel.current
    {
      && kernel.Valid() && ProcInv(View())
      && processId != kernel.hashtable && processId != kernel.current
    }

    /** process_init on a machine that has just booted its thread table. */
    constructor (kernel: Kernel.ThreadTable, keys: seq<nat>)
      requires kernel.Valid() && Semaphores.KeysOk(keys)
      requires 2 <= kernel.threads.Length && 1 <= kernel.current.Length
      requires kernel.View() == Init(kernel.threads.Length, kernel.current.Length)
      ensures Valid() && this.kernel == kernel
      ensures View() == ProcInit(kernel.threads.Length, kernel.current.Length, keys)
      ensures fresh(slots) && fresh(processId)
    {
      this.kernel := kernel;
      this.keys := keys;
      slots := new Slot[|keys|](_ => Slot(Vacant, 0, NO_PROCESS));
      processId := new int[kernel.threads.Length](_ => NO_PROCESS);
      epoch, spawner, runner := seq(|keys|, _ => 0), seq(|keys|, _ => IDLE), seq(|keys|, _ => -1);
      act := seq(kernel.threads.Length, _ => Working);
      finished, reaped := map[], [];
      new;
      assert View() == ProcInit(kernel.threads.Length, kernel.current.Length, keys);
      ProcInitInv(kernel.threads.Length, kernel.current.Length, keys);
    }

    /** alloc_process_id: takes the first vacant slot; returns the table's length if there is none. */
    method AllocId(cpu: nat) returns (i: nat)
      requires Valid() && AtWork(View(), cpu)
      modifies this`epoch, this`spawner, this`runner, this`act, slots
      ensures Valid()
      ensures i == slots.Length <==> forall j :: 0 <= j < slots.Length ==> old(slots[j].state) != Vacant
      ensures i == slots.Length ==> View() == old(View())
      ensures i != slots.Length ==> ProcEnabled(old(View()), Alloc(cpu)) && View() == DoAlloc(old(View()), cpu)
      ensures i != slots.Length ==> FirstVacant(old(slots[..]), i)
    {
      i := FindVacant();
      if i < slots.Length {
        Occupy(cpu, i);
      }
    }

    method FindVacant() returns (i: nat)
      ensures i <= slots.Length
      ensures i < slots.Length ==> FirstVacant(slots[..], i)
      ensures i == slots.Length ==> forall j :: 0 <= j < slots.Length ==> slots[j].state != Vacant
    {
      i := 0;
      while i < slots.Length && slots[i].state != Vacant
        invariant i <= slots.Length
        invariant forall j :: 0 <= j < i ==> slots[j].state != Vacant
      {
        i := i + 1;
      }
    }

    method Occupy(cpu: nat, i: nat)
      requires Valid() && AtWork(View(), cpu) && FirstVacant(slots[..], i)
      modifies this`epoch, this`spawner, this`runner, this`act, slots
      ensures Valid() && ProcEnabled(old(View()), Alloc(cpu)) && View() == DoAlloc(old(View()), cpu)
    {
      ghost var s := View();
      AllocTakesFirst(s, cpu, i);
      AllocKeeps(s, cpu);
      Mark(kernel.current[cpu], i);
    }

    /** The write to the slot, and what it means. */
    method Mark(ghost t: Tid, i: nat)
      requires kernel.Valid() && Sized(View()) && 0 <= t < |act| && i < slots.Length
      modifies this`epoch, this`spawner, this`runner, this`act, slots
      ensures kernel.Valid() && View() == AllocAt(old(View()), t, i)
    {
      SetActive(i);
      NoteAllocated(t, i);
    }

    ghost method NoteAllocated(t: Tid, i: nat)
      requires i < |epoch| == |spawner| == |runner| && 0 <= t < |act|
      modifies this`epoch, this`spawner, this`runner, this`act
      ensures epoch == old(epoch)[i := old(epoch)[i] + 1] && spawner == old(spawner)[i := t]
      ensures runner == old(runner)[i := -1] && act == old(act)[t := Spawning(i)]
    {
      epoch, spawner, runner := epoch[i := epoch[i] + 1], spawner[i := t], runner[i := -1];
      act := act[t := Spawning(i)];
    }

    method SetActive(i: nat)
      requires kernel.Valid() && i < slots.Length
      modifies slots
      ensures kernel.Valid() && View() == old(View()).(slots := old(slots[..])[i := old(slots[i]).(state := Active)])
    {
      slots[i] := slots[i].(state := Active);
    }

    /** The two slot writes and the loop over the children in process_finish. */
    method MarkFinished(p: nat, retval: int)
      requires p < slots.Length
      modifies slots
      ensures slots[..] == Orphaned(old(slots[..]), p, retval)
    {
      ghost var before := slots[..];
      slots[p] := slots[p].(state := Zombie, retval := retval);
      ghost var marked := slots[..];
      for i := 0 to slots.Length
        invariant forall j :: 0 <= j < i ==> slots[j] == Orphaned(before, p, retval)[j]
        invariant forall j :: i <= j < slots.Length ==> slots[j] == marked[j]
      {
        if slots[i].parent == p {
          slots[i] := slots[i].(parent := NO_PROCESS);
        }
      }
    }

    /** thread_create: the reserved row runs no process. */
    method CreateThread() returns (tid: Tid)
      requires Valid()
      modifies this`act, processId, kernel`nextTid, kernel.threads
      ensures Valid()
      ensures tid < 0 <==> forall t :: 0 < t < kernel.threads.Length ==> old(kernel.threads[t].state) != Free
      ensures tid < 0 ==> View() == old(View())
      ensures tid >= 0 ==> ProcEnabled(old(View()), Other(Machine.Create(tid)))
      ensures tid >= 0 ==> View() == DoOther(old(View()), Machine.Create(tid))
    {
      ghost var s := View();
      tid := kernel.Create();
      if tid >= 0 {
        ProcStepKeepsInv(s, Other(Machine.Create(tid)));
        ClearProcessId(tid);
      }
    }

    method ClearProcessId(t: Tid)
      requires kernel.Valid() && 0 <= t < processId.Length && t < |act|
      requires processId != kernel.hashtable && processId != kernel.current
      modifies this`act, processId
      ensures kernel.Valid()
      ensures View() == old(View()).(pid := old(processId[..])[t := NO_PROCESS], act := old(act)[t := Working])
    {
      processId[t] := NO_PROCESS;
      act := act[t := Working];
    }

    /** The parent write of process_spawn and process_fork. */
    method WriteParent(cpu: nat, pid: nat)
      requires Valid() && ProcEnabled(View(), SetParent(cpu)) && act[kernel.current[cpu]].slot == pid
      modifies this`act, slots
      ensures Valid() && View() == DoSetParent(old(View()), cpu)
    {
      ghost var s := View();
      ProcStepKeepsInv(s, SetParent(cpu));
      SetParentField(pid, processId[kernel.current[cpu]], kernel.current[cpu]);
    }

    method SetParentField(pid: nat, parent: int, ghost t: Tid)
      requires kernel.Valid() && pid < slots.Length && 0 <= t < |act|
      modifies this`act, slots
      ensures kernel.Valid()
      ensures View() == old(View()).(slots := old(slots[..])[pid := old(slots[pid]).(parent := parent)],
                                     act := old(act)[t := Working])
    {
      slots[pid] := slots[pid].(parent := parent);
      act := act[t := Working];
    }

    /** process_start and process_fork_setup: the new thread takes the process id. */
    method TakeProcessId(cpu: nat, pid: nat)
      requires Valid() && ProcEnabled(View(), Start(cpu, pid))
      modifies this`runner, processId
      ensures Valid() && View() == DoStart(old(View()), cpu, pid)
    {
      ghost var s := View();
      ProcStepKeepsInv(s, Start(cpu, pid));
      SetProcessId(kernel.current[cpu], pid);
    }

    method SetProcessId(t: Tid, pid: nat)
      requires kernel.Valid() && 0 <= t < processId.Length && pid < |runner|
      requires processId != kernel.hashtable && processId != kernel.current
      modifies this`runner, processId
      ensures kernel.Valid()
      ensures View() == old(View()).(pid := old(processId[..])[t := pid], runner := old(runner)[pid := t])
    {
      processId[t] := pid;
      runner := runner[pid := t];
    }

    /** The locked section of process_finish. */
    method FinishProcess(cpu: nat, retval: int)
      requires Valid() && ProcEnabled(View(), Exit(cpu, retval))
      modifies this`act, this`finished, slots
      modifies kernel`head, kernel`tail, kernel`ready, kernel`sleepers, kernel`chains, kernel.threads, kernel.hashtable
      ensures Valid() && View() == DoExit(old(View()), cpu, retval)
    {
      ghost var s := View();
      var me := kernel.current[cpu];
      var p := processId[me];
      act := act[me := Exiting];
      finished := finished[(p, epoch[p]) := retval];
      MarkFinished(p, retval);
      WakeJoiners(p, s, cpu, retval);
    }

    /** The wake-up in process_finish, once the slots are written. */
    method WakeJoiners(p: nat, ghost s: ProcState, ghost cpu: nat, ghost retval: int)
      requires kernel.Valid() && processId != kernel.hashtable && processId != kernel.current
      requires ProcInv(s) && ProcEnabled(s, Exit(cpu, retval)) && p == s.pid[s.m.current[cpu]] < |keys|
      requires View() == s.(slots := Orphaned(s.slots, p, retval), act := s.act[s.m.current[cpu] := Exiting],
                            finished := s.finished[(p, s.epoch[p]) := retval])
      modifies kernel`head, kernel`tail, kernel`ready, kernel`sleepers, kernel`chains, kernel.threads, kernel.hashtable
      ensures Valid() && View() == DoExit(s, cpu, retval)
    {
      kernel.SleepqWakeAll(keys[p]);
      ExitKeeps(s, cpu, retval);
    }

    /** The check at the head of process_join; `pid` is whatever the caller passed. */
    method JoinAllowed(cpu: nat, pid: int) returns (ok: bool)
      requires Valid() && AtWork(View(), cpu)
      modifies this`act
      ensures Valid()
      ensures ok <==> 0 <= pid < slots.Length && slots[pid].parent == processId[kernel.current[cpu]]
      ensures ok ==> ProcEnabled(old(View()), JoinCall(cpu, pid)) && View() == DoJoinCall(old(View()), cpu, pid)
      ensures !ok ==> View() == old(View())
    {
      ghost var s := View();
      if pid < 0 || pid >= slots.Length || slots[pid].parent != processId[kernel.current[cpu]] {
        return false;
      }
      JoinCallKeeps(s, cpu, pid);
      act := act[kernel.current[cpu] := Joining(pid, epoch[pid], slots[pid].state == Vacant)];
      assert View() == DoJoinCall(s, cpu, pid);
      return true;
    }

    /** One turn of process_join's loop: `done` with the child's value, or queued on its slot. */
    method JoinTurn(cpu: nat, pid: nat) returns (done: bool, retval: int)
      requires Valid() && ProcEnabled(View(), JoinTry(cpu)) && act[kernel.current[cpu]].slot == pid
      modifies this`act, this`reaped, slots, kernel`sleepers, kernel`chains, kernel.threads, kernel.hashtable
      ensures Valid() && View() == DoJoinTry(old(View()), cpu)
      ensures done <==> old(slots[pid].state) == Zombie
      ensures done ==> (pid, epoch[pid]) in finished && retval == finished[(pid, epoch[pid])]
    {
      ghost var s := View();
      ghost var after := TryParts(s, cpu, pid);
      done := slots[pid].state == Zombie;
      if done {
        retval := Reap(cpu, pid);
      } else {
        retval := 0;
        WaitFor(cpu, pid);
      }
      assert View() == after;
    }

    /** The slot is read and freed, and the join is over. */
    method Reap(cpu: nat, pid: nat) returns (retval: int)
      requires kernel.Valid() && Sized(View()) && pid < slots.Length && cpu < kernel.current.Length
      requires act[kernel.current[cpu]].Joining?
      modifies this`act, this`reaped, slots
      ensures kernel.Valid() && View() == ReapAt(old(View()), cpu, pid) && retval == old(slots[pid].retval)
    {
      retval := slots[pid].retval;
      ghost var a := act[kernel.current[cpu]];
      slots[pid] := Slot(Vacant, 0, NO_PROCESS);
      act := act[kernel.current[cpu] := Working];
      reaped := reaped + [Return(pid, a.asked, epoch[pid], retval, a.vacant)];
    }

    method WaitFor(cpu: nat, pid: nat)
      requires kernel.Valid() && pid < |keys| && Enabled(kernel.View(), Sleep(cpu, keys[pid]))
      requires processId != kernel.hashtable && processId != kernel.current
      modifies kernel`sleepers, kernel`chains, kernel.threads, kernel.hashtable
      ensures kernel.Valid() && View() == old(View()).(m := DoSleep(old(kernel.View()), cpu, keys[pid]))
    {
      kernel.SleepqAdd(cpu, keys[pid]);
    }
  }
}
