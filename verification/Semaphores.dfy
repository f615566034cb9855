/**
 Counting semaphores on top of the sleep queue. `P` does not look at the value again after it
 has been woken, so the value and the queue must agree in every reachable state. The steps of
 this module interleave with every other step of the thread machine.
 */
module Semaphores {
  import opened Sequences
  import opened Machine
  import Kernel

  /** A row of the semaphore table, with the numbers of P and V calls made since its creation. */
  datatype Sem = Sem(creator: int, value: int, initial: nat, downs: nat, ups: nat)

  const UNRESERVED := -1

  /** `keys[i]` is the address of row `i`, under which its waiters sleep. */
  datatype SemState = SemState(m: State, sems: seq<Sem>, keys: seq<nat>)

  datatype SemStep =
    | Other(step: Step)
    | New(cpu: nat, i: nat, initial: nat)
    | Destroy(i: nat)
    | Down(cpu: nat, i: nat)
    | Up(i: nat)

  ghost predicate KeysOk(keys: seq<nat>) {
    Distinct(keys) && forall i :: 0 <= i < |keys| ==> keys[i] != 0
  }

  ghost predicate Live(s: Sem) {
    s.creator != UNRESERVED
  }

  ghost function Deficit(value: int): nat {
    if value < 0 then -value else 0
  }

  /** Row `i`: its queue is as long as its value is below zero, and its value counts the calls. */
  ghost predicate RowOk(s: SemState, i: nat)
    requires i < |s.sems| == |s.keys|
  {
    && |Waiters(s.m, s.keys[i])| == (if Live(s.sems[i]) then Deficit(s.sems[i].value) else 0)
    && (Live(s.sems[i]) ==> s.sems[i].value == s.sems[i].initial + s.sems[i].ups - s.sems[i].downs)
  }

  ghost predicate SemInv(s: SemState) {
    && Inv(s.m)
    && |s.sems| == |s.keys| && KeysOk(s.keys)
    && forall i :: 0 <= i < |s.sems| ==> RowOk(s, i)
  }

  /** The resource a step of the thread machine queues on or wakes, or 0. */
  ghost function Resource(step: Step): nat {
    match step
    case Sleep(_, r) => r
    case Wake(r) => r
    case WakeAll(r) => r
    case _ => 0
  }

  ghost predicate SemEnabled(s: SemState, step: SemStep)
    requires SemInv(s)
  {
    match step
    case Other(k) => Enabled(s.m, k) && Resource(k) !in s.keys
    case New(c, i, _) => c < |s.m.current| && i < |s.sems| && !Live(s.sems[i])
    case Destroy(i) => i < |s.sems| && Live(s.sems[i]) && s.sems[i].value >= 0
    case Down(c, i) => i < |s.sems| && Live(s.sems[i]) && (s.sems[i].value <= 0 ==> CanAct(s.m, c))
    case Up(i) => i < |s.sems| && Live(s.sems[i])
  }

  ghost function DoDown(s: SemState, c: nat, i: nat): SemState
    requires SemInv(s) && SemEnabled(s, Down(c, i))
  {
    var v := s.sems[i].value - 1;
    s.(sems := s.sems[i := s.sems[i].(value := v, downs := s.sems[i].downs + 1)],
       m := if v < 0 then DoSleep(s.m, c, s.keys[i]) else s.m)
  }

  ghost function DoUp(s: SemState, i: nat): SemState
    requires SemInv(s) && SemEnabled(s, Up(i))
  {
    var v := s.sems[i].value + 1;
    s.(sems := s.sems[i := s.sems[i].(value := v, ups := s.sems[i].ups + 1)],
       m := if v <= 0 then DoWake(s.m, s.keys[i]) else s.m)
  }

  ghost function DoNew(s: SemState, c: nat, i: nat, initial: nat): SemState
    requires SemInv(s) && SemEnabled(s, New(c, i, initial))
  {
    s.(sems := s.sems[i := Sem(s.m.current[c], initial, initial, 0, 0)])
  }

  ghost function DoDestroy(s: SemState, i: nat): SemState
    requires SemInv(s) && SemEnabled(s, Destroy(i))
  {
    s.(sems := s.sems[i := s.sems[i].(creator := UNRESERVED)])
  }

  ghost function SemApply(s: SemState, step: SemStep): SemState
    requires SemInv(s) && SemEnabled(s, step)
  {
    match step
    case Other(k) => s.(m := Apply(s.m, k))
    case New(c, i, initial) => DoNew(s, c, i, initial)
    case Destroy(i) => DoDestroy(s, i)
    case Down(c, i) => DoDown(s, c, i)
    case Up(i) => DoUp(s, i)
  }

  // ---------- Every step keeps value and queue in agreement ----------

  /** A step that does not name resource `q` leaves the queue of `q` alone. */
  lemma ForeignStep(m: State, step: Step, q: nat)
    requires Inv(m) && Enabled(m, step) && q != 0 && Resource(step) != q
    ensures Waiters(Apply(m, step), q) == Waiters(m, q)
  {
    match step
    case Sleep(c, r) => SleepAppends(m, c, r, q);
    case Wake(r) => WakeRemovesOldest(m, r, q);
    case WakeAll(r) => WakeAllQueues(m, r, q);
    case Create(_) => assert SleepingOn(Apply(m, step), q) == SleepingOn(m, q);
    case Run(_) => assert SleepingOn(Apply(m, step), q) == SleepingOn(m, q);
    case Schedule(_) => assert SleepingOn(Apply(m, step), q) == SleepingOn(m, q);
    case Finish(_) => assert SleepingOn(Apply(m, step), q) == SleepingOn(m, q);
  }

  lemma DownKeepsInv(s: SemState, c: nat, i: nat)
    requires SemInv(s) && SemEnabled(s, Down(c, i))
    ensures SemInv(DoDown(s, c, i))
  {
    var s' := DoDown(s, c, i);
    assert RowOk(s, i);
    if s'.sems[i].value < 0 {
      SleepKeepsInv(s.m, c, s.keys[i]);
    }
    forall j | 0 <= j < |s.sems|
      ensures RowOk(s', j)
    {
      assert RowOk(s, j);
      if s'.sems[i].value < 0 {
        SleepAppends(s.m, c, s.keys[i], s.keys[j]);
      }
    }
  }

  /** What a P on row `i` does, part by part. */
  ghost predicate LowersTo(s: SemState, s': SemState, c: nat, i: nat) {
    && i < |s.sems| == |s.keys| && s'.keys == s.keys && Inv(s.m)
    && s'.sems == s.sems[i := s.sems[i].(value := s.sems[i].value - 1, downs := s.sems[i].downs + 1)]
    && if s.sems[i].value - 1 < 0
       then Enabled(s.m, Sleep(c, s.keys[i])) && s'.m == DoSleep(s.m, c, s.keys[i])
       else s'.m == s.m
  }

  lemma DownParts(s: SemState, c: nat, i: nat) returns (s': SemState)
    requires SemInv(s) && SemEnabled(s, Down(c, i))
    ensures s' == DoDown(s, c, i) && SemInv(s') && LowersTo(s, s', c, i)
  {
    s' := DoDown(s, c, i);
    DownKeepsInv(s, c, i);
  }

  lemma UpKeepsInv(s: SemState, i: nat)
    requires SemInv(s) && SemEnabled(s, Up(i))
    ensures SemInv(DoUp(s, i))
  {
    var s' := DoUp(s, i);
    assert RowOk(s, i);
    if s'.sems[i].value <= 0 {
      WakeKeepsInv(s.m, s.keys[i]);
    }
    forall j | 0 <= j < |s.sems|
      ensures RowOk(s', j)
    {
      assert RowOk(s, j);
      if s'.sems[i].value <= 0 {
        WakeRemovesOldest(s.m, s.keys[i], s.keys[j]);
      }
    }
  }

  /** What a V on row `i` does, part by part. */
  ghost predicate RaisesTo(s: SemState, s': SemState, i: nat) {
    && i < |s.sems| == |s.keys| && s.keys[i] != 0 && s'.keys == s.keys && Inv(s.m)
    && s'.sems == s.sems[i := s.sems[i].(value := s.sems[i].value + 1, ups := s.sems[i].ups + 1)]
    && s'.m == if s.sems[i].value + 1 <= 0 then DoWake(s.m, s.keys[i]) else s.m
  }

  lemma UpParts(s: SemState, i: nat) returns (s': SemState)
    requires SemInv(s) && SemEnabled(s, Up(i))
    ensures s' == DoUp(s, i) && SemInv(s') && RaisesTo(s, s', i)
  {
    s' := DoUp(s, i);
    UpKeepsInv(s, i);
  }

  lemma OtherKeepsInv(s: SemState, k: Step)
    requires SemInv(s) && SemEnabled(s, Other(k))
    ensures SemInv(SemApply(s, Other(k)))
  {
    StepKeepsInv(s.m, k);
    var s' := SemApply(s, Other(k));
    forall j | 0 <= j < |s.sems|
      ensures RowOk(s', j)
    {
      assert RowOk(s, j);
      assert s.keys[j] in s.keys;
      ForeignStep(s.m, k, s.keys[j]);
    }
  }

  lemma SemStepKeepsInv(s: SemState, step: SemStep)
    requires SemInv(s) && SemEnabled(s, step)
    ensures SemInv(SemApply(s, step))
  {
    match step
    case Other(k) => OtherKeepsInv(s, k);
    case New(c, i, initial) =>
      assert forall j :: 0 <= j < |s.sems| ==> RowOk(s, j) ==> RowOk(DoNew(s, c, i, initial), j);
    case Destroy(i) =>
      assert forall j :: 0 <= j < |s.sems| ==> RowOk(s, j) ==> RowOk(DoDestroy(s, i), j);
    case Down(c, i) => DownKeepsInv(s, c, i);
    case Up(i) => UpKeepsInv(s, i);
  }

  // ---------- What that means for callers ----------

  /** The P calls on row `i` that no longer wait. */
  ghost function Passed(s: SemState, i: nat): int
    requires i < |s.sems| == |s.keys|
  {
    s.sems[i].downs - |Waiters(s.m, s.keys[i])|
  }

  /** P calls that got through are the initial value plus the V calls, less what is still available. */
  lemma PassedExactly(s: SemState, i: nat)
    requires SemInv(s) && i < |s.sems| && Live(s.sems[i])
    ensures Passed(s, i) == s.sems[i].initial + s.sems[i].ups - (if s.sems[i].value > 0 then s.sems[i].value else 0)
    ensures Passed(s, i) <= s.sems[i].initial + s.sems[i].ups
    ensures Waiters(s.m, s.keys[i]) != [] ==> Passed(s, i) == s.sems[i].initial + s.sems[i].ups
  {
    assert RowOk(s, i);
  }

  /** V on a semaphore in deficit finds a waiter and releases exactly the oldest one. */
  lemma UpReleasesOldest(s: SemState, i: nat)
    requires SemInv(s) && SemEnabled(s, Up(i)) && s.sems[i].value < 0
    ensures Waiters(s.m, s.keys[i]) != []
    ensures var t, m' := Waiters(s.m, s.keys[i])[0], DoUp(s, i).m;
      && IsThread(s.m, t) && m' == Release(s.m, t)
      && Waiters(m', s.keys[i]) == Waiters(s.m, s.keys[i])[1..]
      && (t in m'.ready || (t in m'.current && m'.states[t] == Running && m'.sleepsOn[t] == 0))
  {
    assert RowOk(s, i);
    var w := Waiters(s.m, s.keys[i]);
    WaitersAreThreads(s.m, s.keys[i]);
    assert w[0] in w;
    WakeRemovesOldest(s.m, s.keys[i], s.keys[i]);
  }

  /**
   No lost wakeup: a thread released between queueing itself and leaving its CPU does not go
   to sleep when it leaves; a thread not released does, and stays queued.
   */
  lemma LeavingAfterWakeup(m: State, c: nat)
    requires Inv(m) && c < |m.current| && m.current[c] != IDLE && m.states[m.current[c]] == Running
    ensures var t, m' := m.current[c], DoSchedule(m, c);
      && |m'.states| == |m.states|
      && (m.sleepsOn[t] == 0 ==> t in m'.ready || m'.current[c] == t)
      && (m.sleepsOn[t] != 0 ==> m'.states[t] == Sleeping && t in Waiters(m', m.sleepsOn[t]))
  {
    var t := m.current[c];
    var m1, m' := Leave(m, c), DoSchedule(m, c);
    assert t in m.current;
    ScheduleKeepsInv(m, c);
    if m.sleepsOn[t] == 0 {
      assert m1.ready == m.ready + [t] && m1.ready[|m1.ready| - 1] == t;
      assert m1.ready == [m1.ready[0]] + m1.ready[1..];
    } else {
      LeaveKeeps(m, c);
      WaitersAreThreads(m', m.sleepsOn[t]);
      assert m1.states[t] == Sleeping;
      assert m1.ready != [] ==> m1.ready[0] in m1.ready;
    }
  }

  // ---------- Whole runs ----------

  ghost predicate SemRun(s: SemState, steps: seq<SemStep>)
    requires SemInv(s)
    decreases |steps|
  {
    steps == [] ||
    (SemEnabled(s, steps[0]) && (SemStepKeepsInv(s, steps[0]); SemRun(SemApply(s, steps[0]), steps[1..])))
  }

  ghost function SemAfter(s: SemState, steps: seq<SemStep>): SemState
    requires SemInv(s) && SemRun(s, steps)
    decreases |steps|
  {
    if steps == [] then s else
      SemStepKeepsInv(s, steps[0]);
      SemAfter(SemApply(s, steps[0]), steps[1..])
  }

  ghost function SemInit(threads: nat, cpus: nat, keys: seq<nat>): SemState {
    SemState(Init(threads, cpus), seq(|keys|, _ => Sem(UNRESERVED, 0, 0, 0, 0)), keys)
  }

  lemma SemInitInv(threads: nat, cpus: nat, keys: seq<nat>)
    requires 2 <= threads && 1 <= cpus && KeysOk(keys)
    ensures SemInv(SemInit(threads, cpus, keys))
  {
    InitInv(threads, cpus);
  }

  /** In every state of every run from boot, every live semaphore's queue and value agree. */
  lemma {:induction false} EverySemRunKeepsInv(s: SemState, steps: seq<SemStep>)
    requires SemInv(s) && SemRun(s, steps)
    ensures SemInv(SemAfter(s, steps)) && SemAfter(s, steps).keys == s.keys
    decreases |steps|
  {
    if steps != [] {
      SemStepKeepsInv(s, steps[0]);
      EverySemRunKeepsInv(SemApply(s, steps[0]), steps[1..]);
    }
  }

  ghost function CountUps(steps: seq<SemStep>, i: nat): nat {
    if steps == [] then 0 else (if steps[0] == Up(i) then 1 else 0) + CountUps(steps[1..], i)
  }

  /** A step other than V on row `i` only appends to the queue of row `i`. */
  lemma QueueOnlyGrows(s: SemState, step: SemStep, i: nat)
    requires SemInv(s) && SemEnabled(s, step) && i < |s.sems| && step != Up(i)
    ensures Waiters(s.m, s.keys[i]) <= Waiters(SemApply(s, step).m, s.keys[i])
  {
    var q := s.keys[i];
    assert q in s.keys;
    match step
    case Other(k) => ForeignStep(s.m, k, q);
    case New(c, j, initial) =>
    case Destroy(j) =>
    case Down(c, j) =>
      if s.sems[j].value <= 0 {
        SleepAppends(s.m, c, s.keys[j], q);
      }
    case Up(j) =>
      assert RowOk(s, j);
      WakeRemovesOldest(s.m, s.keys[j], q);
  }

  lemma RunFirst(s: SemState, step: SemStep, rest: seq<SemStep>)
    requires SemInv(s) && SemEnabled(s, step) && SemInv(SemApply(s, step)) && SemRun(SemApply(s, step), rest)
    ensures SemRun(s, [step] + rest) && SemAfter(s, [step] + rest) == SemAfter(SemApply(s, step), rest)
  {
    assert ([step] + rest)[1..] == rest;
  }

  /** The waiter at position `k` moves up one place with a V on its row and stays where it is otherwise. */
  lemma MovesUp(s: SemState, step: SemStep, i: nat, k: nat)
    requires SemInv(s) && SemEnabled(s, step) && i < |s.sems| && k < |Waiters(s.m, s.keys[i])|
    requires (step == Up(i) ==> k > 0)
    ensures var k1, w' := if step == Up(i) then k - 1 else k, Waiters(SemApply(s, step).m, s.keys[i]);
      k1 < |w'| && w'[k1] == Waiters(s.m, s.keys[i])[k]
  {
    if step == Up(i) {
      assert RowOk(s, i);
      WakeRemovesOldest(s.m, s.keys[i], s.keys[i]);
    } else {
      QueueOnlyGrows(s, step, i);
    }
  }

  /**
   FIFO hand-off: a thread with `k` waiters ahead of it on row `i` is released by exactly the
   (k+1)-th following V on that row, whatever else happens in between.
   */
  lemma {:induction false} ReleasedInOrder(s: SemState, steps: seq<SemStep>, i: nat, k: nat) returns (at: nat)
    requires SemInv(s) && SemRun(s, steps) && i < |s.sems|
    requires k < |Waiters(s.m, s.keys[i])| && k < CountUps(steps, i)
    ensures at < |steps| && steps[at] == Up(i) && CountUps(steps[..at], i) == k
    ensures SemRun(s, steps[..at]) && SemInv(SemAfter(s, steps[..at])) && SemEnabled(SemAfter(s, steps[..at]), Up(i))
    ensures var w := Waiters(SemAfter(s, steps[..at]).m, s.keys[i]);
      w != [] && w[0] == Waiters(s.m, s.keys[i])[k]
    decreases |steps|
  {
    var s1 := SemApply(s, steps[0]);
    SemStepKeepsInv(s, steps[0]);
    var w := Waiters(s.m, s.keys[i]);
    if steps[0] == Up(i) && k == 0 {
      at := 0;
      assert steps[..0] == [];
    } else {
      var k1 := if steps[0] == Up(i) then k - 1 else k;
      MovesUp(s, steps[0], i, k);
      var j := ReleasedInOrder(s1, steps[1..], i, k1);
      at := j + 1;
      RunFirst(s, steps[0], steps[1..][..j]);
      assert steps[..at] == [steps[0]] + steps[1..][..j];
    }
  }

  // ---------- Calls counted over the steps of a run ----------

  ghost function CountDowns(steps: seq<SemStep>, i: nat): nat {
    if steps == [] then 0 else (if steps[0].Down? && steps[0].i == i then 1 else 0) + CountDowns(steps[1..], i)
  }

  /** A row comes into use by a creation only and goes out of use by a destruction only. */
  lemma LiveRows(s: SemState, step: SemStep, j: nat)
    requires SemInv(s) && SemEnabled(s, step) && j < |s.sems|
    ensures var s' := SemApply(s, step);
      |s'.sems| == |s.sems| &&
      (Live(s'.sems[j]) <==> (Live(s.sems[j]) && step != Destroy(j)) || (step.New? && step.i == j))
  {
    if step.New? {
      assert s.m.current[step.cpu] >= 0;
    }
  }

  /** While a row is in use its value moves by one with every V and P on it, and not otherwise. */
  lemma ValueStep(s: SemState, step: SemStep, i: nat)
    requires SemInv(s) && SemEnabled(s, step) && i < |s.sems| && Live(s.sems[i]) && step != Destroy(i)
    ensures var s' := SemApply(s, step);
      && |s'.sems| == |s.sems| && Live(s'.sems[i])
      && s'.sems[i].value == s.sems[i].value + CountUps([step], i) - CountDowns([step], i)
  {
    LiveRows(s, step, i);
    assert [step][1..] == [];
  }

  lemma {:induction false} ValueOverRun(s: SemState, steps: seq<SemStep>, i: nat)
    requires SemInv(s) && SemRun(s, steps) && i < |s.sems| && Live(s.sems[i])
    requires forall k :: 0 <= k < |steps| ==> steps[k] != Destroy(i)
    ensures var s' := SemAfter(s, steps);
      && SemInv(s') && |s'.sems| == |s.sems| && Live(s'.sems[i]) && s'.keys == s.keys
      && s'.sems[i].value == s.sems[i].value + CountUps(steps, i) - CountDowns(steps, i)
    decreases |steps|
  {
    if steps != [] {
      SemStepKeepsInv(s, steps[0]);
      ValueStep(s, steps[0], i);
      assert [steps[0]][1..] == [];
      ValueOverRun(SemApply(s, steps[0]), steps[1..], i);
    }
  }

  /**
   What a semaphore is for, with calls counted over the run: after its creation with value `v`
   and until it is destroyed, the P calls that got through are exactly `v` plus the V calls less
   what is still available, so never more than `v` plus the V calls; and as long as somebody
   waits, nothing is available.
   */
  lemma AdmitsExactly(s: SemState, c: nat, i: nat, v: nat, steps: seq<SemStep>)
    requires SemInv(s) && SemEnabled(s, New(c, i, v)) && SemInv(DoNew(s, c, i, v)) && SemRun(DoNew(s, c, i, v), steps)
    requires forall k :: 0 <= k < |steps| ==> steps[k] != Destroy(i)
    ensures var s' := SemAfter(DoNew(s, c, i, v), steps);
      var through := CountDowns(steps, i) - |Waiters(s'.m, s.keys[i])|;
      && i < |s'.sems| && i < |s.keys|
      && through == v + CountUps(steps, i) - (if s'.sems[i].value > 0 then s'.sems[i].value else 0)
      && through <= v + CountUps(steps, i)
      && (Waiters(s'.m, s.keys[i]) != [] ==> through == v + CountUps(steps, i))
  {
    var s1 := DoNew(s, c, i, v);
    LiveRows(s, New(c, i, v), i);
    ValueOverRun(s1, steps, i);
    assert RowOk(SemAfter(s1, steps), i);
  }

  /** A destroyed row can be created again. */
  lemma DestroyedIsFree(s: SemState, i: nat, c: nat, v: nat)
    requires SemInv(s) && SemEnabled(s, Destroy(i)) && c < |s.m.current|
    ensures SemInv(DoDestroy(s, i)) && SemEnabled(DoDestroy(s, i), New(c, i, v))
  {
    SemStepKeepsInv(s, Destroy(i));
    LiveRows(s, Destroy(i), i);
  }

  // ---------- From being queued to running again ----------

  /**
   No lost wakeup, over runs: a thread that is released while still on its CPU stays RUNNING with
   nothing to sleep on, whatever the other CPUs do, until it leaves its CPU; and then it is ready.
   */
  lemma NoLostWakeup(m: State, r: nat, c: nat, steps: seq<Step>)
    requires Inv(m) && r != 0 && c < |m.current| && Waiters(m, r) != [] && m.current[c] == Waiters(m, r)[0]
    requires Inv(DoWake(m, r)) && ValidRun(DoWake(m, r), steps) && forall i :: 0 <= i < |steps| ==> !ActsOn(steps[i], c)
    ensures var t, m' := m.current[c], After(DoWake(m, r), steps);
      && Inv(m') && Awake(m', c, t) && (t in DoSchedule(m', c).ready || DoSchedule(m', c).current[c] == t)
  {
    var t := m.current[c];
    ReleasedOnCpu(m, r, c, t);
    StaysAwake(DoWake(m, r), steps, c, t);
    LeavingAfterWakeup(After(DoWake(m, r), steps), c);
  }

  lemma ReleasedOnCpu(m: State, r: nat, c: nat, t: Tid)
    requires Inv(m) && r != 0 && c < |m.current| && Waiters(m, r) != [] && m.current[c] == t == Waiters(m, r)[0]
    ensures Awake(DoWake(m, r), c, t)
  {
    WaitersAreThreads(m, r);
    assert t in Waiters(m, r) && t in m.current;
  }

  /** The step of the thread machine that a semaphore step comes down to, if any. */
  ghost function Projected(s: SemState, step: SemStep): seq<Step>
    requires SemInv(s) && SemEnabled(s, step)
  {
    match step
    case Other(k) => [k]
    case Down(c, i) => if s.sems[i].value - 1 < 0 then [Sleep(c, s.keys[i])] else []
    case Up(i) => if s.sems[i].value + 1 <= 0 then [Wake(s.keys[i])] else []
    case _ => []
  }

  lemma ProjectedStep(s: SemState, step: SemStep)
    requires SemInv(s) && SemEnabled(s, step)
    ensures ValidRun(s.m, Projected(s, step)) && After(s.m, Projected(s, step)) == SemApply(s, step).m
    ensures CountSchedules(Projected(s, step)) == CountScheduling([step])
  {
    assert step.Down? || step.Up? ==> RowOk(s, step.i);
    var p := Projected(s, step);
    if p != [] {
      StepKeepsInv(s.m, p[0]);
      assert p[1..] == [];
    }
  }

  ghost function CountScheduling(steps: seq<SemStep>): nat {
    if steps == [] then 0
    else (if steps[0].Other? && steps[0].step.Schedule? then 1 else 0) + CountScheduling(steps[1..])
  }

  ghost function ProjectedRun(s: SemState, steps: seq<SemStep>): seq<Step>
    requires SemInv(s) && SemRun(s, steps)
    decreases |steps|
  {
    if steps == [] then [] else
      SemStepKeepsInv(s, steps[0]);
      Projected(s, steps[0]) + ProjectedRun(SemApply(s, steps[0]), steps[1..])
  }

  /** A run behind at most one step. */
  lemma RunJoins(m: State, a: seq<Step>, b: seq<Step>)
    requires Inv(m) && |a| <= 1 && ValidRun(m, a) && Inv(After(m, a)) && ValidRun(After(m, a), b)
    ensures ValidRun(m, a + b) && After(m, a + b) == After(After(m, a), b)
    ensures CountSchedules(a + b) == CountSchedules(a) + CountSchedules(b)
  {
    if a == [] {
      assert a + b == b;
    } else {
      StepKeepsInv(m, a[0]);
      StepFirst(m, a[0], []);
      assert [a[0]] + [] == a && [a[0]] + b == a + b;
      assert After(m, a) == Apply(m, a[0]);
      StepFirst(m, a[0], b);
    }
  }

  lemma StepFirst(m: State, step: Step, rest: seq<Step>)
    requires Inv(m) && Enabled(m, step) && Inv(Apply(m, step)) && ValidRun(Apply(m, step), rest)
    ensures ValidRun(m, [step] + rest) && After(m, [step] + rest) == After(Apply(m, step), rest)
    ensures CountSchedules([step] + rest) == (if step.Schedule? then 1 else 0) + CountSchedules(rest)
  {
    assert ([step] + rest)[1..] == rest;
  }

  /** Every run with semaphores is, for the threads, a run of the thread machine. */
  lemma {:induction false} ProjectedRunValid(s: SemState, steps: seq<SemStep>)
    requires SemInv(s) && SemRun(s, steps)
    ensures ValidRun(s.m, ProjectedRun(s, steps)) && After(s.m, ProjectedRun(s, steps)) == SemAfter(s, steps).m
    ensures CountSchedules(ProjectedRun(s, steps)) == CountScheduling(steps)
    decreases |steps|
  {
    if steps != [] {
      SemStepKeepsInv(s, steps[0]);
      ProjectedStep(s, steps[0]);
      ProjectedRunValid(SemApply(s, steps[0]), steps[1..]);
      RunJoins(s.m, Projected(s, steps[0]), ProjectedRun(SemApply(s, steps[0]), steps[1..]));
    }
  }

  /**
   A waiter's way back: with `k` threads ahead of it, the (k+1)-th following V releases it; if it
   had gone to sleep it then stands last on the ready list, and once as many scheduling steps as
   that list is long have been taken, one of them has dispatched it.
   */
  lemma WaiterIsDispatched(s: SemState, steps: seq<SemStep>, i: nat, k: nat) returns (at: nat, j: nat)
    requires SemInv(s) && SemRun(s, steps) && i < |s.sems|
    requires k < |Waiters(s.m, s.keys[i])| && k < CountUps(steps, i)
    ensures at < |steps| && steps[at] == Up(i) && CountUps(steps[..at], i) == k && SemRun(s, steps[..at])
    ensures SemInv(SemAfter(s, steps[..at])) && SemEnabled(SemAfter(s, steps[..at]), Up(i))
    ensures var t, s1 := Waiters(s.m, s.keys[i])[k], SemAfter(s, steps[..at]);
      var s2, rest := DoUp(s1, i), steps[at + 1..];
      && SemInv(s2) && SemRun(s2, rest)
      && (IsThread(s1.m, t) && s1.m.states[t] == Sleeping && CountScheduling(rest) >= |s2.m.ready| ==>
            DispatchedIn(s2, rest, t, j))
  {
    at := ReleasedInOrder(s, steps, i, k);
    var t, s1 := Waiters(s.m, s.keys[i])[k], SemAfter(s, steps[..at]);
    SuffixRuns(s, steps, at);
    EverySemRunKeepsInv(s, steps[..at]);
    j := ThenDispatched(s1, DoUp(s1, i), i, t, steps[at + 1..]);
  }

  lemma ThenDispatched(s1: SemState, s2: SemState, i: nat, t: Tid, rest: seq<SemStep>) returns (j: nat)
    requires SemInv(s1) && SemEnabled(s1, Up(i)) && s2 == DoUp(s1, i) && SemInv(s2) && SemRun(s2, rest)
    requires Waiters(s1.m, s1.keys[i]) != [] && Waiters(s1.m, s1.keys[i])[0] == t
    ensures IsThread(s1.m, t) && s1.m.states[t] == Sleeping && CountScheduling(rest) >= |s2.m.ready| ==>
      DispatchedIn(s2, rest, t, j)
  {
    j := 0;
    if IsThread(s1.m, t) && s1.m.states[t] == Sleeping && CountScheduling(rest) >= |s2.m.ready| {
      ReadyLast(s1, i, t);
      ProjectedRunValid(s2, rest);
      j := BoundedWaiting(s2.m, ProjectedRun(s2, rest), |s2.m.ready| - 1);
    }
  }

  /** Step `j` of the thread machine's part of the run dispatches thread `t`. */
  ghost predicate DispatchedIn(s: SemState, steps: seq<SemStep>, t: Tid, j: nat)
    requires SemInv(s) && SemRun(s, steps)
  {
    var run := ProjectedRun(s, steps);
    && j < |run| && run[j].Schedule? && ValidRun(s.m, run[..j + 1])
    && var m := After(s.m, run[..j + 1]);
      run[j].cpu < |m.current| && m.current[run[j].cpu] == t && 0 <= t < |m.states| && m.states[t] == Running
  }

  /** The rest of a run is a run from where its first part ends. */
  lemma {:induction false} SuffixRuns(s: SemState, steps: seq<SemStep>, at: nat)
    requires SemInv(s) && SemRun(s, steps) && at < |steps| && SemRun(s, steps[..at])
    ensures SemInv(SemAfter(s, steps[..at])) && SemEnabled(SemAfter(s, steps[..at]), steps[at])
    ensures SemInv(SemApply(SemAfter(s, steps[..at]), steps[at]))
    ensures SemRun(SemApply(SemAfter(s, steps[..at]), steps[at]), steps[at + 1..])
    decreases at
  {
    SemStepKeepsInv(s, steps[0]);
    if at == 0 {
      assert steps[..0] == [];
    } else {
      assert steps[..at][1..] == steps[1..][..at - 1] && steps[..at][0] == steps[0];
      assert steps[1..][at..] == steps[at + 1..];
      SuffixRuns(SemApply(s, steps[0]), steps[1..], at - 1);
    }
  }

  /** V on a semaphore whose oldest waiter sleeps puts that thread last on the ready list. */
  lemma ReadyLast(s: SemState, i: nat, t: Tid)
    requires SemInv(s) && SemEnabled(s, Up(i)) && Waiters(s.m, s.keys[i]) != [] && Waiters(s.m, s.keys[i])[0] == t
    requires IsThread(s.m, t) && s.m.states[t] == Sleeping
    ensures var ready := DoUp(s, i).m.ready; ready != [] && ready[|ready| - 1] == t
  {
    assert RowOk(s, i);
    UpReleasesOldest(s, i);
  }

  // ---------- The semaphore table ----------

  datatype SemRow = SemRow(creator: int, value: int)

  /** What has happened to a row since its creation. */
  datatype History = History(initial: nat, downs: nat, ups: nat)

  ghost function Rows(table: seq<SemRow>, history: seq<History>): seq<Sem>
    requires |table| == |history|
  {
    seq(|table|, i requires 0 <= i < |table| =>
      Sem(table[i].creator, table[i].value, history[i].initial, history[i].downs, history[i].ups))
  }

  /** Row `id` is unreserved, the `k`-th row probed from `start`, and the first such row. */
  ghost predicate FirstUnreserved(table: seq<SemRow>, start: nat, k: nat, id: nat) {
    && k < |table| && Kernel.Probe(start, k, |table|) == id && table[id].creator == UNRESERVED
    && forall j :: 0 <= j < k ==> table[Kernel.Probe(start, j, |table|)].creator != UNRESERVED
  }

  class SemaphoreTable {
    const kernel: Kernel.ThreadTable
    const table: array<SemRow>
    const keys: seq<nat>
    var next: nat
    ghost var history: seq<History>

    ghost predicate Separate()
      reads this
    {
      |history| == table.Length
    }

    ghost function View(): SemState
      requires Separate()
      reads this, table, kernel, kernel.threads, kernel.current
    {
      SemState(kernel.View(), Rows(table[..], history), keys)
    }

    ghost predicate Valid()
      reads this, table, kernel, kernel.threads, kernel.hashtable, kernel.current
    {
      Separate() && kernel.Valid() && SemInv(View()) && next < table.Length
    }

    /** semaphore_init on a machine that has already booted its thread table. */
    constructor (kernel: Kernel.ThreadTable, keys: seq<nat>)
      requires kernel.Valid() && KeysOk(keys) && keys != []
      requires forall i :: 0 <= i < |keys| ==> Waiters(kernel.View(), keys[i]) == []
      ensures Valid() && this.kernel == kernel && this.keys == keys
      ensures fresh(table) && table.Length == |keys|
      ensures forall i :: 0 <= i < |keys| ==> table[i].creator == UNRESERVED
    {
      this.kernel := kernel;
      this.keys := keys;
      table := new SemRow[|keys|](_ => SemRow(UNRESERVED, 0));
      next := 0;
      history := seq(|keys|, _ => History(0, 0, 0));
      new;
      assert forall i :: 0 <= i < |keys| ==> RowOk(View(), i);
    }

    /** semaphore_create: the first unreserved row at or after the cursor, cyclically. */
    method Create(cpu: nat, value: nat) returns (id: int)
      requires Valid() && cpu < kernel.current.Length
      modifies this`next, this`history, table
      ensures Valid()
      ensures id < 0 <==> forall i :: 0 <= i < table.Length ==> old(table[i].creator) != UNRESERVED
      ensures id < 0 ==> View() == old(View()) && next == old(next)
      ensures id >= 0 ==> SemEnabled(old(View()), New(cpu, id, value)) && View() == DoNew(old(View()), cpu, id, value)
      ensures id >= 0 ==> exists k :: FirstUnreserved(old(table[..]), old(next), k, id)
      ensures id >= 0 ==> next == (id + 1) % table.Length && table[id].value == value
    {
      ghost var s := View();
      ghost var start := next;
      var found;
      found, id := Search();
      if !found {
        return -1;
      }
      assert !Live(s.sems[id]);
      table[id] := SemRow(kernel.current[cpu], value);
      history := history[id := History(value, 0, 0)];
      assert View() == DoNew(s, cpu, id, value);
      SemStepKeepsInv(s, New(cpu, id, value));
    }

    /** The search loop of semaphore_create, which moves the cursor as it goes. */
    method Search() returns (found: bool, id: nat)
      requires next < table.Length
      modifies this`next
      ensures next < table.Length
      ensures !found ==> next == old(next) && forall i :: 0 <= i < table.Length ==> table[i].creator != UNRESERVED
      ensures found ==> id < table.Length && exists k :: FirstUnreserved(table[..], old(next), k, id)
      ensures found ==> next == (id + 1) % table.Length
    {
      var n := table.Length;
      var start := next;
      id := 0;
      var i := 0;
      while i < n
        invariant 0 <= i <= n && next == Kernel.Probe(start, i, n)
        invariant forall j :: 0 <= j < i ==> table[Kernel.Probe(start, j, n)].creator != UNRESERVED
      {
        id := next;
        next := (next + 1) % n;
        assert next == Kernel.Probe(1, id, n);
        if table[id].creator == UNRESERVED {
          assert FirstUnreserved(table[..], start, i, id);
          return true, id;
        }
        i := i + 1;
      }
      forall j | 0 <= j < n
        ensures table[j].creator != UNRESERVED
      {
        Kernel.ProbeCovers(start, j, n);
      }
      found := false;
    }

    /** semaphore_destroy; the caller knows that nobody waits. */
    method Destroy(i: nat)
      requires Valid() && SemEnabled(View(), SemStep.Destroy(i))
      modifies table
      ensures Valid() && View() == DoDestroy(old(View()), i)
    {
      ghost var s := View();
      table[i] := table[i].(creator := UNRESERVED);
      assert View() == DoDestroy(s, i);
      SemStepKeepsInv(s, SemStep.Destroy(i));
    }

    /** Adds `delta`, 1 for V and -1 for P, to the value of row `i`. */
    method Adjust(i: nat, delta: int)
      requires Separate() && kernel.Valid() && i < table.Length && (delta == 1 || delta == -1)
      modifies this`history, table
      ensures Separate() && kernel.Valid() && kernel.View() == old(kernel.View())
      ensures var row := old(Rows(table[..], history))[i];
        Rows(table[..], history) == old(Rows(table[..], history))[i :=
          if delta == 1 then row.(value := row.value + 1, ups := row.ups + 1)
          else row.(value := row.value - 1, downs := row.downs + 1)]
    {
      table[i] := table[i].(value := table[i].value + delta);
      history := history[i := if delta == 1 then history[i].(ups := history[i].ups + 1)
                              else history[i].(downs := history[i].downs + 1)];
    }

    /** The locked section of semaphore_P; afterwards the caller leaves its CPU if it was queued. */
    method P(cpu: nat, i: nat)
      requires Valid() && SemEnabled(View(), Down(cpu, i))
      modifies this`history, table, kernel`sleepers, kernel`chains, kernel.threads, kernel.hashtable
      ensures Valid() && View() == DoDown(old(View()), cpu, i)
    {
      ghost var after := DownParts(View(), cpu, i);
      Lower(cpu, i, after);
    }

    method Lower(cpu: nat, i: nat, ghost after: SemState)
      requires Separate() && kernel.Valid() && LowersTo(View(), after, cpu, i)
      modifies this`history, table, kernel`sleepers, kernel`chains, kernel.threads, kernel.hashtable
      ensures Separate() && kernel.Valid() && View() == after
    {
      Adjust(i, -1);
      assert table[i].value == Rows(table[..], history)[i].value;
      WaitIf(cpu, i, table[i].value < 0);
    }

    method WaitIf(cpu: nat, i: nat, wait: bool)
      requires kernel.Valid() && i < |keys| && (wait ==> Enabled(kernel.View(), Sleep(cpu, keys[i])))
      modifies kernel`sleepers, kernel`chains, kernel.threads, kernel.hashtable
      ensures kernel.Valid()
      ensures kernel.View() == if wait then DoSleep(old(kernel.View()), cpu, keys[i]) else old(kernel.View())
    {
      if wait {
        kernel.SleepqAdd(cpu, keys[i]);
      }
    }

    /** semaphore_V. */
    method V(i: nat)
      requires Valid() && SemEnabled(View(), Up(i))
      modifies this`history, table, kernel`head, kernel`tail, kernel`ready, kernel`sleepers, kernel`chains
      modifies kernel.threads, kernel.hashtable
      ensures Valid() && View() == DoUp(old(View()), i)
    {
      ghost var after := UpParts(View(), i);
      Raise(i, after);
    }

    method Raise(i: nat, ghost after: SemState)
      requires Separate() && kernel.Valid() && RaisesTo(View(), after, i)
      modifies this`history, table, kernel`head, kernel`tail, kernel`ready, kernel`sleepers, kernel`chains
      modifies kernel.threads, kernel.hashtable
      ensures Separate() && kernel.Valid() && View() == after
    {
      Adjust(i, 1);
      assert table[i].value == Rows(table[..], history)[i].value;
      WakeIf(i, table[i].value <= 0);
    }

    method WakeIf(i: nat, wake: bool)
      requires kernel.Valid() && i < |keys| && keys[i] != 0
      modifies kernel`head, kernel`tail, kernel`ready, kernel`sleepers, kernel`chains, kernel.threads, kernel.hashtable
      ensures kernel.Valid()
      ensures kernel.View() == if wake then DoWake(old(kernel.View()), keys[i]) else old(kernel.View())
    {
      if wake {
        kernel.SleepqWake(keys[i]);
      }
    }
  }
}
