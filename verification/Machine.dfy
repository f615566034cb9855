/**
 The thread machine: what the thread table, the ready list, the sleep queue and the per-CPU
 current threads mean together, without links and without hashing. Each spinlock-protected
 section of the kernel is one step. Sleepers stand in one line in order of arrival; the
 threads waiting for a resource are the part of that line sleeping on it.
 */
module Machine {
  import opened Sequences

  type Tid = int

  const IDLE: Tid := 0

  datatype ThreadState = Free | Running | Ready | Sleeping | NonReady | Dying

  datatype State = State(
    states: seq<ThreadState>,
    sleepsOn: seq<nat>,
    ready: seq<Tid>,
    sleepers: seq<Tid>,
    current: seq<Tid>)

  datatype Step =
    | Create(t: Tid)
    | Run(t: Tid)
    | Schedule(cpu: nat)
    | Sleep(cpu: nat, r: nat)
    | Wake(r: nat)
    | WakeAll(r: nat)
    | Finish(cpu: nat)

  // ---------- Invariant ----------

  /** `t` is a row of the table other than the idle thread's. */
  ghost predicate IsThread(m: State, t: Tid) {
    0 < t < |m.states|
  }

  ghost predicate WellFormed(m: State) {
    && 2 <= |m.states| == |m.sleepsOn|
    && 1 <= |m.current|
    && forall c :: 0 <= c < |m.current| ==> 0 <= m.current[c] < |m.states|
  }

  /** The ready list holds exactly the READY threads, once each. */
  ghost predicate ReadyOk(m: State)
    requires WellFormed(m)
  {
    && Distinct(m.ready)
    && forall t :: t in m.ready <==> IsThread(m, t) && m.states[t] == Ready
  }

  /** The sleepers are exactly the threads with a resource to sleep on, once each. */
  ghost predicate SleepOk(m: State)
    requires WellFormed(m)
  {
    && Distinct(m.sleepers)
    && (forall t :: t in m.sleepers <==> IsThread(m, t) && m.sleepsOn[t] != 0)
    && (forall t :: IsThread(m, t) && m.states[t] == Sleeping ==> m.sleepsOn[t] != 0)
    && (forall t :: IsThread(m, t) && m.sleepsOn[t] != 0 ==> m.states[t] in {Sleeping, Running})
  }

  ghost predicate OnCpu(s: ThreadState) {
    s == Running || s == Dying
  }

  /** A RUNNING or DYING thread is current on exactly one CPU; only the idle thread is shared. */
  ghost predicate CpuOk(m: State)
    requires WellFormed(m)
  {
    && (forall t :: IsThread(m, t) ==> (t in m.current <==> OnCpu(m.states[t])))
    && (forall c, d :: 0 <= c < d < |m.current| && m.current[c] == m.current[d] ==> m.current[c] == IDLE)
  }

  ghost predicate IdleOk(m: State)
    requires WellFormed(m)
  {
    m.sleepsOn[IDLE] == 0 && m.states[IDLE] in {Ready, Running}
  }

  ghost predicate Inv(m: State) {
    WellFormed(m) && ReadyOk(m) && SleepOk(m) && CpuOk(m) && IdleOk(m)
  }

  /** The state set up at boot: every row FREE except the idle thread's. */
  ghost function Init(threads: nat, cpus: nat): State {
    State(seq(threads, t => if t == IDLE then Ready else Free),
          seq(threads, _ => 0), [], [], seq(cpus, _ => IDLE))
  }

  // ---------- Queues seen per resource ----------

  ghost function SleepingOn(m: State, r: nat): set<Tid> {
    set t | 0 <= t < |m.sleepsOn| && m.sleepsOn[t] == r
  }

  /** The threads waiting for `r`, oldest first. */
  ghost function Waiters(m: State, r: nat): seq<Tid> {
    Filter(m.sleepers, SleepingOn(m, r))
  }

  // ---------- Steps ----------

  ghost predicate Enabled(m: State, s: Step)
    requires Inv(m)
  {
    match s
    case Create(t) => IsThread(m, t) && m.states[t] == Free
    case Run(t) => IsThread(m, t) && m.states[t] == NonReady
    case Schedule(c) => c < |m.current|
    case Sleep(c, r) => CanAct(m, c) && r != 0
    case Wake(r) => r != 0
    case WakeAll(r) => r != 0
    case Finish(c) => CanAct(m, c)
  }

  /** The thread current on CPU `c` is a live thread that is not queued as a sleeper. */
  ghost predicate CanAct(m: State, c: nat)
    requires WellFormed(m)
  {
    && c < |m.current|
    && m.current[c] != IDLE
    && m.states[m.current[c]] == Running
    && m.sleepsOn[m.current[c]] == 0
  }

  ghost function DoCreate(m: State, t: Tid): State
    requires Inv(m) && Enabled(m, Create(t))
  {
    m.(states := m.states[t := NonReady])
  }

  ghost function DoRun(m: State, t: Tid): State
    requires Inv(m) && Enabled(m, Run(t))
  {
    m.(states := m.states[t := Ready], ready := m.ready + [t])
  }

  /** What happens to the thread leaving the CPU. */
  ghost function Leave(m: State, c: nat): State
    requires WellFormed(m) && c < |m.current|
  {
    var t := m.current[c];
    if m.states[t] == Dying then m.(states := m.states[t := Free])
    else if m.sleepsOn[t] != 0 then m.(states := m.states[t := Sleeping])
    else m.(states := m.states[t := Ready], ready := if t != IDLE then m.ready + [t] else m.ready)
  }

  /** The head of the ready list, or the idle thread, takes the CPU. */
  ghost function Dispatch(m: State, c: nat): State
    requires WellFormed(m) && c < |m.current|
    requires forall t :: t in m.ready ==> IsThread(m, t)
  {
    if m.ready == [] then
      m.(states := m.states[IDLE := Running], current := m.current[c := IDLE])
    else
      assert m.ready[0] in m.ready && IsThread(m, m.ready[0]);
      m.(states := m.states[m.ready[0] := Running], ready := m.ready[1..],
         current := m.current[c := m.ready[0]])
  }

  ghost function DoSchedule(m: State, c: nat): State
    requires Inv(m) && c < |m.current|
  {
    Dispatch(Leave(m, c), c)
  }

  ghost function DoSleep(m: State, c: nat, r: nat): State
    requires Inv(m) && Enabled(m, Sleep(c, r))
  {
    var t := m.current[c];
    m.(sleepsOn := m.sleepsOn[t := r], sleepers := m.sleepers + [t])
  }

  /** Takes thread `t` out of the line of sleepers; if it already slept it becomes READY. */
  ghost function Release(m: State, t: Tid): State
    requires WellFormed(m) && IsThread(m, t)
  {
    var m1 := m.(sleepsOn := m.sleepsOn[t := 0], sleepers := Without(m.sleepers, t));
    if m.states[t] == Sleeping then m1.(states := m.states[t := Ready], ready := m.ready + [t]) else m1
  }

  ghost function DoWake(m: State, r: nat): State
    requires Inv(m)
  {
    var w := Waiters(m, r);
    if w == [] then m else
      WaitersAreThreads(m, r);
      assert w[0] in w;
      Release(m, w[0])
  }

  ghost function DoWakeAll(m: State, r: nat): State
    requires Inv(m) && r != 0
    decreases |Waiters(m, r)|
  {
    if Waiters(m, r) == [] then m else
      WakeKeepsInv(m, r);
      WakeRemovesOldest(m, r, r);
      DoWakeAll(DoWake(m, r), r)
  }

  ghost function DoFinish(m: State, c: nat): State
    requires Inv(m) && Enabled(m, Finish(c))
  {
    m.(states := m.states[m.current[c] := Dying])
  }

  ghost function Apply(m: State, s: Step): State
    requires Inv(m) && Enabled(m, s)
  {
    match s
    case Create(t) => DoCreate(m, t)
    case Run(t) => DoRun(m, t)
    case Schedule(c) => DoSchedule(m, c)
    case Sleep(c, r) => DoSleep(m, c, r)
    case Wake(r) => DoWake(m, r)
    case WakeAll(r) => DoWakeAll(m, r)
    case Finish(c) => DoFinish(m, c)
  }

  // ---------- Every step keeps the invariant ----------

  lemma WaitersAreThreads(m: State, r: nat)
    requires Inv(m)
    ensures forall t :: t in Waiters(m, r) <==> t in m.sleepers && m.sleepsOn[t] == r
    ensures forall t :: t in Waiters(m, r) ==> IsThread(m, t)
    ensures Distinct(Waiters(m, r))
  {
    FilterMembers(m.sleepers, SleepingOn(m, r));
  }

  lemma InitInv(threads: nat, cpus: nat)
    requires 2 <= threads && 1 <= cpus
    ensures Inv(Init(threads, cpus))
  {
  }

  lemma CreateKeepsInv(m: State, t: Tid)
    requires Inv(m) && Enabled(m, Create(t))
    ensures Inv(DoCreate(m, t))
  {
  }

  lemma RunKeepsInv(m: State, t: Tid)
    requires Inv(m) && Enabled(m, Run(t))
    ensures Inv(DoRun(m, t))
  {
  }

  lemma LeaveKeeps(m: State, c: nat)
    requires Inv(m) && c < |m.current|
    ensures var m1 := Leave(m, c);
      && WellFormed(m1) && ReadyOk(m1) && SleepOk(m1) && m1.sleepsOn[IDLE] == 0
      && m1.states[IDLE] in {Ready, Running}
      && (forall t :: IsThread(m, t) && t != m.current[c] ==> m1.states[t] == m.states[t])
      && (m.current[c] != IDLE ==> !OnCpu(m1.states[m.current[c]]))
      && m1.current == m.current
  {
  }

  /** Who is current changes on CPU `c` only. */
  lemma DispatchCpu(m: State, c: nat)
    requires Inv(m) && c < |m.current|
    ensures WellFormed(DoSchedule(m, c)) && CpuOk(DoSchedule(m, c))
  {
    LeaveKeeps(m, c);
    DispatchReady(Leave(m, c), c);
    var m1 := Leave(m, c);
    var m2 := Dispatch(m1, c);
    var next := m2.current[c];
    assert m1.ready != [] ==> m1.ready[0] in m1.ready;
    forall t | IsThread(m2, t)
      ensures t in m2.current <==> OnCpu(m2.states[t])
    {
      if t != next {
        assert t in m2.current <==> t in m.current && t != m.current[c] by {
          assert forall d :: 0 <= d < |m.current| && d != c ==> m2.current[d] == m.current[d];
          if t in m.current && t != m.current[c] {
            var d :| 0 <= d < |m.current| && m.current[d] == t;
            assert m2.current[d] == t;
          }
        }
      }
    }
  }

  lemma DispatchReady(m: State, c: nat)
    requires WellFormed(m) && c < |m.current| && ReadyOk(m) && SleepOk(m)
    ensures var m2 := Dispatch(m, c); WellFormed(m2) && ReadyOk(m2) && SleepOk(m2)
  {
    if m.ready != [] {
      assert m.ready[0] in m.ready;
      TailMembers(m.ready);
    }
  }

  lemma ScheduleKeepsInv(m: State, c: nat)
    requires Inv(m) && c < |m.current|
    ensures Inv(DoSchedule(m, c))
  {
    LeaveKeeps(m, c);
    DispatchReady(Leave(m, c), c);
    DispatchCpu(m, c);
  }

  lemma SleepKeepsInv(m: State, c: nat, r: nat)
    requires Inv(m) && Enabled(m, Sleep(c, r))
    ensures Inv(DoSleep(m, c, r))
  {
  }

  lemma ReleaseKeepsInv(m: State, t: Tid)
    requires Inv(m) && t in m.sleepers
    ensures Inv(Release(m, t))
  {
    WithoutMembers(m.sleepers, t);
  }

  lemma WakeKeepsInv(m: State, r: nat)
    requires Inv(m)
    ensures Inv(DoWake(m, r))
  {
    WaitersAreThreads(m, r);
    if Waiters(m, r) != [] {
      assert Waiters(m, r)[0] in Waiters(m, r);
      ReleaseKeepsInv(m, Waiters(m, r)[0]);
    }
  }

  lemma {:induction false} WakeAllKeepsInv(m: State, r: nat)
    requires Inv(m) && r != 0
    ensures Inv(DoWakeAll(m, r))
    decreases |Waiters(m, r)|
  {
    if Waiters(m, r) != [] {
      WakeKeepsInv(m, r);
      WakeRemovesOldest(m, r, r);
      WakeAllKeepsInv(DoWake(m, r), r);
    }
  }

  lemma FinishKeepsInv(m: State, c: nat)
    requires Inv(m) && Enabled(m, Finish(c))
    ensures Inv(DoFinish(m, c))
  {
    assert m.current[c] in m.current;
  }

  lemma StepKeepsInv(m: State, s: Step)
    requires Inv(m) && Enabled(m, s)
    ensures Inv(Apply(m, s))
  {
    match s
    case Create(t) => CreateKeepsInv(m, t);
    case Run(t) => RunKeepsInv(m, t);
    case Schedule(c) => ScheduleKeepsInv(m, c);
    case Sleep(c, r) => SleepKeepsInv(m, c, r);
    case Wake(r) => WakeKeepsInv(m, r);
    case WakeAll(r) => WakeAllKeepsInv(m, r);
    case Finish(c) => FinishKeepsInv(m, c);
  }

  // ---------- The sleep queue is a FIFO per resource ----------

  /** Going to sleep appends to the queue of `r` and leaves every other queue alone. */
  lemma SleepAppends(m: State, c: nat, r: nat, q: nat)
    requires Inv(m) && Enabled(m, Sleep(c, r)) && q != 0
    ensures Waiters(DoSleep(m, c, r), q) == Waiters(m, q) + (if q == r then [m.current[c]] else [])
  {
    var m1 := DoSleep(m, c, r);
    FilterConcat(m.sleepers, [m.current[c]], SleepingOn(m1, q));
    FilterAgree(m.sleepers, SleepingOn(m1, q), SleepingOn(m, q));
    if q != r {
      FilterNone([m.current[c]], SleepingOn(m1, q));
    } else {
      FilterAll([m.current[c]], SleepingOn(m1, q));
    }
  }

  /** Releasing a sleeper takes it out of the one queue it is in. */
  lemma ReleaseWaiters(m: State, t: Tid, q: nat)
    requires Inv(m) && t in m.sleepers && q != 0
    ensures Waiters(Release(m, t), q) == Without(Waiters(m, q), t)
  {
    var m1 := Release(m, t);
    WithoutMembers(m.sleepers, t);
    FilterAgree(m1.sleepers, SleepingOn(m1, q), SleepingOn(m, q));
    FilterWithout(m.sleepers, SleepingOn(m, q), t);
  }

  /** A wake removes the oldest waiter of `r` and leaves every other queue alone. */
  lemma WakeRemovesOldest(m: State, r: nat, q: nat)
    requires Inv(m) && q != 0
    ensures Waiters(m, r) != [] ==>
      Waiters(DoWake(m, r), q) == if q == r then Waiters(m, r)[1..] else Waiters(m, q)
    ensures Waiters(m, r) == [] ==> DoWake(m, r) == m
  {
    var w := Waiters(m, r);
    if w != [] {
      WaitersAreThreads(m, r);
      WaitersAreThreads(m, q);
      assert w[0] in w;
      ReleaseWaiters(m, w[0], q);
      if q == r {
        WithoutAt(w, 0);
      } else {
        FilterAll(Waiters(m, q), Elements(Waiters(m, q)) - {w[0]});
      }
    }
  }

  ghost function StateSet(m: State, s: ThreadState): set<Tid> {
    set t | 0 <= t < |m.states| && m.states[t] == s
  }

  /** Waking all empties the queue of `r` and leaves every other queue alone. */
  lemma {:induction false} WakeAllQueues(m: State, r: nat, q: nat)
    requires Inv(m) && r != 0 && q != 0
    ensures Waiters(DoWakeAll(m, r), q) == if q == r then [] else Waiters(m, q)
    decreases |Waiters(m, r)|
  {
    if Waiters(m, r) != [] {
      WakeKeepsInv(m, r);
      WakeRemovesOldest(m, r, r);
      WakeRemovesOldest(m, r, q);
      WakeAllQueues(DoWake(m, r), r, q);
    }
  }

  lemma WakeReady(m: State, r: nat)
    requires Inv(m) && Waiters(m, r) != []
    ensures var w, m1 := Waiters(m, r), DoWake(m, r);
      && m1.ready == m.ready + Filter(w[..1], StateSet(m, Sleeping))
      && Filter(w[1..], StateSet(m1, Sleeping)) == Filter(w[1..], StateSet(m, Sleeping))
  {
    var w := Waiters(m, r);
    WaitersAreThreads(m, r);
    assert w[0] in w && w[..1] == [w[0]];
    FilterAgree(w[1..], StateSet(DoWake(m, r), Sleeping), StateSet(m, Sleeping));
    assert Filter(w[..1], StateSet(m, Sleeping)) == if m.states[w[0]] == Sleeping then [w[0]] else [];
  }

  /** The waiters of `r` that had already left their CPU join the ready list, oldest first. */
  lemma {:induction false} WakeAllReady(m: State, r: nat)
    requires Inv(m) && r != 0
    ensures DoWakeAll(m, r).ready == m.ready + Filter(Waiters(m, r), StateSet(m, Sleeping))
    decreases |Waiters(m, r)|
  {
    var w := Waiters(m, r);
    if w != [] {
      var m1 := DoWake(m, r);
      assert Inv(m1) && Waiters(m1, r) == w[1..] && DoWakeAll(m, r) == DoWakeAll(m1, r) by {
        WakeKeepsInv(m, r);
        WakeRemovesOldest(m, r, r);
      }
      WakeAllReady(m1, r);
      WakeReady(m, r);
      FilterTail(m.ready, w, StateSet(m, Sleeping));
    }
  }

  lemma FilterTail(front: seq<Tid>, w: seq<Tid>, keep: set<Tid>)
    requires w != []
    ensures front + Filter(w, keep) == (front + Filter(w[..1], keep)) + Filter(w[1..], keep)
  {
    assert w == w[..1] + w[1..];
    FilterConcat(w[..1], w[1..], keep);
  }

  /** Row by row: exactly the waiters of `r` lose their resource, and the sleeping ones become READY. */
  lemma {:induction false} WakeAllRows(m: State, r: nat, t: Tid)
    requires Inv(m) && r != 0 && 0 <= t < |m.states|
    ensures var m' := DoWakeAll(m, r);
      && m'.current == m.current
      && |m'.states| == |m.states| == |m'.sleepsOn|
      && m'.sleepsOn[t] == (if m.sleepsOn[t] == r then 0 else m.sleepsOn[t])
      && m'.states[t] == (if m.sleepsOn[t] == r && m.states[t] == Sleeping then Ready else m.states[t])
    decreases |Waiters(m, r)|
  {
    WaitersAreThreads(m, r);
    if Waiters(m, r) != [] {
      assert Waiters(m, r)[0] in Waiters(m, r);
      WakeKeepsInv(m, r);
      WakeRemovesOldest(m, r, r);
      WakeAllRows(DoWake(m, r), r, t);
    } else {
      assert t !in Waiters(m, r);
    }
  }

  // ---------- Whole runs ----------

  ghost predicate ValidRun(m: State, steps: seq<Step>)
    requires Inv(m)
    decreases |steps|
  {
    steps == [] ||
    (Enabled(m, steps[0]) && (StepKeepsInv(m, steps[0]); ValidRun(Apply(m, steps[0]), steps[1..])))
  }

  /** The state reached after all `steps`. */
  ghost function After(m: State, steps: seq<Step>): State
    requires Inv(m) && ValidRun(m, steps)
    decreases |steps|
  {
    if steps == [] then m else
      StepKeepsInv(m, steps[0]);
      After(Apply(m, steps[0]), steps[1..])
  }

  /** Safety over every run of every interleaving from boot. */
  lemma {:induction false} EveryRunKeepsInv(m: State, steps: seq<Step>)
    requires Inv(m) && ValidRun(m, steps)
    ensures Inv(After(m, steps))
    decreases |steps|
  {
    if steps != [] {
      StepKeepsInv(m, steps[0]);
      EveryRunKeepsInv(Apply(m, steps[0]), steps[1..]);
    }
  }

  ghost function CountSchedules(steps: seq<Step>): nat {
    if steps == [] then 0 else (if steps[0].Schedule? then 1 else 0) + CountSchedules(steps[1..])
  }

  /** Steps other than scheduling only append to the ready list. */
  lemma ReadyOnlyGrows(m: State, s: Step)
    requires Inv(m) && Enabled(m, s) && !s.Schedule?
    ensures m.ready <= Apply(m, s).ready
  {
    if s.WakeAll? {
      WakeAllReady(m, s.r);
    }
  }

  /**
   Bounded waiting: a thread with `k` threads ahead of it is dispatched by exactly the
   (k+1)-th following scheduling step, whatever else happens in between.
   */
  lemma {:induction false} BoundedWaiting(m: State, steps: seq<Step>, k: nat) returns (i: nat)
    requires Inv(m) && ValidRun(m, steps)
    requires k < |m.ready| && k < CountSchedules(steps)
    ensures i < |steps| && steps[i].Schedule? && CountSchedules(steps[..i]) == k
    ensures ValidRun(m, steps[..i + 1])
    ensures var m' := After(m, steps[..i + 1]);
      && steps[i].cpu < |m'.current| && m'.current[steps[i].cpu] == m.ready[k]
      && 0 <= m.ready[k] < |m'.states| && m'.states[m.ready[k]] == Running
    decreases |steps|
  {
    var m1 := Apply(m, steps[0]);
    StepKeepsInv(m, steps[0]);
    assert m.ready[k] in m.ready;
    if steps[0].Schedule? && k == 0 {
      i := 0;
      assert steps[..1] == [steps[0]];
      assert After(m, steps[..1]) == m1;
      assert Leave(m, steps[0].cpu).ready[0] == m.ready[0];
    } else {
      if steps[0].Schedule? {
        assert Leave(m, steps[0].cpu).ready[k] == m.ready[k];
      } else {
        ReadyOnlyGrows(m, steps[0]);
      }
      var k1 := if steps[0].Schedule? then k - 1 else k;
      assert m1.ready[k1] == m.ready[k];
      var j := BoundedWaiting(m1, steps[1..], k1);
      i := j + 1;
      assert steps[..i + 1][1..] == steps[1..][..j + 1];
      assert steps[..i][1..] == steps[1..][..j];
    }
  }

  // ---------- A thread that has been woken before it left its CPU ----------

  /** A step that the thread on CPU `c` takes itself. */
  ghost predicate ActsOn(s: Step, c: nat) {
    s == Schedule(c) || (s.Sleep? && s.cpu == c) || s == Finish(c)
  }

  /** The thread on CPU `c` runs and has nothing to sleep on. */
  ghost predicate Awake(m: State, c: nat, t: Tid) {
    && WellFormed(m) && c < |m.current| && m.current[c] == t && IsThread(m, t)
    && m.states[t] == Running && m.sleepsOn[t] == 0
  }

  lemma AwakeStep(m: State, s: Step, c: nat, t: Tid)
    requires Inv(m) && Enabled(m, s) && Awake(m, c, t) && !ActsOn(s, c)
    ensures Awake(Apply(m, s), c, t)
  {
    if s.WakeAll? {
      WakeAllRows(m, s.r, t);
      WakeAllRows(m, s.r, 0);
    } else if s.Wake? {
      WaitersAreThreads(m, s.r);
      assert Waiters(m, s.r) != [] ==> Waiters(m, s.r)[0] in Waiters(m, s.r);
    } else if s.Schedule? {
      AwakeSchedule(m, s.cpu, c, t);
    }
  }

  /** Another CPU's scheduling leaves the thread where it is. */
  lemma AwakeSchedule(m: State, d: nat, c: nat, t: Tid)
    requires Inv(m) && d < |m.current| && d != c && Awake(m, c, t)
    ensures Awake(DoSchedule(m, d), c, t)
  {
    var m1 := Leave(m, d);
    assert m.current[d] != t;
    assert m1.ready != [] ==> m1.ready[0] in m1.ready;
    assert t !in m.ready && t !in m1.ready;
  }

  /** Whatever happens elsewhere, until it acts itself it stays awake. */
  lemma {:induction false} StaysAwake(m: State, steps: seq<Step>, c: nat, t: Tid)
    requires Inv(m) && ValidRun(m, steps) && Awake(m, c, t) && forall i :: 0 <= i < |steps| ==> !ActsOn(steps[i], c)
    ensures Inv(After(m, steps)) && Awake(After(m, steps), c, t)
    decreases |steps|
  {
    if steps != [] {
      StepKeepsInv(m, steps[0]);
      AwakeStep(m, steps[0], c, t);
      StaysAwake(Apply(m, steps[0]), steps[1..], c, t);
    }
  }

  // ---------- The life of a thread ----------

  /** The step takes thread `t` off the CPU it is on. */
  ghost predicate Leaves(m: State, s: Step, t: Tid) {
    s.Schedule? && s.cpu < |m.current| && m.current[s.cpu] == t
  }

  /** The step wakes thread `t`: it is the oldest waiter of the resource, or all are woken. */
  ghost predicate Wakes(m: State, s: Step, t: Tid)
    requires WellFormed(m) && IsThread(m, t)
  {
    || (s.Wake? && Waiters(m, s.r) != [] && Waiters(m, s.r)[0] == t)
    || (s.WakeAll? && m.sleepsOn[t] == s.r)
  }

  /** One row's part of every step: from which state to which, and by what. */
  ghost function NextThreadState(m: State, s: Step, t: Tid): ThreadState
    requires WellFormed(m) && IsThread(m, t)
  {
    match m.states[t]
    case Free => if s == Create(t) then NonReady else Free
    case NonReady => if s == Run(t) then Ready else NonReady
    case Ready => if s.Schedule? && m.ready != [] && m.ready[0] == t then Running else Ready
    case Running =>
      if s.Finish? && s.cpu < |m.current| && m.current[s.cpu] == t then Dying
      else if !Leaves(m, s, t) then Running
      else if m.sleepsOn[t] != 0 then Sleeping
      else if m.ready == [] then Running
      else Ready
    case Sleeping => if Wakes(m, s, t) then Ready else Sleeping
    case Dying => if Leaves(m, s, t) then Free else Dying
  }

  lemma ThreadLifeCycle(m: State, s: Step, t: Tid)
    requires Inv(m) && Enabled(m, s) && IsThread(m, t)
    ensures |Apply(m, s).states| == |m.states| && Apply(m, s).states[t] == NextThreadState(m, s, t)
  {
    match s
    case Create(_) =>
    case Run(_) =>
    case Schedule(c) => LifeAtSchedule(m, c, t);
    case Sleep(_, _) =>
    case Wake(r) => LifeAtWake(m, r, t);
    case WakeAll(r) => WakeAllRows(m, r, t);
    case Finish(_) =>
  }

  lemma LifeAtSchedule(m: State, c: nat, t: Tid)
    requires Inv(m) && c < |m.current| && IsThread(m, t)
    ensures |DoSchedule(m, c).states| == |m.states|
    ensures DoSchedule(m, c).states[t] == NextThreadState(m, Schedule(c), t)
  {
    var m1 := Leave(m, c);
    assert m.ready != [] ==> m.ready[0] in m.ready && m1.ready[0] == m.ready[0];
    assert m1.ready != [] ==> m1.ready[0] in m1.ready;
  }

  lemma LifeAtWake(m: State, r: nat, t: Tid)
    requires Inv(m) && r != 0 && IsThread(m, t)
    ensures |DoWake(m, r).states| == |m.states| && DoWake(m, r).states[t] == NextThreadState(m, Wake(r), t)
  {
    WaitersAreThreads(m, r);
    if Waiters(m, r) != [] {
      assert Waiters(m, r)[0] in Waiters(m, r);
    }
  }

  /** Only leaving the CPU after having finished makes a row FREE, and only a creation takes a FREE row. */
  lemma FreeRows(m: State, s: Step, t: Tid)
    requires Inv(m) && Enabled(m, s) && IsThread(m, t)
    ensures var m' := Apply(m, s);
      |m'.states| == |m.states| &&
      (m'.states[t] == Free <==> (m.states[t] == Free && s != Create(t)) || (m.states[t] == Dying && Leaves(m, s, t)))
  {
    ThreadLifeCycle(m, s, t);
  }

  lemma {:induction false} StaysDying(m: State, steps: seq<Step>, c: nat, t: Tid)
    requires Inv(m) && ValidRun(m, steps) && IsThread(m, t) && m.states[t] == Dying
    requires c < |m.current| && m.current[c] == t && forall i :: 0 <= i < |steps| ==> steps[i] != Schedule(c)
    ensures var m' := After(m, steps);
      && Inv(m') && IsThread(m', t) && m'.states[t] == Dying && c < |m'.current| && m'.current[c] == t
    decreases |steps|
  {
    if steps != [] {
      StepKeepsInv(m, steps[0]);
      DyingStep(m, steps[0], c, t);
      StaysDying(Apply(m, steps[0]), steps[1..], c, t);
    }
  }

  lemma DyingStep(m: State, s: Step, c: nat, t: Tid)
    requires Inv(m) && Enabled(m, s) && IsThread(m, t) && m.states[t] == Dying
    requires c < |m.current| && m.current[c] == t && s != Schedule(c)
    ensures var m' := Apply(m, s);
      IsThread(m', t) && m'.states[t] == Dying && c < |m'.current| && m'.current[c] == t
  {
    ThreadLifeCycle(m, s, t);
    if s.WakeAll? {
      WakeAllRows(m, s.r, t);
    }
  }

  /**
   A finished thread's row: whatever the others do until its CPU schedules, it is then FREE and
   can be created again.
   */
  lemma FinishedIsFreed(m: State, c: nat, steps: seq<Step>)
    requires Inv(m) && Enabled(m, Finish(c)) && Inv(DoFinish(m, c)) && ValidRun(DoFinish(m, c), steps)
    requires forall i :: 0 <= i < |steps| ==> steps[i] != Schedule(c)
    ensures var t, m' := m.current[c], After(DoFinish(m, c), steps);
      && Inv(m') && Enabled(m', Schedule(c)) && Inv(DoSchedule(m', c))
      && IsThread(DoSchedule(m', c), t) && DoSchedule(m', c).states[t] == Free
      && Enabled(DoSchedule(m', c), Create(t))
  {
    var t := m.current[c];
    ThreadLifeCycle(m, Finish(c), t);
    StaysDying(DoFinish(m, c), steps, c, t);
    var m' := After(DoFinish(m, c), steps);
    ScheduleKeepsInv(m', c);
    ThreadLifeCycle(m', Schedule(c), t);
  }

  /** A created thread can be run, and then stands last on the ready list. */
  lemma CreatedRuns(m: State, t: Tid)
    requires Inv(m) && Enabled(m, Create(t))
    ensures var m1 := DoCreate(m, t);
      && Inv(m1) && Enabled(m1, Run(t)) && m1.ready == m.ready
      && DoRun(m1, t).ready == m.ready + [t]
  {
    CreateKeepsInv(m, t);
    ThreadLifeCycle(m, Create(t), t);
  }
}
