/**
 The kernel's thread table with the links that the ready list and the sleep queue share.
 One `next` field per row serves both the FIFO ready list and the chains of the sleep
 queue's hash table. Every operation is proved to do to the linked structure exactly what
 the corresponding step of the thread machine does.
 */
module Kernel {
  import opened Sequences
  import opened Machine

  const HASH_SIZE := 127
  const NONE: Tid := -1

  datatype Row = Row(state: ThreadState, sleepsOn: nat, next: Tid)

  function Hash(r: nat): nat {
    r % HASH_SIZE
  }

  ghost function StatesOf(rows: seq<Row>): seq<ThreadState> {
    seq(|rows|, i requires 0 <= i < |rows| => rows[i].state)
  }

  ghost function SleepsOf(rows: seq<Row>): seq<nat> {
    seq(|rows|, i requires 0 <= i < |rows| => rows[i].sleepsOn)
  }

  // ---------- Linked lists through the rows ----------

  ghost function Following(s: seq<Tid>, i: nat): Tid {
    if i + 1 < |s| then s[i + 1] else NONE
  }

  /** Following `next` from `first` visits exactly `s` and then ends. */
  ghost predicate Linked(rows: seq<Row>, first: Tid, s: seq<Tid>) {
    && first == (if s == [] then NONE else s[0])
    && forall i :: 0 <= i < |s| ==> 0 < s[i] < |rows| && rows[s[i]].next == Following(s, i)
  }

  ghost function Last(s: seq<Tid>): Tid {
    if s == [] then NONE else s[|s| - 1]
  }

  /** A list is untouched by changes to rows that are not on it, or that keep `next`. */
  lemma LinkedFrame(rows: seq<Row>, rows': seq<Row>, first: Tid, s: seq<Tid>)
    requires Linked(rows, first, s) && |rows| == |rows'|
    requires forall t :: t in s && 0 <= t < |rows| ==> rows'[t].next == rows[t].next
    ensures Linked(rows', first, s)
  {
    forall i | 0 <= i < |s|
      ensures 0 < s[i] < |rows'| && rows'[s[i]].next == Following(s, i)
    {
      assert s[i] in s;
    }
  }

  /** Linking a new row behind the last one appends it. */
  lemma LinkedAppend(rows: seq<Row>, rows': seq<Row>, first: Tid, s: seq<Tid>, t: Tid)
    requires Linked(rows, first, s) && |rows| == |rows'| && Distinct(s) && t !in s && 0 < t < |rows|
    requires rows'[t].next == NONE
    requires s != [] ==> 0 <= Last(s) < |rows| && rows'[Last(s)].next == t
    requires forall u :: u in s && u != Last(s) && 0 <= u < |rows| ==> rows'[u].next == rows[u].next
    ensures Linked(rows', if s == [] then t else first, s + [t])
  {
    var s' := s + [t];
    forall i | 0 <= i < |s'|
      ensures 0 < s'[i] < |rows'| && rows'[s'[i]].next == Following(s', i)
    {
      if i < |s| - 1 {
        assert s[i] in s && s[i] != Last(s);
      }
    }
  }

  /** Linking past the row at `k` removes it. */
  lemma LinkedRemove(rows: seq<Row>, rows': seq<Row>, first: Tid, s: seq<Tid>, k: nat)
    requires Linked(rows, first, s) && |rows| == |rows'| && Distinct(s) && k < |s|
    requires k > 0 ==> 0 < s[k - 1] < |rows| && rows'[s[k - 1]].next == Following(s, k)
    requires forall u :: u in s && u != s[k] && (k > 0 ==> u != s[k - 1]) && 0 <= u < |rows| ==>
      rows'[u].next == rows[u].next
    ensures Linked(rows', if k == 0 then Following(s, 0) else first, s[..k] + s[k + 1..])
  {
    var s' := s[..k] + s[k + 1..];
    forall i | 0 <= i < |s'|
      ensures 0 < s'[i] < |rows'| && rows'[s'[i]].next == Following(s', i)
    {
      var j := if i < k then i else i + 1;
      assert s'[i] == s[j] && s[j] in s;
    }
  }

  // ---------- The whole linked structure ----------

  /** The ready list: where its links are and what it holds. */
  ghost predicate ReadyLinked(rows: seq<Row>, head: Tid, tail: Tid, ready: seq<Tid>) {
    && Linked(rows, head, ready)
    && tail == Last(ready)
    && Distinct(ready)
    && forall t :: t in ready ==> 0 < t < |rows| && rows[t].sleepsOn == 0
  }

  ghost predicate ChainLinked(rows: seq<Row>, first: Tid, chain: seq<Tid>, h: nat) {
    && Linked(rows, first, chain)
    && Distinct(chain)
    && forall t :: t in chain ==> 0 < t < |rows| && rows[t].sleepsOn != 0 && Hash(rows[t].sleepsOn) == h
  }

  ghost predicate ChainsLinked(rows: seq<Row>, table: seq<Tid>, chains: seq<seq<Tid>>) {
    && |table| == |chains| == HASH_SIZE
    && forall h :: 0 <= h < HASH_SIZE ==> ChainLinked(rows, table[h], chains[h], h)
  }

  /** The threads whose resource hashes to `h`. */
  ghost function Hashed(sleepsOn: seq<nat>, h: nat): set<Tid> {
    set t | 0 <= t < |sleepsOn| && sleepsOn[t] != 0 && Hash(sleepsOn[t]) == h
  }

  /** Chain `h` is the part of the line of sleepers that hashes to `h`. */
  ghost predicate ChainsRefine(sleepsOn: seq<nat>, sleepers: seq<Tid>, chains: seq<seq<Tid>>) {
    forall h :: 0 <= h < |chains| ==> chains[h] == Filter(sleepers, Hashed(sleepsOn, h))
  }

  /** Rows outside every list may change freely, and so may fields other than the links' own. */
  lemma ChainsFrame(rows: seq<Row>, rows': seq<Row>, table: seq<Tid>, chains: seq<seq<Tid>>)
    requires ChainsLinked(rows, table, chains) && |rows'| == |rows|
    requires forall t :: 0 < t < |rows| && rows[t].sleepsOn != 0 ==>
      rows'[t].next == rows[t].next && rows'[t].sleepsOn == rows[t].sleepsOn
    ensures ChainsLinked(rows', table, chains)
  {
    forall h | 0 <= h < HASH_SIZE
      ensures ChainLinked(rows', table[h], chains[h], h)
    {
      assert ChainLinked(rows, table[h], chains[h], h);
      LinkedFrame(rows, rows', table[h], chains[h]);
    }
  }

  /** One chain may be replaced, together with the rows on it. */
  lemma ChainsReplace(rows: seq<Row>, rows': seq<Row>, table: seq<Tid>, chains: seq<seq<Tid>>,
                      h: nat, first: Tid, chain: seq<Tid>)
    requires ChainsLinked(rows, table, chains) && |rows'| == |rows| && h < HASH_SIZE
    requires ChainLinked(rows', first, chain, h)
    requires forall t :: 0 < t < |rows| && rows[t].sleepsOn != 0 && Hash(rows[t].sleepsOn) != h ==>
      rows'[t].next == rows[t].next && rows'[t].sleepsOn == rows[t].sleepsOn
    ensures ChainsLinked(rows', table[h := first], chains[h := chain])
  {
    forall g | 0 <= g < HASH_SIZE && g != h
      ensures ChainLinked(rows', table[g], chains[g], g)
    {
      assert ChainLinked(rows, table[g], chains[g], g);
      LinkedFrame(rows, rows', table[g], chains[g]);
    }
  }

  /** A thread that has left the sleep queue becomes READY if it was SLEEPING. */
  ghost function MadeReady(m: State, t: Tid): State
    requires 0 <= t < |m.states|
  {
    if m.states[t] == Sleeping then m.(states := m.states[t := Ready], ready := m.ready + [t]) else m
  }

  /** The rows once row `last`, if there is one, points to `t`. */
  ghost function LinkLast(rows: seq<Row>, last: Tid, t: Tid): seq<Row> {
    if 0 <= last < |rows| then rows[last := rows[last].(next := t)] else rows
  }

  /** Linking row `t` behind the last row of its chain appends it to that chain. */
  lemma ChainsAppend(rows: seq<Row>, rows': seq<Row>, table: seq<Tid>, chains: seq<seq<Tid>>, t: Tid)
    requires ChainsLinked(rows, table, chains) && 0 < t < |rows| && rows[t].sleepsOn != 0
    requires t !in chains[Hash(rows[t].sleepsOn)] && rows[t].next == NONE
    requires rows' == LinkLast(rows, Last(chains[Hash(rows[t].sleepsOn)]), t)
    ensures var h := Hash(rows[t].sleepsOn);
      ChainsLinked(rows', table[h := if chains[h] == [] then t else table[h]], chains[h := chains[h] + [t]])
  {
    var h := Hash(rows[t].sleepsOn);
    var chain := chains[h];
    assert ChainLinked(rows, table[h], chain, h);
    ChainAppended(rows, rows', table[h], chain, h, t);
    ChainsReplace(rows, rows', table, chains, h, if chain == [] then t else table[h], chain + [t]);
  }

  /** The same for the one chain. */
  lemma ChainAppended(rows: seq<Row>, rows': seq<Row>, first: Tid, chain: seq<Tid>, h: nat, t: Tid)
    requires ChainLinked(rows, first, chain, h) && 0 < t < |rows| && t !in chain && rows[t].next == NONE
    requires rows[t].sleepsOn != 0 && Hash(rows[t].sleepsOn) == h && rows' == LinkLast(rows, Last(chain), t)
    ensures |rows'| == |rows| && ChainLinked(rows', if chain == [] then t else first, chain + [t], h)
    ensures forall u :: 0 < u < |rows| && rows[u].sleepsOn != 0 && Hash(rows[u].sleepsOn) != h ==> rows'[u] == rows[u]
  {
    if chain != [] {
      assert Last(chain) in chain;
    }
    LinkedAppend(rows, rows', first, chain, t);
    DistinctAppend(chain, t);
  }

  /** The rows once `prev`, if there is one, points past `t` and `t` is cleared. */
  ghost function UnlinkRow(rows: seq<Row>, prev: Tid, t: Tid): seq<Row>
    requires 0 <= t < |rows|
  {
    var cut := if 0 < prev < |rows| then rows[prev := rows[prev].(next := rows[t].next)] else rows;
    cut[t := cut[t].(sleepsOn := 0, next := NONE)]
  }

  ghost function Preceding(s: seq<Tid>, k: nat): Tid
    requires k <= |s|
  {
    if k == 0 then NONE else s[k - 1]
  }

  lemma ChainsRemove(rows: seq<Row>, table: seq<Tid>, chains: seq<seq<Tid>>, h: nat, k: nat)
    requires ChainsLinked(rows, table, chains) && h < HASH_SIZE && k < |chains[h]|
    ensures 0 < chains[h][k] < |rows|
    ensures ChainsLinked(UnlinkRow(rows, Preceding(chains[h], k), chains[h][k]),
                         table[h := if k == 0 then Following(chains[h], 0) else table[h]],
                         chains[h := chains[h][..k] + chains[h][k + 1..]])
  {
    var chain := chains[h];
    assert ChainLinked(rows, table[h], chain, h);
    var rows' := UnlinkRow(rows, Preceding(chain, k), chain[k]);
    var first := if k == 0 then Following(chain, 0) else table[h];
    ChainCut(rows, rows', table[h], chain, h, k);
    ChainsReplace(rows, rows', table, chains, h, first, chain[..k] + chain[k + 1..]);
  }

  lemma ChainCut(rows: seq<Row>, rows': seq<Row>, first: Tid, chain: seq<Tid>, h: nat, k: nat)
    requires ChainLinked(rows, first, chain, h) && k < |chain|
    requires rows' == UnlinkRow(rows, Preceding(chain, k), chain[k])
    ensures 0 < chain[k] < |rows| == |rows'|
    ensures ChainLinked(rows', if k == 0 then Following(chain, 0) else first, chain[..k] + chain[k + 1..], h)
    ensures forall t :: 0 < t < |rows| && rows[t].sleepsOn != 0 && Hash(rows[t].sleepsOn) != h ==> rows'[t] == rows[t]
  {
    assert chain[k] in chain;
    CutMembers(chain, k);
    CutLinks(rows, rows', first, chain, k);
    UnlinkKeepsResources(rows, rows', Preceding(chain, k), chain[k]);
    if k > 0 {
      assert chain[k - 1] in chain;
    }
  }

  lemma UnlinkKeepsResources(rows: seq<Row>, rows': seq<Row>, prev: Tid, t: Tid)
    requires 0 < t < |rows| && rows' == UnlinkRow(rows, prev, t)
    ensures |rows'| == |rows|
    ensures forall u :: 0 <= u < |rows| && u != t ==> rows'[u].sleepsOn == rows[u].sleepsOn
    ensures forall u :: 0 <= u < |rows| && u != t && u != prev ==> rows'[u] == rows[u]
  {
  }

  lemma CutLinks(rows: seq<Row>, rows': seq<Row>, first: Tid, chain: seq<Tid>, k: nat)
    requires Linked(rows, first, chain) && Distinct(chain) && k < |chain|
    requires rows' == UnlinkRow(rows, Preceding(chain, k), chain[k])
    ensures Linked(rows', if k == 0 then Following(chain, 0) else first, chain[..k] + chain[k + 1..])
  {
    LinkedRemove(rows, rows', first, chain, k);
  }

  lemma CutMembers(s: seq<Tid>, k: nat)
    requires Distinct(s) && k < |s|
    ensures var cut := s[..k] + s[k + 1..];
      Distinct(cut) && forall x :: x in cut <==> x in s && x != s[k]
  {
    WithoutAt(s, k);
    WithoutMembers(s, s[k]);
  }

  // ---------- What the steps do to the chains ----------

  lemma RefineSleep(m: State, chains: seq<seq<Tid>>, c: nat, r: nat)
    requires Inv(m) && Enabled(m, Sleep(c, r)) && |chains| == HASH_SIZE
    requires ChainsRefine(m.sleepsOn, m.sleepers, chains)
    ensures var m1 := DoSleep(m, c, r);
      ChainsRefine(m1.sleepsOn, m1.sleepers, chains[Hash(r) := chains[Hash(r)] + [m.current[c]]])
  {
    var t := m.current[c];
    var m1 := DoSleep(m, c, r);
    var chains' := chains[Hash(r) := chains[Hash(r)] + [t]];
    forall h | 0 <= h < HASH_SIZE
      ensures chains'[h] == Filter(m1.sleepers, Hashed(m1.sleepsOn, h))
    {
      FilterConcat(m.sleepers, [t], Hashed(m1.sleepsOn, h));
      FilterAgree(m.sleepers, Hashed(m1.sleepsOn, h), Hashed(m.sleepsOn, h));
      assert Filter([t], Hashed(m1.sleepsOn, h)) == if Hash(r) == h then [t] else [];
    }
  }

  lemma RefineRelease(m: State, chains: seq<seq<Tid>>, t: Tid)
    requires Inv(m) && t in m.sleepers && |chains| == HASH_SIZE
    requires ChainsRefine(m.sleepsOn, m.sleepers, chains)
    ensures var m1, h := Release(m, t), Hash(m.sleepsOn[t]);
      ChainsRefine(m1.sleepsOn, m1.sleepers, chains[h := Without(chains[h], t)])
  {
    var m1 := Release(m, t);
    var k := Hash(m.sleepsOn[t]);
    var chains' := chains[k := Without(chains[k], t)];
    WithoutMembers(m.sleepers, t);
    forall h | 0 <= h < HASH_SIZE
      ensures chains'[h] == Filter(m1.sleepers, Hashed(m1.sleepsOn, h))
    {
      FilterAgree(m1.sleepers, Hashed(m1.sleepsOn, h), Hashed(m.sleepsOn, h));
      FilterWithout(m.sleepers, Hashed(m.sleepsOn, h), t);
      FilterMembers(m.sleepers, Hashed(m.sleepsOn, h));
      if h != k {
        FilterAll(chains[h], Elements(chains[h]) - {t});
      }
    }
  }

  /** The first row of the chain sleeping on `r` is the oldest waiter for `r`. */
  lemma OldestInChain(m: State, chains: seq<seq<Tid>>, r: nat, k: nat)
    requires Inv(m) && r != 0 && |chains| == HASH_SIZE
    requires ChainsRefine(m.sleepsOn, m.sleepers, chains)
    requires k <= |chains[Hash(r)]|
    requires forall i :: 0 <= i < |chains[Hash(r)]| ==> 0 <= chains[Hash(r)][i] < |m.sleepsOn|
    requires forall i :: 0 <= i < k ==> m.sleepsOn[chains[Hash(r)][i]] != r
    requires k < |chains[Hash(r)]| ==> m.sleepsOn[chains[Hash(r)][k]] == r
    ensures k == |chains[Hash(r)]| ==> Waiters(m, r) == []
    ensures k < |chains[Hash(r)]| ==> Waiters(m, r) != [] && Waiters(m, r)[0] == chains[Hash(r)][k]
  {
    var chain := chains[Hash(r)];
    FilterTwice(m.sleepers, Hashed(m.sleepsOn, Hash(r)), SleepingOn(m, r));
    FilterAgree(m.sleepers, Hashed(m.sleepsOn, Hash(r)) * SleepingOn(m, r), SleepingOn(m, r));
    if k < |chain| {
      FilterFirst(chain, SleepingOn(m, r), k);
    } else {
      FilterNone(chain, SleepingOn(m, r));
    }
  }

  /** Row `t` lies on chain `h` exactly if it sleeps on a resource that hashes to `h`. */
  ghost predicate ChainExact(rows: seq<Row>, chain: seq<Tid>, h: nat) {
    && Distinct(chain)
    && forall t :: t in chain <==> 0 < t < |rows| && rows[t].sleepsOn != 0 && Hash(rows[t].sleepsOn) == h
  }

  /**
   What the shared links amount to: the ready list holds exactly the READY threads and each
   chain exactly the sleepers that hash to it, once each; no thread is on two lists; and a
   RUNNING thread is current on exactly one CPU.
   */
  lemma LinksAreExact(rows: seq<Row>, head: Tid, tail: Tid, table: seq<Tid>, chains: seq<seq<Tid>>, m: State)
    requires Inv(m) && m.states == StatesOf(rows) && m.sleepsOn == SleepsOf(rows)
    requires ReadyLinked(rows, head, tail, m.ready) && ChainsLinked(rows, table, chains)
    requires ChainsRefine(m.sleepsOn, m.sleepers, chains)
    ensures Distinct(m.ready) && forall t :: t in m.ready <==> 0 < t < |rows| && rows[t].state == Ready
    ensures forall h :: 0 <= h < HASH_SIZE ==> ChainExact(rows, chains[h], h)
    ensures forall h, t :: 0 <= h < HASH_SIZE && t in chains[h] ==> t !in m.ready
    ensures forall g, h, t :: 0 <= g < h < HASH_SIZE && t in chains[g] ==> t !in chains[h]
    ensures forall t :: 0 < t < |rows| && rows[t].state == Running ==> OnOneCpu(m, t)
  {
    forall h | 0 <= h < HASH_SIZE
      ensures ChainExact(rows, chains[h], h)
    {
      ChainHolds(rows, table, chains, m, h);
    }
    forall t | 0 < t < |rows| && rows[t].state == Running
      ensures OnOneCpu(m, t)
    {
      RunsOnce(m, t);
    }
  }

  lemma ChainHolds(rows: seq<Row>, table: seq<Tid>, chains: seq<seq<Tid>>, m: State, h: nat)
    requires Inv(m) && m.sleepsOn == SleepsOf(rows) && h < HASH_SIZE
    requires ChainsLinked(rows, table, chains) && ChainsRefine(m.sleepsOn, m.sleepers, chains)
    ensures ChainExact(rows, chains[h], h)
  {
    assert ChainLinked(rows, table[h], chains[h], h);
    FilterMembers(m.sleepers, Hashed(m.sleepsOn, h));
  }

  lemma RunsOnce(m: State, t: Tid)
    requires Inv(m) && 0 < t < |m.states| && m.states[t] == Running
    ensures OnOneCpu(m, t)
  {
    assert t in m.current;
    var c :| 0 <= c < |m.current| && m.current[c] == t;
    assert OnlyCpu(m, t, c);
  }

  ghost predicate OnOneCpu(m: State, t: Tid) {
    exists c :: 0 <= c < |m.current| && OnlyCpu(m, t, c)
  }

  ghost predicate OnlyCpu(m: State, t: Tid, c: nat) {
    c < |m.current| && forall d :: 0 <= d < |m.current| ==> (m.current[d] == t <==> d == c)
  }

  /** Linking behind a sleeper touches no row of the ready list. */
  lemma LinkLastKeeps(rows: seq<Row>, last: Tid, t: Tid, head: Tid, tail: Tid, ready: seq<Tid>)
    requires ReadyLinked(rows, head, tail, ready) && (last == NONE || (0 < last < |rows| && rows[last].sleepsOn != 0))
    ensures var rows' := LinkLast(rows, last, t);
      && ReadyLinked(rows', head, tail, ready) && StatesOf(rows') == StatesOf(rows) && SleepsOf(rows') == SleepsOf(rows)
  {
    LinkedFrame(rows, LinkLast(rows, last, t), head, ready);
  }

  /** A FREE row is on no list. */
  lemma FreeIsUnlinked(m: State, rows: seq<Row>, t: Tid)
    requires Inv(m) && m.states == StatesOf(rows) && m.sleepsOn == SleepsOf(rows) && 0 < t < |rows|
    requires rows[t].state == Free
    ensures t !in m.ready && rows[t].sleepsOn == 0
  {
    assert m.states[t] == Free && m.sleepsOn[t] == rows[t].sleepsOn;
  }

  /** A row that is on no list may be rewritten. */
  lemma ReservedRow(rows: seq<Row>, rows': seq<Row>, head: Tid, tail: Tid, ready: seq<Tid>, table: seq<Tid>,
                    chains: seq<seq<Tid>>, t: Tid)
    requires 0 < t < |rows| && t !in ready && rows[t].sleepsOn == 0 && rows' == rows[t := Row(NonReady, 0, NONE)]
    requires ReadyLinked(rows, head, tail, ready) && ChainsLinked(rows, table, chains)
    ensures ReadyLinked(rows', head, tail, ready) && ChainsLinked(rows', table, chains)
    ensures SleepsOf(rows') == SleepsOf(rows) && StatesOf(rows') == StatesOf(rows)[t := NonReady]
  {
    LinkedFrame(rows, rows', head, ready);
    ChainsFrame(rows, rows', table, chains);
  }

  /** Linking a row behind the tail of the ready list appends it there. */
  lemma ReadyAppended(rows: seq<Row>, rows': seq<Row>, head: Tid, ready: seq<Tid>, t: Tid)
    requires ReadyLinked(rows, head, Last(ready), ready) && 0 < t < |rows| && rows[t].sleepsOn == 0 && t !in ready
    requires rows' == LinkLast(rows, Last(ready), t)[t := rows[t].(next := NONE)]
    ensures ReadyLinked(rows', if ready == [] then t else head, t, ready + [t])
    ensures StatesOf(rows') == StatesOf(rows) && SleepsOf(rows') == SleepsOf(rows)
  {
    if ready != [] {
      assert Last(ready) in ready;
    }
    LinkedAppend(rows, rows', head, ready, t);
    DistinctAppend(ready, t);
  }

  /** Without its first thread the ready list starts at that thread's link. */
  lemma ReadyTail(rows: seq<Row>, head: Tid, tail: Tid, ready: seq<Tid>)
    requires ReadyLinked(rows, head, tail, ready) && ready != []
    ensures 0 < head < |rows| && head == ready[0]
    ensures ReadyLinked(rows, rows[head].next, if tail == head then NONE else tail, ready[1..])
  {
    assert ready[0] in ready;
    LinkedTail(rows, head, ready);
    TailMembers(ready);
    assert tail == head <==> |ready| == 1;
  }

  lemma LinkedTail(rows: seq<Row>, first: Tid, s: seq<Tid>)
    requires Linked(rows, first, s) && s != []
    ensures 0 < first < |rows| && Linked(rows, rows[first].next, s[1..])
  {
    var tail := s[1..];
    assert s[0] == first && rows[s[0]].next == Following(s, 0);
    forall i | 0 <= i < |tail|
      ensures 0 < tail[i] < |rows| && rows[tail[i]].next == Following(tail, i)
    {
      assert tail[i] == s[i + 1] && rows[s[i + 1]].next == Following(s, i + 1);
    }
  }

  class ThreadTable {
    const threads: array<Row>
    const hashtable: array<Tid>
    const current: array<Tid>
    var head: Tid
    var tail: Tid
    var nextTid: Tid
    ghost var ready: seq<Tid>
    ghost var sleepers: seq<Tid>
    ghost var chains: seq<seq<Tid>>

    /** The thread machine's state that this structure stands for. */
    ghost function View(): State
      reads this, threads, current
    {
      State(StatesOf(threads[..]), SleepsOf(threads[..]), ready, sleepers, current[..])
    }

    ghost predicate Shape()
      reads this, threads, hashtable
    {
      && hashtable != current
      && ReadyLinked(threads[..], head, tail, ready)
      && ChainsLinked(threads[..], hashtable[..], chains)
    }

    ghost predicate Valid()
      reads this, threads, hashtable, current
    {
      && Shape()
      && Inv(View())
      && ChainsRefine(SleepsOf(threads[..]), sleepers, chains)
      && 0 <= nextTid < threads.Length
    }

    /** thread_table_init, sleepq_init and scheduler_init. */
    constructor (maxThreads: nat, maxCpus: nat)
      requires 2 <= maxThreads && 1 <= maxCpus
      ensures Valid() && View() == Init(maxThreads, maxCpus)
      ensures fresh(threads) && fresh(hashtable) && fresh(current)
    {
      threads := new Row[maxThreads](i => Row(if i == IDLE then Ready else Free, 0, NONE));
      hashtable := new Tid[HASH_SIZE](_ => NONE);
      current := new Tid[maxCpus](_ => IDLE);
      head, tail, nextTid := NONE, NONE, 0;
      ready, sleepers := [], [];
      chains := seq(HASH_SIZE, _ => []);
      new;
      assert View() == Init(maxThreads, maxCpus);
      InitInv(maxThreads, maxCpus);
    }

    /** In every valid table the links form exactly the lists they should, and no thread is on two of them. */
    lemma ListsAreExact()
      requires Valid()
      ensures Linked(threads[..], head, ready) && tail == Last(ready) && Distinct(ready)
      ensures forall t :: t in ready <==> 0 < t < threads.Length && threads[t].state == Ready
      ensures forall h :: 0 <= h < HASH_SIZE ==>
        Linked(threads[..], hashtable[h], chains[h]) && ChainExact(threads[..], chains[h], h)
      ensures forall h, t :: 0 <= h < HASH_SIZE && t in chains[h] ==> t !in ready
      ensures forall g, h, t :: 0 <= g < h < HASH_SIZE && t in chains[g] ==> t !in chains[h]
      ensures forall t :: 0 < t < threads.Length && threads[t].state == Running ==> OnOneCpu(View(), t)
    {
      LinksAreExact(threads[..], head, tail, hashtable[..], chains, View());
      forall h | 0 <= h < HASH_SIZE
        ensures Linked(threads[..], hashtable[h], chains[h])
      {
        assert ChainLinked(threads[..], hashtable[..][h], chains[h], h);
      }
    }

    /** scheduler_add_to_ready_list: append to the ready list; the caller holds the lock. */
    method AddToReadyList(t: Tid)
      requires Shape()
      requires 0 < t < threads.Length && threads[t].sleepsOn == 0 && t !in ready
      modifies this`head, this`tail, this`ready, threads
      ensures Shape() && ready == old(ready) + [t]
      ensures StatesOf(threads[..]) == old(StatesOf(threads[..]))
      ensures SleepsOf(threads[..]) == old(SleepsOf(threads[..]))
    {
      ghost var rows := threads[..];
      if tail < 0 {
        head := t;
        tail := t;
        threads[t] := threads[t].(next := NONE);
      } else {
        assert tail in ready;
        threads[tail] := threads[tail].(next := t);
        threads[t] := threads[t].(next := NONE);
        tail := t;
      }
      ReadyAppended(rows, threads[..], old(head), ready, t);
      ChainsFrame(rows, threads[..], hashtable[..], chains);
      ready := ready + [t];
    }

    /** scheduler_remove_first_ready: the head of the ready list, or the idle thread. */
    method RemoveFirstReady() returns (t: Tid)
      requires Shape() && 0 < threads.Length
      requires forall u :: u in ready && 0 <= u < threads.Length ==> threads[u].state == Ready
      modifies this`head, this`tail, this`ready
      ensures Shape()
      ensures old(ready) == [] ==> t == IDLE && ready == []
      ensures old(ready) != [] ==> t == old(ready)[0] && ready == old(ready)[1..]
    {
      t := head;
      assert t != IDLE;
      if t >= 0 {
        assert t == ready[0] && t in ready;
        assert threads[t].state == Ready;
        if tail == t {
          tail := NONE;
        }
        ReadyTail(threads[..], head, old(tail), ready);
        head := threads[head].next;
        ready := ready[1..];
      }
      if t < 0 {
        t := IDLE;
      }
    }

    /** scheduler_add_ready, which is all of thread_run. */
    method AddReady(t: Tid)
      requires Valid() && Enabled(View(), Run(t))
      modifies this`head, this`tail, this`ready, threads
      ensures Valid() && View() == DoRun(old(View()), t)
    {
      ghost var m := View();
      AddToReadyList(t);
      SetState(t, Ready);
      RunKeepsInv(m, t);
    }

    /** Assigns the state field of one row. */
    method SetState(t: Tid, s: ThreadState)
      requires Shape() && 0 <= t < threads.Length
      modifies threads
      ensures Shape()
      ensures StatesOf(threads[..]) == old(StatesOf(threads[..]))[t := s]
      ensures SleepsOf(threads[..]) == old(SleepsOf(threads[..]))
    {
      ghost var rows := threads[..];
      threads[t] := threads[t].(state := s);
      LinkedFrame(rows, threads[..], head, ready);
      ChainsFrame(rows, threads[..], hashtable[..], chains);
    }

    /** The first half of scheduler_schedule: what becomes of the thread leaving `cpu`. */
    method LeaveCpu(cpu: nat)
      requires Valid() && cpu < current.Length
      modifies this`head, this`tail, this`ready, threads
      ensures Shape() && View() == Leave(old(View()), cpu)
    {
      var me := current[cpu];
      assert me == View().current[cpu];
      if threads[me].state == Dying {
        SetState(me, Free);
      } else if threads[me].sleepsOn != 0 {
        SetState(me, Sleeping);
      } else {
        if me != IDLE {
          assert me in View().current;
          AddToReadyList(me);
        }
        SetState(me, Ready);
      }
    }

    /** scheduler_schedule on CPU `cpu`. */
    method Schedule(cpu: nat)
      requires Valid() && cpu < current.Length
      modifies this`head, this`tail, this`ready, threads, current
      ensures Valid() && View() == DoSchedule(old(View()), cpu)
    {
      ghost var m := View();
      LeaveKeeps(m, cpu);
      LeaveCpu(cpu);
      DispatchTo(cpu);
      ScheduleKeepsInv(m, cpu);
    }

    /** The second half of scheduler_schedule: the head of the ready list takes `cpu`. */
    method DispatchTo(cpu: nat)
      requires Shape() && cpu < current.Length && WellFormed(View()) && ReadyOk(View())
      modifies this`head, this`tail, this`ready, threads, current
      ensures Shape() && View() == Dispatch(old(View()), cpu)
    {
      ghost var m := View();
      assert forall u :: u in ready && 0 <= u < threads.Length ==> threads[u].state == m.states[u];
      var t := RemoveFirstReady();
      assert m.ready != [] ==> m.ready[0] in m.ready;
      SetState(t, Running);
      current[cpu] := t;
    }

    /** thread_finish: the current thread marks itself DYING; the scheduler frees the row. */
    method Finish(cpu: nat)
      requires Valid() && Enabled(View(), Machine.Finish(cpu))
      modifies threads
      ensures Valid() && View() == DoFinish(old(View()), cpu)
    {
      ghost var m := View();
      var me := current[cpu];
      SetState(me, Dying);
      FinishKeepsInv(m, cpu);
    }

    /** The slot search of thread_create: the first FREE row at or after the cursor, cyclically. */
    method FindFree() returns (tid: Tid)
      requires 0 <= nextTid < threads.Length
      ensures tid < 0 ==> forall t :: 0 < t < threads.Length ==> threads[t].state != Free
      ensures tid >= 0 ==> 0 < tid < threads.Length && threads[tid].state == Free
      ensures tid >= 0 ==> exists k :: FirstFree(threads[..], nextTid, k, tid)
    {
      var n := threads.Length;
      for i := 0 to n
        invariant forall j :: 0 <= j < i ==> !FreeSlot(threads[..], Probe(nextTid, j, n))
      {
        var t := Probe(nextTid, i, n);
        if t != IDLE && threads[t].state == Free {
          assert FirstFree(threads[..], nextTid, i, t);
          return t;
        }
      }
      forall t | 0 < t < n
        ensures threads[t].state != Free
      {
        ProbeCovers(nextTid, t, n);
        assert !FreeSlot(threads[..], t);
      }
      return -1;
    }

    /** Clears and reserves a FREE row, as thread_create does. */
    method ReserveRow(tid: Tid)
      requires Valid() && Enabled(View(), Machine.Create(tid))
      modifies threads
      ensures Valid() && View() == DoCreate(old(View()), tid)
    {
      ghost var m := View();
      ghost var rows := threads[..];
      assert m.states[tid] == Free;
      threads[tid] := Row(NonReady, 0, NONE);
      FreeIsUnlinked(m, rows, tid);
      ReservedRow(rows, threads[..], head, tail, ready, hashtable[..], chains, tid);
      assert View() == DoCreate(m, tid);
      CreateKeepsInv(m, tid);
    }

    /** thread_create: reserves a row, or returns a negative value exactly when none is FREE. */
    method Create() returns (tid: Tid)
      requires Valid()
      modifies this`nextTid, threads
      ensures Valid()
      ensures tid < 0 <==> forall t :: 0 < t < threads.Length ==> old(threads[t].state) != Free
      ensures tid < 0 ==> View() == old(View()) && nextTid == old(nextTid)
      ensures tid >= 0 ==> Enabled(old(View()), Machine.Create(tid)) && View() == DoCreate(old(View()), tid)
      ensures tid >= 0 ==> exists k :: FirstFree(old(threads[..]), old(nextTid), k, tid)
      ensures tid >= 0 ==> nextTid == (tid + 1) % threads.Length
    {
      tid := FindFree();
      if tid < 0 {
        return;
      }
      nextTid := (tid + 1) % threads.Length;
      ReserveRow(tid);
    }

    /** Walks chain `h` to its last row. */
    method LastInChain(h: nat) returns (prev: Tid)
      requires Shape() && h < HASH_SIZE && chains[h] != []
      ensures prev == Last(chains[h])
    {
      assert ChainLinked(threads[..], hashtable[..][h], chains[h], h);
      prev := hashtable[h];
      ghost var k := 0;
      while threads[prev].next > 0
        invariant 0 <= k < |chains[h]| && prev == chains[h][k]
        decreases |chains[h]| - k
      {
        assert threads[..][chains[h][k]].next == Following(chains[h], k);
        prev := threads[prev].next;
        k := k + 1;
      }
      assert threads[..][chains[h][k]].next == Following(chains[h], k);
    }

    /** Links row `t`, already marked with its resource, behind the last row of its chain. */
    method AppendToChain(t: Tid)
      requires Shape() && 0 < t < threads.Length
      requires threads[t].sleepsOn != 0 && threads[t].next == NONE
      requires t !in chains[Hash(threads[t].sleepsOn)]
      modifies this`chains, threads, hashtable
      ensures Shape()
      ensures StatesOf(threads[..]) == old(StatesOf(threads[..]))
      ensures SleepsOf(threads[..]) == old(SleepsOf(threads[..]))
      ensures var h := Hash(old(threads[t].sleepsOn)); chains == old(chains)[h := old(chains)[h] + [t]]
    {
      var h := Hash(threads[t].sleepsOn);
      ghost var rows, table := threads[..], hashtable[..];
      LinkBehindLast(t, h);
      ChainsAppend(rows, threads[..], table, chains, t);
      LinkLastKeeps(rows, Last(chains[h]), t, head, tail, ready);
      chains := chains[h := chains[h] + [t]];
    }

    /** The pointer writes of sleepq_add. */
    method LinkBehindLast(t: Tid, h: nat)
      requires Shape() && 0 < t < threads.Length && h < HASH_SIZE
      modifies threads, hashtable
      ensures threads[..] == LinkLast(old(threads[..]), Last(chains[h]), t)
      ensures hashtable[..] == old(hashtable[..])[h := if chains[h] == [] then t else old(hashtable[h])]
      ensures Last(chains[h]) == NONE ||
        (0 < Last(chains[h]) < threads.Length && old(threads[Last(chains[h])].sleepsOn) != 0)
    {
      assert ChainLinked(threads[..], hashtable[..][h], chains[h], h);
      assert chains[h] != [] ==> Last(chains[h]) in chains[h];
      if hashtable[h] <= 0 {
        hashtable[h] := t;
      } else {
        var prev := LastInChain(h);
        threads[prev] := threads[prev].(next := t);
      }
    }

    /** sleepq_add: the current thread of `cpu` queues itself behind the last row of its chain. */
    method SleepqAdd(cpu: nat, r: nat)
      requires Valid() && Enabled(View(), Sleep(cpu, r))
      modifies this`sleepers, this`chains, threads, hashtable
      ensures Valid() && View() == DoSleep(old(View()), cpu, r)
    {
      ghost var m := View();
      var me := current[cpu];
      MarkSleeper(me, r);
      AppendToChain(me);
      sleepers := sleepers + [me];
      RefineSleep(m, old(chains), cpu, r);
      assert View() == DoSleep(m, cpu, r);
      SleepKeepsInv(m, cpu, r);
    }

    /** Writes the resource into a row that is on no list. */
    method MarkSleeper(t: Tid, r: nat)
      requires Valid() && 0 < t < threads.Length && r != 0
      requires threads[t].state == Running && threads[t].sleepsOn == 0
      modifies threads
      ensures Shape()
      ensures threads[t] == Row(Running, r, NONE)
      ensures StatesOf(threads[..]) == old(StatesOf(threads[..]))
      ensures SleepsOf(threads[..]) == old(SleepsOf(threads[..]))[t := r]
      ensures forall h :: 0 <= h < HASH_SIZE ==> t !in chains[h]
    {
      ghost var rows := threads[..];
      forall h | 0 <= h < HASH_SIZE
        ensures t !in chains[h]
      {
        assert ChainLinked(rows, hashtable[..][h], chains[h], h);
      }
      assert t !in ready by {
        assert View().states[t] == Running;
      }
      threads[t] := threads[t].(next := NONE, sleepsOn := r);
      LinkedFrame(rows, threads[..], head, ready);
      ChainsFrame(rows, threads[..], hashtable[..], chains);
    }

    /** Walks a chain from position `k0` to the first row sleeping on `r`. */
    method FindSleeper(r: nat, prev0: Tid, first0: Tid, ghost chain: seq<Tid>, ghost k0: nat)
      returns (prev: Tid, first: Tid, ghost k: nat)
      requires Linked(threads[..], At(chain, 0), chain) && NoneBefore(threads[..], chain, k0, r)
      requires prev0 == Preceding(chain, k0) && first0 == At(chain, k0)
      ensures k0 <= k && NoneBefore(threads[..], chain, k, r)
      ensures prev == Preceding(chain, k) && first == At(chain, k)
      ensures first > 0 <==> k < |chain|
      ensures k < |chain| ==> first < threads.Length && threads[first].sleepsOn == r
    {
      prev, first, k := prev0, first0, k0;
      while first > 0 && threads[first].sleepsOn != r
        invariant k0 <= k && NoneBefore(threads[..], chain, k, r)
        invariant prev == Preceding(chain, k) && first == At(chain, k)
        invariant k < |chain| ==> 0 < first < threads.Length
        decreases |chain| - k
      {
        StepPast(threads[..], chain, k, r);
        prev := first;
        first := threads[first].next;
        k := k + 1;
      }
    }

    /** Takes row `t`, the `k`-th of chain `h`, off its chain and clears it. */
    method Unlink(h: nat, prev: Tid, t: Tid, ghost k: nat) returns (following: Tid)
      requires Shape() && h < HASH_SIZE && k < |chains[h]|
      requires t == chains[h][k] && prev == Preceding(chains[h], k)
      requires 0 < t < threads.Length && (k > 0 ==> 0 < prev < threads.Length)
      modifies threads, hashtable
      ensures following == Following(chains[h], k)
      ensures threads[..] == UnlinkRow(old(threads[..]), prev, t)
      ensures hashtable[..] == old(hashtable[..])[h := if k == 0 then Following(chains[h], 0) else old(hashtable[h])]
    {
      assert ChainLinked(threads[..], hashtable[..][h], chains[h], h);
      assert threads[..][chains[h][k]].next == Following(chains[h], k);
      following := threads[t].next;
      if prev <= 0 {
        hashtable[h] := following;
      } else {
        threads[prev] := threads[prev].(next := following);
      }
      threads[t] := threads[t].(sleepsOn := 0, next := NONE);
    }

    /** Makes a row that has just left the sleep queue READY if it was SLEEPING. */
    method MakeReady(t: Tid)
      requires Shape() && 0 < t < threads.Length && threads[t].sleepsOn == 0 && t !in ready
      modifies this`head, this`tail, this`ready, threads
      ensures Shape() && SleepsOf(threads[..]) == old(SleepsOf(threads[..]))
      ensures View() == MadeReady(old(View()), t)
    {
      if threads[t].state == Sleeping {
        SetState(t, Ready);
        assert threads[t].sleepsOn == SleepsOf(threads[..])[t];
        AddToReadyList(t);
      }
    }

    /** Takes the `k`-th row of chain `h` out of the sleep queue. */
    method UnlinkSleeper(h: nat, prev: Tid, t: Tid, ghost k: nat) returns (following: Tid)
      requires Valid() && h < HASH_SIZE && k < |chains[h]|
      requires t == chains[h][k] && prev == Preceding(chains[h], k)
      modifies this`sleepers, this`chains, threads, hashtable
      ensures Shape() && ChainsRefine(SleepsOf(threads[..]), sleepers, chains)
      ensures 0 < t < threads.Length && t in old(sleepers) && t !in ready && threads[t].sleepsOn == 0
      ensures View() == old(View()).(sleepsOn := old(View()).sleepsOn[t := 0], sleepers := Without(old(sleepers), t))
      ensures following == Following(old(chains)[h], k)
      ensures chains == old(chains)[h := old(chains)[h][..k] + old(chains)[h][k + 1..]]
    {
      ghost var m, rows, table := View(), threads[..], hashtable[..];
      ChainRowFacts(m, rows, table, chains, ready, h, k);
      following := Unlink(h, prev, t, k);
      UnlinkKeepsLists(m, rows, table, chains, head, tail, h, k);
      chains := chains[h := chains[h][..k] + chains[h][k + 1..]];
      sleepers := Without(sleepers, t);
    }

    /** Unlinks the `k`-th row of chain `h` and releases its thread. */
    method ReleaseSleeper(h: nat, prev: Tid, t: Tid, ghost k: nat) returns (following: Tid)
      requires Valid() && h < HASH_SIZE && k < |chains[h]|
      requires t == chains[h][k] && prev == Preceding(chains[h], k)
      modifies this`head, this`tail, this`ready, this`sleepers, this`chains, threads, hashtable
      ensures Valid() && t in old(sleepers) && View() == Release(old(View()), t)
      ensures following == Following(old(chains)[h], k)
      ensures chains == old(chains)[h := old(chains)[h][..k] + old(chains)[h][k + 1..]]
    {
      ghost var m := View();
      following := UnlinkSleeper(h, prev, t, k);
      Settle(t, m);
    }

    /** The second half of releasing a sleeper, once its row is off the sleep queue. */
    method Settle(t: Tid, ghost m: State)
      requires Shape() && ChainsRefine(SleepsOf(threads[..]), sleepers, chains) && 0 <= nextTid < threads.Length
      requires Inv(m) && t in m.sleepers
      requires View() == m.(sleepsOn := m.sleepsOn[t := 0], sleepers := Without(m.sleepers, t))
      requires threads[t].sleepsOn == 0 && t !in ready
      modifies this`head, this`tail, this`ready, threads
      ensures Valid() && View() == Release(m, t)
    {
      MakeReady(t);
      ReleaseKeepsInv(m, t);
    }

    /** sleepq_wake: releases the oldest waiter for `r`, if there is one. */
    method SleepqWake(r: nat)
      requires Valid() && r != 0
      modifies this`head, this`tail, this`ready, this`sleepers, this`chains, threads, hashtable
      ensures Valid() && View() == DoWake(old(View()), r)
    {
      ghost var m := View();
      var h := Hash(r);
      FirstOfChain(threads[..], hashtable[..], chains, h);
      ghost var k: nat;
      var prev, first;
      prev, first, k := FindSleeper(r, NONE, hashtable[h], chains[h], 0);
      OldestHere(r, k);
      if first > 0 {
        var _ := ReleaseSleeper(h, prev, first, k);
      }
    }

    /** The walk that stops at position `k` has found the oldest waiter, or that there is none. */
    lemma OldestHere(r: nat, k: nat)
      requires Valid() && r != 0 && k <= |chains[Hash(r)]|
      requires NoneBefore(threads[..], chains[Hash(r)], k, r)
      requires k < |chains[Hash(r)]| ==>
        0 <= chains[Hash(r)][k] < threads.Length && threads[chains[Hash(r)][k]].sleepsOn == r
      ensures k == |chains[Hash(r)]| ==> Waiters(View(), r) == []
      ensures k < |chains[Hash(r)]| ==> Waiters(View(), r) != [] && Waiters(View(), r)[0] == chains[Hash(r)][k]
    {
      assert ChainLinked(threads[..], hashtable[..][Hash(r)], chains[Hash(r)], Hash(r));
      OldestInChain(View(), chains, r, k);
    }

    /** sleepq_wake_all: releases every waiter for `r` in one pass over the chain. */
    method SleepqWakeAll(r: nat)
      requires Valid() && r != 0
      modifies this`head, this`tail, this`ready, this`sleepers, this`chains, threads, hashtable
      ensures Valid() && View() == DoWakeAll(old(View()), r)
    {
      ghost var m := View();
      var h := Hash(r);
      FirstOfChain(threads[..], hashtable[..], chains, h);
      var prev, first := NONE, hashtable[h];
      ghost var k := 0;
      while first > 0
        invariant Valid() && DoWakeAll(View(), r) == DoWakeAll(m, r)
        invariant 0 <= k <= |chains[h]| && prev == Preceding(chains[h], k) && first == At(chains[h], k)
        invariant NoneBefore(threads[..], chains[h], k, r)
        decreases |chains[h]| - k
      {
        ghost var k1: nat;
        FirstOfChain(threads[..], hashtable[..], chains, h);
        prev, first, k1 := FindSleeper(r, prev, first, chains[h], k);
        OldestHere(r, k1);
        if first > 0 {
          first := ReleaseFound(h, r, prev, first, k1);
        }
        k := k1;
      }
      FirstOfChain(threads[..], hashtable[..], chains, h);
      OldestHere(r, k);
    }

    /** ReleaseSleeper on the oldest waiter for `r`, with what the walk over the chain needs next. */
    method ReleaseFound(h: nat, r: nat, prev: Tid, t: Tid, ghost k: nat) returns (following: Tid)
      requires Valid() && r != 0 && h == Hash(r) && k < |chains[h]|
      requires t == chains[h][k] && prev == Preceding(chains[h], k)
      requires NoneBefore(threads[..], chains[h], k, r)
      requires Waiters(View(), r) != [] && Waiters(View(), r)[0] == t
      modifies this`head, this`tail, this`ready, this`sleepers, this`chains, threads, hashtable
      ensures Valid() && View() == DoWake(old(View()), r)
      ensures |chains| == HASH_SIZE && |chains[h]| == |old(chains)[h]| - 1
      ensures prev == Preceding(chains[h], k) && following == At(chains[h], k)
      ensures NoneBefore(threads[..], chains[h], k, r)
    {
      ghost var rows, chain := threads[..], chains[h];
      following := ReleaseSleeper(h, prev, t, k);
      assert chains[h] == chain[..k] + chain[k + 1..];
      assert SleepsOf(threads[..]) == View().sleepsOn == SleepsOf(rows)[t := 0];
      NoneBeforeKept(rows, threads[..], chain, chains[h], k, r, t);
    }
  }

  /** The element at position `k`, or the end mark. */
  ghost function At(s: seq<Tid>, k: nat): Tid {
    if k < |s| then s[k] else NONE
  }

  lemma FirstOfChain(rows: seq<Row>, table: seq<Tid>, chains: seq<seq<Tid>>, h: nat)
    requires ChainsLinked(rows, table, chains) && h < HASH_SIZE
    ensures table[h] == At(chains[h], 0)
    ensures Linked(rows, At(chains[h], 0), chains[h])
    ensures forall i :: 0 <= i < |chains[h]| ==> At(chains[h], i) > 0
  {
    assert ChainLinked(rows, table[h], chains[h], h);
  }

  /** Unlinking one sleeper: the lists, the rows and the line of sleepers stay consistent. */
  lemma UnlinkKeepsLists(m: State, rows: seq<Row>, table: seq<Tid>, chains: seq<seq<Tid>>, head: Tid, tail: Tid,
                         h: nat, k: nat)
    requires Inv(m) && m.states == StatesOf(rows) && m.sleepsOn == SleepsOf(rows)
    requires ReadyLinked(rows, head, tail, m.ready)
    requires ChainsLinked(rows, table, chains) && ChainsRefine(m.sleepsOn, m.sleepers, chains)
    requires h < HASH_SIZE && k < |chains[h]|
    ensures 0 < chains[h][k] < |rows|
    ensures var t, cut := chains[h][k], chains[h := chains[h][..k] + chains[h][k + 1..]];
      var rows' := UnlinkRow(rows, Preceding(chains[h], k), t);
      && StatesOf(rows') == StatesOf(rows) && SleepsOf(rows') == SleepsOf(rows)[t := 0]
      && ReadyLinked(rows', head, tail, m.ready)
      && ChainsLinked(rows', table[h := if k == 0 then Following(chains[h], 0) else table[h]], cut)
      && ChainsRefine(SleepsOf(rows'), Without(m.sleepers, t), cut)
  {
    ChainRowFacts(m, rows, table, chains, m.ready, h, k);
    ChainsRemove(rows, table, chains, h, k);
    UnlinkRowFacts(rows, Preceding(chains[h], k), chains[h][k], head, tail, m.ready);
    CutRefines(m, rows, table, chains, h, k);
  }

  lemma UnlinkRowFacts(rows: seq<Row>, prev: Tid, t: Tid, head: Tid, tail: Tid, ready: seq<Tid>)
    requires ReadyLinked(rows, head, tail, ready)
    requires 0 < t < |rows| && t !in ready && prev !in ready
    ensures var rows' := UnlinkRow(rows, prev, t);
      && StatesOf(rows') == StatesOf(rows) && SleepsOf(rows') == SleepsOf(rows)[t := 0]
      && ReadyLinked(rows', head, tail, ready)
  {
    LinkedFrame(rows, UnlinkRow(rows, prev, t), head, ready);
  }

  lemma CutRefines(m: State, rows: seq<Row>, table: seq<Tid>, chains: seq<seq<Tid>>, h: nat, k: nat)
    requires Inv(m) && m.sleepsOn == SleepsOf(rows)
    requires ChainsLinked(rows, table, chains) && ChainsRefine(m.sleepsOn, m.sleepers, chains)
    requires h < HASH_SIZE && k < |chains[h]|
    requires chains[h][k] in m.sleepers && Hash(m.sleepsOn[chains[h][k]]) == h
    ensures var t := chains[h][k];
      ChainsRefine(m.sleepsOn[t := 0], Without(m.sleepers, t), chains[h := chains[h][..k] + chains[h][k + 1..]])
  {
    RefineRelease(m, chains, chains[h][k]);
    assert ChainLinked(rows, table[h], chains[h], h);
    WithoutAt(chains[h], k);
  }

  /** None of the first `k` rows of the chain sleeps on `r`. */
  ghost predicate NoneBefore(rows: seq<Row>, chain: seq<Tid>, k: nat, r: nat) {
    k <= |chain| && forall i :: 0 <= i < k ==> 0 <= chain[i] < |rows| && rows[chain[i]].sleepsOn != r
  }

  lemma StepPast(rows: seq<Row>, chain: seq<Tid>, k: nat, r: nat)
    requires Linked(rows, At(chain, 0), chain) && NoneBefore(rows, chain, k, r) && k < |chain|
    requires 0 < chain[k] < |rows| && rows[chain[k]].sleepsOn != r
    ensures rows[chain[k]].next == At(chain, k + 1) && NoneBefore(rows, chain, k + 1, r)
    ensures k + 1 < |chain| ==> 0 < chain[k + 1] < |rows|
  {
    assert rows[chain[k]].next == Following(chain, k);
  }

  lemma NoneBeforeKept(rows: seq<Row>, rows': seq<Row>, chain: seq<Tid>, chain': seq<Tid>, k: nat, r: nat, t: Tid)
    requires NoneBefore(rows, chain, k, r) && r != 0 && 0 <= t < |rows|
    requires SleepsOf(rows') == SleepsOf(rows)[t := 0]
    requires k <= |chain'| && chain'[..k] == chain[..k]
    ensures NoneBefore(rows', chain', k, r)
  {
    forall i | 0 <= i < k
      ensures 0 <= chain'[i] < |rows'| && rows'[chain'[i]].sleepsOn != r
    {
      assert chain'[i] == chain'[..k][i] == chain[i];
      assert SleepsOf(rows')[chain[i]] == rows'[chain[i]].sleepsOn;
      assert SleepsOf(rows)[chain[i]] == rows[chain[i]].sleepsOn;
    }
  }

  /** A row on a chain is a sleeper, so it is neither READY nor on the ready list. */
  lemma ChainRowFacts(m: State, rows: seq<Row>, table: seq<Tid>, chains: seq<seq<Tid>>, ready: seq<Tid>, h: nat, k: nat)
    requires Inv(m) && m.states == StatesOf(rows) && m.sleepsOn == SleepsOf(rows) && m.ready == ready
    requires ChainsLinked(rows, table, chains) && ChainsRefine(m.sleepsOn, m.sleepers, chains)
    requires h < HASH_SIZE && k < |chains[h]|
    ensures 0 < chains[h][k] < |rows| && chains[h][k] in m.sleepers && chains[h][k] !in ready
    ensures rows[chains[h][k]].sleepsOn != 0 && Hash(rows[chains[h][k]].sleepsOn) == h
    ensures Preceding(chains[h], k) !in ready && (k > 0 ==> 0 < Preceding(chains[h], k) < |rows|)
  {
    assert ChainLinked(rows, table[h], chains[h], h);
    FilterMembers(m.sleepers, Hashed(m.sleepsOn, h));
    assert chains[h][k] in chains[h];
    assert k > 0 ==> chains[h][k - 1] in chains[h];
  }

  ghost predicate FreeSlot(rows: seq<Row>, t: Tid) {
    0 < t < |rows| && rows[t].state == Free
  }

  /** `t` is FREE and the `k`-th row probed from `start`, and no row probed earlier is FREE. */
  ghost predicate FirstFree(rows: seq<Row>, start: Tid, k: nat, t: Tid) {
    && 0 <= start < |rows| && k < |rows|
    && Probe(start, k, |rows|) == t && FreeSlot(rows, t)
    && forall j :: 0 <= j < k ==> !FreeSlot(rows, Probe(start, j, |rows|))
  }

  /** The row probed at the `i`-th turn of a cyclic search from `start`. */
  function Probe(start: nat, i: nat, n: nat): (t: nat)
    requires 0 < n
    ensures t < n
    ensures start < n && i <= n ==> t == if i + start < n then i + start else i + start - n
  {
    (i + start) % n
  }

  /** A cyclic search of length `n` meets every row. */
  lemma ProbeCovers(start: nat, t: nat, n: nat)
    requires t < n && start < n
    ensures exists j :: 0 <= j < n && Probe(start, j, n) == t
  {
    var j := if start <= t then t - start else t + n - start;
    assert Probe(start, j, n) == t;
  }
}
