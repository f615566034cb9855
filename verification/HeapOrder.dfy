/**
 The values of the pointer heap in level order. Slot 1 is the root and the children of slot k
 are 2k and 2k+1; element k-1 of a sequence is the value in slot k. The top-down insertion is
 compared here with the plain array algorithm: append, then sift up.
 */
module HeapOrder {
  import opened Shifts

  type Less = (int, int) -> bool

  ghost predicate StrictWeak(less: Less) {
    && (forall x :: !less(x, x))
    && (forall x, y, z :: less(x, y) && less(y, z) ==> less(x, z))
    && (forall x, y, z :: less(x, z) ==> less(x, y) || less(y, z))
  }

  lemma NotLessTransitive(less: Less, x: int, y: int, z: int)
    requires StrictWeak(less) && !less(x, y) && !less(y, z)
    ensures !less(x, z)
  {
  }

  lemma LessAsymmetric(less: Less, x: int, y: int)
    requires StrictWeak(less) && less(x, y)
    ensures !less(y, x)
  {
    assert !less(x, x);
  }

  /** What slot `k` holds. */
  ghost function Slot<T>(a: seq<T>, k: nat): T
    requires 1 <= k <= |a|
  {
    a[k - 1]
  }

  ghost function Put<T>(a: seq<T>, k: nat, x: T): seq<T>
    requires 1 <= k <= |a|
  {
    a[k - 1 := x]
  }

  /** No parent is less than its child. */
  ghost predicate Ordered(less: Less, a: seq<int>) {
    forall k :: 2 <= k <= |a| ==> !less(Slot(a, k / 2), Slot(a, k))
  }

  // ---------- The path to a slot ----------

  /** The largest number of levels one can go up from `q` without leaving the tree. */
  function Depth(q: nat): nat
    requires q > 0
  {
    if q == 1 then 0 else 1 + Depth(q / 2)
  }

  /** Every slot lies below the root, exactly `Depth` levels. */
  lemma {:induction false} AboveDepth(q: nat)
    requires q > 0
    ensures ShiftRight(q, Depth(q)) == 1
  {
    if q > 1 {
      AboveDepth(q / 2);
      ShiftRightHalf(q, Depth(q / 2));
    }
  }

  lemma {:induction false} AboveBounds(q: nat, d: nat)
    requires q > 0 && d <= Depth(q)
    ensures 1 <= ShiftRight(q, d) <= q
    ensures d > 0 ==> ShiftRight(q, d) < q
    decreases Depth(q) - d
  {
    if d == Depth(q) {
      AboveDepth(q);
      AboveLess(q, d);
    } else {
      AboveBounds(q, d + 1);
      AboveLess(q, d);
    }
  }

  lemma {:induction false} AboveLess(q: nat, d: nat)
    ensures ShiftRight(q, d) <= q
    ensures d > 0 && q > 0 ==> ShiftRight(q, d) < q
  {
    if d > 0 {
      AboveLess(q, d - 1);
    }
  }

  /** The slots on a path are pairwise different. */
  lemma {:induction false} AboveInjective(q: nat, i: nat, j: nat)
    requires q > 0 && i < j <= Depth(q)
    ensures ShiftRight(q, j) < ShiftRight(q, i)
  {
    AboveBounds(q, i);
    if i + 1 < j {
      AboveInjective(q, i, j - 1);
    }
  }

  /** None of the slots at most `d` levels above `q` is `k`. */
  ghost predicate OffPath(q: nat, d: nat, k: nat) {
    forall j :: 0 <= j <= d ==> ShiftRight(q, j) != k
  }

  lemma OffLowerPath(q: nat, d: nat)
    requires q > 0 && 0 < d <= Depth(q)
    ensures OffPath(q, d - 1, ShiftRight(q, d))
  {
    forall j | 0 <= j <= d - 1
      ensures ShiftRight(q, j) != ShiftRight(q, d)
    {
      AboveInjective(q, j, d);
    }
  }

  // ---------- Insertion ----------

  /**
   Puts `x` into the slot `d` levels above the new last slot and moves every element from
   there down one step along the path.
   */
  ghost function Shift<T>(s: seq<T>, x: T, d: nat): (r: seq<T>)
    requires d <= Depth(|s| + 1)
    ensures |r| == |s| + 1
    decreases d
  {
    if d == 0 then s + [x] else
      AboveBounds(|s| + 1, d);
      var e := ShiftRight(|s| + 1, d);
      Shift(Put(s, e, x), Slot(s, e), d - 1)
  }

  /** The level at which the top-down walk from level `d` stops. */
  ghost function StopLevel(less: Less, a: seq<int>, x: int, d: nat): (r: nat)
    requires d <= Depth(|a| + 1)
    ensures r <= d
  {
    if d == 0 then 0 else
      AboveBounds(|a| + 1, d);
      if less(x, Slot(a, ShiftRight(|a| + 1, d))) then StopLevel(less, a, x, d - 1) else d
  }

  /** heap_insert on values: walk down while the new value is less, then shift the rest down. */
  ghost function TopDown(less: Less, a: seq<int>, x: int): (r: seq<int>)
    ensures |r| == |a| + 1
  {
    Shift(a, x, StopLevel(less, a, x, Depth(|a| + 1)))
  }

  ghost function Swapped(a: seq<int>, i: nat, j: nat): (b: seq<int>)
    requires 1 <= i <= |a| && 1 <= j <= |a|
    ensures |b| == |a| && Slot(b, i) == Slot(a, j) && Slot(b, j) == Slot(a, i)
    ensures forall k :: 1 <= k <= |a| && k != i && k != j ==> Slot(b, k) == Slot(a, k)
  {
    Put(Put(a, i, Slot(a, j)), j, Slot(a, i))
  }

  /** The array algorithm: exchange with the parent while the value is not less than it. */
  ghost function SiftUp(less: Less, a: seq<int>, k: nat): (r: seq<int>)
    requires 1 <= k <= |a|
    ensures |r| == |a|
    decreases k
  {
    if k == 1 || less(Slot(a, k), Slot(a, k / 2)) then a else SiftUp(less, Swapped(a, k, k / 2), k / 2)
  }

  ghost function ArrayInsert(less: Less, a: seq<int>, x: int): seq<int> {
    SiftUp(less, a + [x], |a| + 1)
  }

  // ---------- How Shift moves the elements ----------

  /** A slot that is not on the lower part of the path keeps its element. */
  lemma {:induction false} ShiftUpdate<T>(s: seq<T>, y: T, x: T, d: nat, k: nat)
    requires d <= Depth(|s| + 1) && 1 <= k <= |s| && OffPath(|s| + 1, d, k)
    ensures Shift(Put(s, k, y), x, d) == Put(Shift(s, x, d), k, y)
    ensures Slot(Shift(s, x, d), k) == Slot(s, k)
    decreases d
  {
    if d > 0 {
      var q := |s| + 1;
      AboveBounds(q, d);
      var e := ShiftRight(q, d);
      assert e != k && OffPath(q, d - 1, k);
      ShiftUpdate(Put(s, e, x), y, Slot(s, e), d - 1, k);
      assert Put(Put(s, k, y), e, x) == Put(Put(s, e, x), k, y);
    }
  }

  /** The shifted-in element ends up in its slot, and only that slot depends on it. */
  lemma {:induction false} ShiftReplace<T>(s: seq<T>, x: T, y: T, d: nat)
    requires d <= Depth(|s| + 1)
    ensures 1 <= ShiftRight(|s| + 1, d) <= |s| + 1
    ensures Slot(Shift(s, x, d), ShiftRight(|s| + 1, d)) == x
    ensures Shift(s, y, d) == Put(Shift(s, x, d), ShiftRight(|s| + 1, d), y)
  {
    AboveBounds(|s| + 1, d);
    if d > 0 {
      var e := ShiftRight(|s| + 1, d);
      OffLowerPath(|s| + 1, d);
      ShiftUpdate(s, x, Slot(s, e), d - 1, e);
      ShiftUpdate(s, y, Slot(s, e), d - 1, e);
    }
  }

  /** Shifting from one level higher exchanges the element with its parent. */
  lemma ShiftHigher(a: seq<int>, x: int, d: nat)
    requires d < Depth(|a| + 1)
    ensures 1 <= ShiftRight(|a| + 1, d) <= |a| + 1 && 1 <= ShiftRight(|a| + 1, d + 1) <= |a|
    ensures Slot(Shift(a, x, d), ShiftRight(|a| + 1, d + 1)) == Slot(a, ShiftRight(|a| + 1, d + 1))
    ensures Shift(a, x, d + 1) == Swapped(Shift(a, x, d), ShiftRight(|a| + 1, d), ShiftRight(|a| + 1, d + 1))
  {
    AboveBounds(|a| + 1, d);
    AboveBounds(|a| + 1, d + 1);
    var e := ShiftRight(|a| + 1, d + 1);
    OffLowerPath(|a| + 1, d + 1);
    ShiftUpdate(a, x, Slot(a, e), d, e);
    ShiftUpdate(a, x, x, d, e);
    ShiftReplace(a, x, Slot(a, e), d);
  }

  lemma {:induction false} ShiftMultiset<T>(s: seq<T>, x: T, d: nat)
    requires d <= Depth(|s| + 1)
    ensures multiset(Shift(s, x, d)) == multiset(s) + multiset{x}
    decreases d
  {
    if d > 0 {
      AboveBounds(|s| + 1, d);
      var e := ShiftRight(|s| + 1, d);
      ShiftMultiset(Put(s, e, x), Slot(s, e), d - 1);
      assert multiset(Put(s, e, x)) + multiset{Slot(s, e)} == multiset(s) + multiset{x};
    }
  }

  // ---------- Top-down insertion equals the array algorithm ----------

  /** The new value is less than what is `j` levels above the new last slot. */
  ghost predicate LessAt(less: Less, a: seq<int>, x: int, j: nat)
    requires 0 < j <= Depth(|a| + 1)
  {
    AboveBounds(|a| + 1, j);
    less(x, Slot(a, ShiftRight(|a| + 1, j)))
  }

  /** Up the path the values never get less. */
  lemma PathOrdered(less: Less, a: seq<int>, x: int, d: nat)
    requires StrictWeak(less) && Ordered(less, a) && 0 < d < Depth(|a| + 1)
    ensures LessAt(less, a, x, d) ==> LessAt(less, a, x, d + 1)
  {
    var q := |a| + 1;
    AboveBounds(q, d);
    AboveBounds(q, d + 1);
    var child, parent := Slot(a, ShiftRight(q, d)), Slot(a, ShiftRight(q, d + 1));
    assert ShiftRight(q, d + 1) == ShiftRight(q, d) / 2;
    if !less(x, parent) {
      NotLessTransitive(less, x, parent, child);
    }
  }

  /** The walk passed the level above its stop and could not pass the stop itself. */
  lemma {:induction false} StopLevelFacts(less: Less, a: seq<int>, x: int, d: nat)
    requires d <= Depth(|a| + 1)
    ensures var stop := StopLevel(less, a, x, d);
      && (stop < d ==> LessAt(less, a, x, stop + 1))
      && (stop > 0 ==> !LessAt(less, a, x, stop))
  {
    if d > 0 && LessAt(less, a, x, d) {
      StopLevelFacts(less, a, x, d - 1);
    }
  }

  /** Below the stop the new value is not less either. */
  lemma {:induction false} StopLevelMonotone(less: Less, a: seq<int>, x: int, d: nat, stop: nat)
    requires StrictWeak(less) && Ordered(less, a)
    requires 0 < d <= stop <= Depth(|a| + 1) && !LessAt(less, a, x, stop)
    ensures !LessAt(less, a, x, d)
    decreases stop - d
  {
    if d < stop {
      StopLevelMonotone(less, a, x, d + 1, stop);
      PathOrdered(less, a, x, d);
    }
  }

  /** One step of sifting up along the path. */
  lemma SiftStep(less: Less, a: seq<int>, x: int, d: nat)
    requires d <= Depth(|a| + 1)
    ensures 1 <= ShiftRight(|a| + 1, d) <= |a| + 1
    ensures var s := SiftUp(less, Shift(a, x, d), ShiftRight(|a| + 1, d));
      if d == Depth(|a| + 1) || LessAt(less, a, x, d + 1) then s == Shift(a, x, d)
      else 1 <= ShiftRight(|a| + 1, d + 1) <= |a| + 1 &&
           s == SiftUp(less, Shift(a, x, d + 1), ShiftRight(|a| + 1, d + 1))
  {
    AboveBounds(|a| + 1, d);
    ShiftReplace(a, x, x, d);
    if d == Depth(|a| + 1) {
      AboveDepth(|a| + 1);
    } else {
      ShiftHigher(a, x, d);
    }
  }

  /** Sifting up from the bottom reaches the level where the top-down walk stops. */
  lemma {:induction false} SiftMeetsWalk(less: Less, a: seq<int>, x: int, d: nat, stop: nat)
    requires StrictWeak(less) && Ordered(less, a)
    requires d <= stop == StopLevel(less, a, x, Depth(|a| + 1))
    ensures 1 <= ShiftRight(|a| + 1, d) <= |a| + 1
    ensures SiftUp(less, Shift(a, x, d), ShiftRight(|a| + 1, d)) == Shift(a, x, stop)
    decreases stop - d
  {
    StopLevelFacts(less, a, x, Depth(|a| + 1));
    SiftStep(less, a, x, d);
    if d < stop {
      StopLevelMonotone(less, a, x, d + 1, stop);
      SiftMeetsWalk(less, a, x, d + 1, stop);
    }
  }

  /** The pointer heap's insertion yields the level order of the array algorithm. */
  lemma TopDownIsArrayInsert(less: Less, a: seq<int>, x: int)
    requires StrictWeak(less) && Ordered(less, a)
    ensures TopDown(less, a, x) == ArrayInsert(less, a, x)
  {
    SiftMeetsWalk(less, a, x, 0, StopLevel(less, a, x, Depth(|a| + 1)));
  }

  // ---------- Insertion keeps heap order ----------

  /** Ordered except that slot `k` may be too large for its parent. */
  ghost predicate OrderedBut(less: Less, a: seq<int>, k: nat) {
    && (forall j :: 2 <= j <= |a| && j != k ==> !less(Slot(a, j / 2), Slot(a, j)))
    && (forall j :: 2 <= j <= |a| && j / 2 == k && 2 <= k ==> !less(Slot(a, k / 2), Slot(a, j)))
  }

  lemma SwapKeepsOrder(less: Less, a: seq<int>, k: nat)
    requires StrictWeak(less) && 2 <= k <= |a| && OrderedBut(less, a, k)
    requires !less(Slot(a, k), Slot(a, k / 2))
    ensures OrderedBut(less, Swapped(a, k, k / 2), k / 2)
  {
    var p := k / 2;
    var b := Swapped(a, k, p);
    forall j | 2 <= j <= |b| && j != p
      ensures !less(Slot(b, j / 2), Slot(b, j))
    {
      assert !less(Slot(a, j / 2), Slot(a, j)) || j == k;
      if j / 2 == p && j != k {
        NotLessTransitive(less, Slot(a, k), Slot(a, p), Slot(a, j));
      }
    }
    forall j | 2 <= j <= |b| && j / 2 == p && 2 <= p
      ensures !less(Slot(b, p / 2), Slot(b, j))
    {
      var g := Slot(a, p / 2);
      assert !less(g, Slot(a, p));
      if j != k {
        assert !less(Slot(a, p), Slot(a, j));
        NotLessTransitive(less, g, Slot(a, p), Slot(a, j));
      }
    }
  }

  lemma {:induction false} SiftUpOrders(less: Less, a: seq<int>, k: nat)
    requires StrictWeak(less) && 1 <= k <= |a| && OrderedBut(less, a, k)
    ensures Ordered(less, SiftUp(less, a, k))
    decreases k
  {
    if k > 1 {
      if less(Slot(a, k), Slot(a, k / 2)) {
        LessAsymmetric(less, Slot(a, k), Slot(a, k / 2));
      } else {
        SwapKeepsOrder(less, a, k);
        SiftUpOrders(less, Swapped(a, k, k / 2), k / 2);
      }
    }
  }

  lemma InsertKeepsOrder(less: Less, a: seq<int>, x: int)
    requires StrictWeak(less) && Ordered(less, a)
    ensures Ordered(less, TopDown(less, a, x))
  {
    TopDownIsArrayInsert(less, a, x);
    assert forall j :: 1 <= j <= |a| ==> Slot(a + [x], j) == Slot(a, j);
    SiftUpOrders(less, a + [x], |a| + 1);
  }

  /** The level order after inserting all of `xs`, first to last, into an empty heap. */
  ghost function InsertAll(less: Less, xs: seq<int>): seq<int> {
    if xs == [] then [] else TopDown(less, InsertAll(less, xs[..|xs| - 1]), xs[|xs| - 1])
  }

  /** Any sequence of insertions yields an ordered heap of exactly the inserted values. */
  lemma {:induction false} EveryInsertSequence(less: Less, xs: seq<int>)
    requires StrictWeak(less)
    ensures Ordered(less, InsertAll(less, xs))
    ensures |InsertAll(less, xs)| == |xs|
    ensures multiset(InsertAll(less, xs)) == multiset(xs)
  {
    if xs != [] {
      var init, x := xs[..|xs| - 1], xs[|xs| - 1];
      EveryInsertSequence(less, init);
      var a := InsertAll(less, init);
      InsertKeepsOrder(less, a, x);
      ShiftMultiset(a, x, StopLevel(less, a, x, Depth(|a| + 1)));
      assert xs == init + [x];
    }
  }

  /** The root holds a value that no other value exceeds. */
  lemma {:induction false} RootIsMaximal(less: Less, a: seq<int>, k: nat)
    requires StrictWeak(less) && Ordered(less, a) && 1 <= k <= |a|
    ensures !less(Slot(a, 1), Slot(a, k))
    decreases k
  {
    if k > 1 {
      RootIsMaximal(less, a, k / 2);
      NotLessTransitive(less, Slot(a, 1), Slot(a, k / 2), Slot(a, k));
    } else {
      var root := Slot(a, 1);
      assert !less(root, root);
    }
  }
}
