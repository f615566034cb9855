/**
 Facts about duplicate-free sequences and about keeping only some elements of a sequence.
 The kernel's queues (ready list, hash chains, waiters of one resource) are all stated with these.
 */
module Sequences {

  ghost predicate Distinct<T>(s: seq<T>) {
    forall i, j :: 0 <= i < j < |s| ==> s[i] != s[j]
  }

  ghost function Elements<T>(s: seq<T>): set<T> {
    set x | x in s
  }

  /** The elements of `s` that lie in `keep`, in their order in `s`. */
  ghost function Filter<T>(s: seq<T>, keep: set<T>): seq<T> {
    if s == [] then []
    else
      var rest := Filter(s[..|s| - 1], keep);
      if s[|s| - 1] in keep then rest + [s[|s| - 1]] else rest
  }

  ghost function Without<T>(s: seq<T>, x: T): seq<T> {
    Filter(s, Elements(s) - {x})
  }

  lemma {:induction false} FilterMembers<T>(s: seq<T>, keep: set<T>)
    ensures forall x :: x in Filter(s, keep) <==> x in s && x in keep
    ensures |Filter(s, keep)| <= |s|
    ensures Distinct(s) ==> Distinct(Filter(s, keep))
  {
    if s != [] {
      var front, last := s[..|s| - 1], s[|s| - 1];
      FilterMembers(front, keep);
      assert s == front + [last];
      if Distinct(s) {
        assert last !in front;
        DistinctAppend(Filter(front, keep), last);
      }
    }
  }

  lemma DistinctAppend<T>(s: seq<T>, x: T)
    requires Distinct(s) && x !in s
    ensures Distinct(s + [x])
  {
  }

  lemma {:induction false} FilterConcat<T>(a: seq<T>, b: seq<T>, keep: set<T>)
    ensures Filter(a + b, keep) == Filter(a, keep) + Filter(b, keep)
  {
    if b == [] {
      assert a + b == a;
    } else {
      assert (a + b)[..|a + b| - 1] == a + b[..|b| - 1];
      FilterConcat(a, b[..|b| - 1], keep);
    }
  }

  lemma {:induction false} FilterAgree<T>(s: seq<T>, keep: set<T>, keep': set<T>)
    requires forall x :: x in s ==> (x in keep <==> x in keep')
    ensures Filter(s, keep) == Filter(s, keep')
  {
    if s != [] {
      assert forall x :: x in s[..|s| - 1] ==> x in s;
      FilterAgree(s[..|s| - 1], keep, keep');
    }
  }

  lemma {:induction false} FilterAll<T>(s: seq<T>, keep: set<T>)
    requires forall x :: x in s ==> x in keep
    ensures Filter(s, keep) == s
  {
    if s != [] {
      assert forall x :: x in s[..|s| - 1] ==> x in s;
      FilterAll(s[..|s| - 1], keep);
    }
  }

  lemma {:induction false} FilterTwice<T>(s: seq<T>, a: set<T>, b: set<T>)
    ensures Filter(Filter(s, a), b) == Filter(s, a * b)
  {
    if s != [] {
      FilterTwice(s[..|s| - 1], a, b);
      FilterConcat(Filter(s[..|s| - 1], a), [s[|s| - 1]], b);
    }
  }

  /** Keeping commutes with dropping one element. */
  lemma FilterWithout<T>(s: seq<T>, keep: set<T>, x: T)
    ensures Filter(Without(s, x), keep) == Without(Filter(s, keep), x)
    ensures Filter(Without(s, x), keep) == Filter(s, keep - {x})
  {
    var others := Elements(s) - {x};
    FilterTwice(s, others, keep);
    FilterAgree(s, others * keep, keep - {x});
    var kept := Elements(Filter(s, keep)) - {x};
    FilterTwice(s, keep, kept);
    FilterMembers(s, keep);
    FilterAgree(s, keep * kept, keep - {x});
  }

  /** In a duplicate-free sequence, dropping the element at `k` cuts the sequence there. */
  lemma WithoutAt<T>(s: seq<T>, k: nat)
    requires Distinct(s) && k < |s|
    ensures Without(s, s[k]) == s[..k] + s[k + 1..]
  {
    var keep := Elements(s) - {s[k]};
    assert s == s[..k] + [s[k]] + s[k + 1..];
    FilterConcat(s[..k] + [s[k]], s[k + 1..], keep);
    FilterConcat(s[..k], [s[k]], keep);
    FilterAll(s[..k], keep);
    FilterAll(s[k + 1..], keep);
  }

  lemma WithoutMembers<T>(s: seq<T>, x: T)
    ensures forall y :: y in Without(s, x) <==> y in s && y != x
    ensures Distinct(s) ==> Distinct(Without(s, x))
  {
    FilterMembers(s, Elements(s) - {x});
  }

  lemma {:induction false} FilterNone<T>(s: seq<T>, keep: set<T>)
    requires forall x :: x in s ==> x !in keep
    ensures Filter(s, keep) == []
  {
    if s != [] {
      assert forall x :: x in s[..|s| - 1] ==> x in s;
      FilterNone(s[..|s| - 1], keep);
    }
  }

  /** The first kept element heads the filtered sequence. */
  lemma FilterFirst<T>(s: seq<T>, keep: set<T>, k: nat)
    requires k < |s| && s[k] in keep
    requires forall i :: 0 <= i < k ==> s[i] !in keep
    ensures Filter(s, keep) == [s[k]] + Filter(s[k + 1..], keep)
  {
    assert s == s[..k] + [s[k]] + s[k + 1..];
    FilterConcat(s[..k] + [s[k]], s[k + 1..], keep);
    FilterConcat(s[..k], [s[k]], keep);
    FilterNone(s[..k], keep);
  }

  lemma TailMembers<T>(s: seq<T>)
    requires s != [] && Distinct(s)
    ensures Distinct(s[1..])
    ensures forall x :: x in s[1..] <==> x in s && x != s[0]
  {
    assert s == [s[0]] + s[1..];
  }

  lemma DistinctConcat<T>(a: seq<T>, b: seq<T>)
    ensures Distinct(a + b) <==> Distinct(a) && Distinct(b) && forall x :: x in a ==> x !in b
  {
    var ab := a + b;
    assert forall i :: 0 <= i < |a| ==> ab[i] == a[i];
    assert forall j :: 0 <= j < |b| ==> b[j] == ab[|a| + j];
    if Distinct(ab) {
      forall i, j | 0 <= i < |a| && 0 <= j < |b|
        ensures a[i] != b[j]
      {
        assert ab[i] != ab[|a| + j];
      }
    } else {
      var i, j :| 0 <= i < j < |ab| && ab[i] == ab[j];
      if j < |a| {
        assert a[i] == a[j];
      } else if i < |a| {
        assert a[i] == b[j - |a|] && a[i] in a && b[j - |a|] in b;
      } else {
        assert b[i - |a|] == b[j - |a|];
      }
    }
  }

  /** A duplicate-free sequence has as many elements as places. */
  lemma {:induction false} DistinctSize<T>(s: seq<T>)
    requires Distinct(s)
    ensures |Elements(s)| == |s|
  {
    if s != [] {
      TailMembers(s);
      DistinctSize(s[1..]);
      assert Elements(s) == Elements(s[1..]) + {s[0]};
    }
  }
}
