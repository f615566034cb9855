/** Right shifts of natural numbers, one bit at a time, and their reading as quotients. */
module Shifts {

  /** `q >> d`: the number that the bits of `q` above the lowest `d` spell. */
  function ShiftRight(q: nat, d: nat): nat {
    if d == 0 then q else ShiftRight(q, d - 1) / 2
  }

  function Pow2(d: nat): (p: nat)
    ensures p > 0
  {
    if d == 0 then 1 else 2 * Pow2(d - 1)
  }

  lemma {:induction false} ShiftRightHalf(q: nat, d: nat)
    ensures ShiftRight(q / 2, d) == ShiftRight(q, d + 1)
  {
    if d > 0 {
      ShiftRightHalf(q, d - 1);
    }
  }

  lemma HalfQuotient(x: nat, p: nat)
    requires p > 0
    ensures x / (2 * p) == (x / p) / 2
  {
    var q, r := x / p, x % p;
    assert x == p * q + r;
    var h, b := q / 2, q % 2;
    assert q == 2 * h + b;
    assert x == (2 * p) * h + (p * b + r) by {
      assert p * q == p * (2 * h + b) == (2 * p) * h + p * b;
    }
    assert 0 <= p * b + r < 2 * p;
    QuotientUnique(x, 2 * p, h, p * b + r);
  }

  lemma QuotientUnique(x: int, n: int, q: int, r: int)
    requires 0 <= r < n && x == n * q + r
    ensures x / n == q
  {
    var q', r' := x / n, x % n;
    assert x == n * q' + r';
    if q' > q {
      QuotientLess(n, q, r, q', r');
    } else if q' < q {
      QuotientLess(n, q', r', q, r);
    }
  }

  lemma QuotientLess(n: int, q: int, r: int, q': int, r': int)
    requires 0 <= r < n && 0 <= r' && q < q'
    ensures n * q + r < n * q' + r'
  {
    var gap := q' - q - 1;
    assert n * q' == n * q + n + n * gap by {
      assert q' == q + 1 + gap;
    }
    assert n * gap >= 0;
  }

  /** Shifting right by `d` bits is dividing by the power of two. */
  lemma {:induction false} ShiftRightIsQuotient(q: nat, d: nat)
    ensures ShiftRight(q, d) == q / Pow2(d)
  {
    if d > 0 {
      ShiftRightIsQuotient(q, d - 1);
      HalfQuotient(q, Pow2(d - 1));
    }
  }
}
