/** Python's round(x, k) applied to an exact fraction: the result scaled by 10^k is the integer
    nearest to n / d. Python 2 breaks ties away from zero, Python 3 towards the even neighbour;
    for an odd divisor there are no ties and every rule gives the same integer. */
module Rounding {

  /** r * d lies within d / 2 of n, so r is an integer nearest to n / d. */
  predicate Nearest(n: int, d: int, r: int) {
    -d <= 2 * (r * d - n) <= d
  }

  /** r * d lies strictly within d / 2 of n, so r is the only integer nearest to n / d. */
  predicate StrictlyNearest(n: int, d: int, r: int) {
    -d < 2 * (r * d - n) < d
  }

  /** floor(n / d + 1/2): a tie goes up. */
  function RoundHalfUp(n: int, d: int): (r: int)
    requires d > 0
    ensures Nearest(n, d, r)
    ensures 2 * (r * d - n) != -d
  {
    var q := (2 * n + d) / (2 * d);
    var m := (2 * n + d) % (2 * d);
    assert 2 * n + d == 2 * (q * d) + m;
    q
  }

  /** Python 2.7's round(): a tie goes away from zero. */
  function RoundHalfAway(n: int, d: int): (r: int)
    requires d > 0
    ensures Nearest(n, d, r)
    ensures 2 * (r * d - n) == d ==> n > 0
    ensures 2 * (r * d - n) == -d ==> n < 0
  {
    if n >= 0 then RoundHalfUp(n, d)
    else
      var u := RoundHalfUp(-n, d);
      var e := u * d + n;
      assert -d <= 2 * e <= d && 2 * e != -d;
      assert (-u) * d - n == -e;
      -u
  }

  /** Python 3's round(): a tie goes to the even neighbour. */
  function RoundHalfEven(n: int, d: int): (r: int)
    requires d > 0
    ensures Nearest(n, d, r)
    ensures !StrictlyNearest(n, d, r) ==> r % 2 == 0
  {
    var q := n / d;
    var m := n % d;
    assert n == q * d + m;
    assert (q + 1) * d == q * d + d;
    if 2 * m < d then q
    else if 2 * m > d then q + 1
    else if q % 2 == 0 then q
    else q + 1
  }

  lemma MulAtLeastOne(k: int, d: int)
    requires k >= 1 && d > 0
    ensures k * d >= d
  {
    assert k * d == (k - 1) * d + d;
  }

  /** A strictly nearest integer is the only nearest one. */
  lemma NearestIsUnique(n: int, d: int, r1: int, r2: int)
    requires d > 0 && Nearest(n, d, r1) && StrictlyNearest(n, d, r2)
    ensures r1 == r2
  {
    var k := r1 - r2;
    assert k * d == r1 * d - r2 * d;
    if k >= 1 {
      MulAtLeastOne(k, d);
    } else if k <= -1 {
      MulAtLeastOne(-k, d);
    }
  }

  /** With an odd divisor n / d is never exactly half-way between two integers. */
  lemma OddDivisorHasNoTie(n: int, d: int, r: int)
    requires d > 0 && d % 2 == 1 && Nearest(n, d, r)
    ensures StrictlyNearest(n, d, r)
  {
  }

  /** For an odd divisor Python 2's and Python 3's round() and rounding half up coincide. */
  lemma {:induction false} RoundingsAgreeOnOddDivisor(n: int, d: int)
    requires d > 0 && d % 2 == 1
    ensures RoundHalfAway(n, d) == RoundHalfEven(n, d) == RoundHalfUp(n, d)
  {
    var a := RoundHalfAway(n, d);
    OddDivisorHasNoTie(n, d, a);
    NearestIsUnique(n, d, RoundHalfEven(n, d), a);
    NearestIsUnique(n, d, RoundHalfUp(n, d), a);
  }

  /** round(-x) == -round(x). */
  lemma RoundHalfAwayIsOdd(n: int, d: int)
    requires d > 0
    ensures RoundHalfAway(-n, d) == -RoundHalfAway(n, d)
  {
  }
}
