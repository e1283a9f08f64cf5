/**
  * Remainders of natural numbers. The solver knows little about `%` with a variable divisor; these lemmas say what the
  * proofs about pages need: a number below the divisor is its own remainder, taking the divisor away
  * does not change the remainder, and a quotient with a small enough rest determines it.
  */
module Division {
  lemma SmallMod(x: nat, d: nat)
    requires x < d
    ensures x % d == x
  {
  }

  lemma {:induction false} MulAtLeast(a: int, d: int)
    requires a >= 1 && d >= 1
    ensures a * d >= d
  {
    if a == 1 {
    } else {
      MulAtLeast(a - 1, d);
      assert a * d == (a - 1) * d + d;
    }
  }

  lemma RemainderUnique(x: nat, d: nat, q: int, r: nat)
    requires r < d && x == q * d + r
    ensures x % d == r
  {
    var q', r' := x / d, x % d;
    assert x == q' * d + r';
    var k := q - q';
    assert k * d == r' - r by {
      assert k * d == q * d - q' * d;
    }
    assert (-k) * d == -(k * d);
    if k >= 1 {
      MulAtLeast(k, d);
    } else if k <= -1 {
      MulAtLeast(-k, d);
    }
  }

  lemma ModMinus(x: nat, d: nat)
    requires 1 <= d <= x
    ensures x % d == (x - d) % d
  {
    var q, r := x / d, x % d;
    assert x == q * d + r;
    assert (q - 1) * d == q * d - d;
    RemainderUnique(x - d, d, q - 1, r);
  }

  lemma AtMostWhole(x: nat, d: nat)
    requires d >= 1
    ensures x % d <= x
  {
    if x < d {
      SmallMod(x, d);
    }
  }
}
