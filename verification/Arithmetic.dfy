/** Division by a divisor that is not a constant. */
module Arithmetic {
  lemma DivisionIsUnique(x: nat, q: nat, d: nat, r: nat)
    requires r < d && x == q * d + r
    ensures x / d == q && x % d == r
  {
    SameDivision(x / d, x % d, q, r, d);
  }

  lemma {:induction false} SameDivision(p: nat, s: nat, q: nat, r: nat, d: nat)
    requires r < d && s < d && p * d + s == q * d + r
    ensures p == q && s == r
  {
    MultipleAtLeast(p, d);
    MultipleAtLeast(q, d);
    if p > 0 && q > 0 {
      SameDivision(p - 1, s, q - 1, r, d);
    }
  }

  lemma MultipleAtLeast(n: nat, d: nat)
    ensures n > 0 ==> n * d >= d
  {
    if n > 0 {
      assert n * d == (n - 1) * d + d;
    }
  }

  lemma StepBack(x: nat, d: nat)
    requires 0 < d <= x
    ensures x / d == (x - d) / d + 1 && x % d == (x - d) % d
  {
    var q, r := (x - d) / d, (x - d) % d;
    assert x == (q + 1) * d + r;
    DivisionIsUnique(x, q + 1, d, r);
  }

  lemma HalfQuotient(x: nat, d: nat)
    requires d > 0
    ensures x / d / 2 == x / (2 * d)
  {
    var q, r := x / d, x % d;
    var h, b := q / 2, q % 2;
    assert x == q * d + r;
    assert q * d == h * (2 * d) + b * d;
    assert b * d + r < 2 * d by {
      assert b == 0 || b == 1;
    }
    DivisionIsUnique(x, h, 2 * d, b * d + r);
  }

  /** x modulo w, said without division. */
  function Wrap(x: nat, w: nat): (r: nat)
    requires w > 0
    ensures r < w
    decreases x, w
  {
    if x < w then x else Wrap(x - w, w)
  }

  lemma {:induction false} WrapIsModulo(x: nat, w: nat)
    requires w > 0
    ensures Wrap(x, w) == x % w
    decreases x
  {
    if x < w {
      DivisionIsUnique(x, 0, w, x);
    } else {
      WrapIsModulo(x - w, w);
      StepBack(x, w);
    }
  }

  lemma {:induction false} WrapOn(x: nat, w: nat, i: nat)
    requires w > 0 && Wrap(x, w) == 0 && i <= w
    ensures Wrap(x + i, w) == if i == w then 0 else i
    decreases x
  {
    if x >= w {
      WrapOn(x - w, w, i);
      assert x + i - w == x - w + i;
    } else {
      assert Wrap(0, w) == 0;
    }
  }

  lemma {:induction false} WrapNext(x: nat, w: nat)
    requires w > 0
    ensures Wrap(x + 1, w) == if Wrap(x, w) + 1 == w then 0 else Wrap(x, w) + 1
    decreases x
  {
    if x >= w {
      WrapNext(x - w, w);
      assert x + 1 - w == x - w + 1;
    } else {
      assert Wrap(0, w) == 0;
    }
  }

  /** n times d, said without multiplication. */
  function Times(n: nat, d: nat): (p: nat)
    ensures n > 0 ==> p >= d
    decreases n, d
  {
    if n == 0 then 0 else d + Times(n - 1, d)
  }
}
