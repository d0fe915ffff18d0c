/** Products and quotients of unknowns as repeated addition and subtraction, which keeps the proofs
    about runs within linear arithmetic, and their equality with `*` and `/`. */
module RepeatedArithmetic {

  function Times(n: nat, k: nat): nat {
    if n == 0 then 0 else k + Times(n - 1, k)
  }

  function Quotient(x: nat, w: nat): nat
    requires w > 0
  {
    if x < w then 0 else 1 + Quotient(x - w, w)
  }

  lemma {:induction false} TimesIsProduct(n: nat, k: nat)
    ensures Times(n, k) == n * k
  {
    if n > 0 {
      TimesIsProduct(n - 1, k);
      assert n * k == k + (n - 1) * k;
    }
  }

  lemma {:induction false} QuotientIsDivision(x: nat, w: nat)
    requires w > 0
    ensures Quotient(x, w) == x / w
  {
    if x >= w {
      QuotientIsDivision(x - w, w);
      DivisionSteps(x, w);
    } else {
      assert x / w == 0;
    }
  }

  lemma {:induction false} DivisionSteps(x: nat, w: nat)
    requires 0 < w <= x
    ensures x / w == 1 + (x - w) / w
  {
    var q, r := (x - w) / w, (x - w) % w;
    assert x - w == q * w + r && 0 <= r < w;
    DivisionUnique(x, w, q + 1, r);
  }

  lemma {:induction false} DivisionUnique(x: nat, w: nat, q: nat, r: nat)
    requires 0 < w && x == q * w + r && r < w
    ensures x / w == q
  {
    var p, t := x / w, x % w;
    assert x == p * w + t && 0 <= t < w;
    SameQuotient(p, q, w, t, r);
  }

  lemma {:induction false} SameQuotient(p: nat, q: nat, w: nat, t: nat, r: nat)
    requires p * w + t == q * w + r && t < w && r < w
    ensures p == q
  {
    assert (p + 1) * w == p * w + w && (q + 1) * w == q * w + w;
    if p < q {
      MulMonotone(p + 1, q, w);
    } else if q < p {
      MulMonotone(q + 1, p, w);
    }
  }

  lemma MulMonotone(a: nat, b: nat, w: nat)
    requires a <= b
    ensures a * w <= b * w
  {
  }

  lemma {:induction false} TimesAdds(m: nat, n: nat, k: nat)
    ensures Times(m + n, k) == Times(m, k) + Times(n, k)
  {
    if m > 0 {
      TimesAdds(m - 1, n, k);
    }
  }

  lemma {:induction false} QuotientTimes(x: nat, w: nat)
    requires w > 0
    ensures Times(Quotient(x, w), w) <= x && (Quotient(x, w) == 0 <==> x < w)
  {
    if x >= w {
      QuotientTimes(x - w, w);
    }
  }

  /** The quotient is the greatest number whose multiple fits. */
  lemma {:induction false} QuotientGreatest(a: nat, x: nat, w: nat)
    requires w > 0 && Times(a, w) <= x
    ensures a <= Quotient(x, w)
  {
    if a > 0 {
      QuotientGreatest(a - 1, x - w, w);
    }
  }
}
