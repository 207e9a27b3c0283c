// Integer functions several components share.
module Numbers {
  function Min(a: int, b: int): int {
    if a <= b then a else b
  }

  function Max(a: int, b: int): int {
    if a >= b then a else b
  }

  /** Division that rounds toward zero. */
  function Truncated(a: int, b: int): int
    requires b > 0
  {
    if a >= 0 then a / b else -((-a) / b)
  }

  function Power(base: nat, k: nat): nat {
    if k == 0 then 1 else base * Power(base, k - 1)
  }

  lemma {:induction false} PowerPositive(base: nat, k: nat)
    requires base > 0
    ensures Power(base, k) > 0
  {
    if k > 0 {
      PowerPositive(base, k - 1);
      Positive(base, Power(base, k - 1));
    }
  }

  lemma Positive(a: nat, b: nat)
    requires a >= 1 && b >= 1
    ensures a * b >= 1
  {
  }

  /** Going one place further is dividing by the base first. */
  lemma PlaceValue(n: nat, base: nat, k: nat)
    requires base > 0 && k > 0
    ensures Power(base, k) > 0 && Power(base, k - 1) > 0 && n / Power(base, k) == n / base / Power(base, k - 1)
  {
    PowerPositive(base, k);
    PowerPositive(base, k - 1);
    DivideTwice(n, base, Power(base, k - 1));
  }

  lemma DivideTwice(n: nat, a: nat, b: nat)
    requires a > 0 && b > 0
    ensures a * b > 0 && n / (a * b) == n / a / b
  {
    Positive(a, b);
    Divided(n, a, b, n / a, n % a, n / a / b, n / a % b);
  }

  lemma Divided(n: nat, a: nat, b: nat, q: nat, r: nat, p: nat, t: nat)
    requires a * b > 0 && n == a * q + r && q == b * p + t && r < a && t < b
    ensures n / (a * b) == p
  {
    RemainderFits(a, b, r, t);
    Collected(a, b, p, t);
    SameQuotient(a * b, p, a * t + r, n / (a * b), n % (a * b));
  }

  lemma Collected(a: nat, b: nat, p: nat, t: nat)
    ensures a * (b * p + t) == (a * b) * p + a * t
  {
  }

  lemma RemainderFits(a: nat, b: nat, r: nat, t: nat)
    requires r < a && t < b
    ensures 0 <= a * t + r < a * b
  {
    assert a * t <= a * (b - 1);
  }

  lemma SameQuotient(d: nat, p: nat, r: nat, q: nat, s: nat)
    requires d * p + r == d * q + s && r < d && s < d
    ensures p == q
  {
    assert d * (p - q) == s - r;
    if p > q {
      AtLeastOnce(d, p - q);
    } else if p < q {
      AtLeastOnce(d, q - p);
    }
  }

  lemma AtLeastOnce(d: nat, m: nat)
    requires m >= 1
    ensures d * m >= d
  {
  }
}
