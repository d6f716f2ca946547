/** Powers of two and the division facts that byte-level address arithmetic rests on. */
module Arith {

  function Pow2(n: nat): (p: nat)
    ensures p >= 1
  {
    if n == 0 then 1 else 2 * Pow2(n - 1)
  }

  lemma {:induction false} Pow2Add(a: nat, b: nat)
    ensures Pow2(a + b) == Pow2(a) * Pow2(b)
  {
    if a > 0 {
      Pow2Add(a - 1, b);
      assert Pow2(a + b) == 2 * Pow2(a - 1 + b);
    }
  }

  lemma Pow2Byte()
    ensures Pow2(8) == 256
  {
    assert Pow2(4) == 16;
  }

  lemma {:induction false} Pow2Monotone(a: nat, b: nat)
    requires a <= b
    ensures Pow2(a) <= Pow2(b)
  {
    if a < b {
      Pow2Monotone(a, b - 1);
    }
  }

  /** Euclidean division is determined by any quotient and remainder that fit. */
  lemma DivModUnique(v: int, m: int, q: int, r: int)
    requires m > 0 && v == m * q + r && 0 <= r < m
    ensures v / m == q && v % m == r
  {
    var q', r' := v / m, v % m;
    assert m * (q' - q) == r - r';
    MulSmall(m, q' - q);
  }

  lemma {:induction false} MulAtLeast(m: int, d: int)
    requires m > 0 && d >= 1
    ensures m * d >= m
  {
    if d > 1 {
      MulAtLeast(m, d - 1);
      assert m * d == m * (d - 1) + m;
    }
  }

  lemma MulSmall(m: int, d: int)
    requires m > 0 && -m < m * d < m
    ensures d == 0
  {
    if d >= 1 {
      MulAtLeast(m, d);
    } else if d <= -1 {
      MulAtLeast(m, -d);
    }
  }

  lemma {:induction false} MulMonotone(m: nat, a: int, b: int)
    requires a <= b
    ensures m * a <= m * b
  {
    if m > 0 {
      MulMonotone(m - 1, a, b);
      assert m * a == (m - 1) * a + a;
      assert m * b == (m - 1) * b + b;
    }
  }

  lemma MulCancelLess(m: nat, a: int, b: int)
    requires m > 0 && m * a < m * b
    ensures a < b
  {
    if a >= b {
      MulMonotone(m, b, a);
    }
  }

  lemma ModAtMost(x: nat, h: nat)
    requires h > 0
    ensures x % h <= x
  {
    if x < h {
      DivModUnique(x, h, 0, x);
    }
  }

  lemma DivMul(x: int, h: int)
    requires h > 0
    ensures x == h * (x / h) + x % h
  {
  }

  /** `x / h == q` exactly when `x` lies in the `q`-th run of `h` numbers. */
  lemma DivRange(x: nat, h: nat, q: nat)
    requires h > 0
    ensures x / h == q <==> h * q <= x < h * q + h
  {
    if h * q <= x < h * q + h {
      DivModUnique(x, h, q, x - h * q);
    }
    if x / h == q {
      assert x == h * (x / h) + x % h;
    }
  }

  /** Dividing by `a` and then by `b` is dividing by `a * b`; the remainders nest likewise. */
  lemma DivModSplit(v: nat, a: nat, b: nat)
    requires a > 0 && b > 0
    ensures v / (a * b) == (v / a) / b
    ensures v % (a * b) == (v / a) % b * a + v % a
  {
    var q, r := v / a, v % a;
    var q2, r2 := q / b, q % b;
    var ab := a * b;
    var low := a * r2 + r;
    DivMul(v, a);
    DivMul(q, b);
    SplitSum(v, a, b, q, r, q2, r2);
    SplitLow(a, b, r, r2);
    DivModUnique(v, ab, q2, low);
  }

  lemma SplitSum(v: int, a: int, b: int, q: int, r: int, q2: int, r2: int)
    requires v == a * q + r && q == b * q2 + r2
    ensures v == (a * b) * q2 + (a * r2 + r)
  {
    calc {
      a * q;
      a * (b * q2 + r2);
      a * (b * q2) + a * r2;
      (a * b) * q2 + a * r2;
    }
  }

  lemma SplitLow(a: int, b: int, r: int, r2: int)
    requires a > 0 && 0 <= r < a && 0 <= r2 < b
    ensures 0 <= a * r2 + r < a * b
  {
    MulMonotone(a, 0, r2);
    MulMonotone(a, r2, b - 1);
    assert a * (b - 1) == a * b - a;
  }
}
