/** Powers of two, positional numerals, and the division facts the address arithmetic relies on. */
module Arith {

  /** 2 to the power n. */
  function Pow2(n: nat): (r: nat)
    ensures r >= 1
  {
    if n == 0 then 1 else Pow2(n - 1) + Pow2(n - 1)
  }

  lemma {:induction false} Pow2Add(a: nat, b: nat)
    ensures Pow2(a + b) == Pow2(a) * Pow2(b)
  {
    if a > 0 {
      Pow2Add(a - 1, b);
      assert Pow2(a + b) == Pow2(a - 1 + b) + Pow2(a - 1 + b);
      assert Pow2(a - 1) * Pow2(b) + Pow2(a - 1) * Pow2(b) == (Pow2(a - 1) + Pow2(a - 1)) * Pow2(b);
    }
  }

  lemma MulMonotone(a: nat, b: nat, c: nat)
    requires a <= b
    ensures a * c <= b * c
  {
    assert b * c == a * c + (b - a) * c;
  }

  /** Division is fixed by any decomposition x == q * d + m with 0 <= m < d. */
  lemma DivModUnique(x: int, d: int, q: int, m: int)
    requires d > 0 && 0 <= m < d && x == q * d + m
    ensures x / d == q && x % d == m
  {
    var q0, m0 := x / d, x % d;
    assert (q - q0) * d == m0 - m;
    if q0 < q {
      MulMonotone(1, q - q0, d);
    } else if q < q0 {
      MulMonotone(1, q0 - q, d);
    }
  }

  lemma MulDiv(q: nat, d: nat)
    requires d > 0
    ensures (q * d) / d == q && (q * d) % d == 0
  {
    DivModUnique(q * d, d, q, 0);
  }

  /** Dividing twice is dividing by the product. */
  lemma DivDiv(x: nat, a: nat, b: nat)
    requires a > 0 && b > 0
    ensures x / a / b == x / (a * b)
  {
    var q, r := x / a, x % a;
    var q2, r2 := q / b, q % b;
    assert x == (a * b) * q2 + (a * r2 + r) by {
      assert q == b * q2 + r2;
      assert x == a * q + r;
      assert a * q == a * (b * q2) + a * r2;
    }
    MulMonotone(r2, b - 1, a);
    DivModUnique(x, a * b, q2, a * r2 + r);
  }

  /** The value of a big-endian numeral in the given base. */
  function FromDigits(ds: seq<nat>, base: nat): nat
  {
    if ds == [] then 0 else FromDigits(ds[..|ds| - 1], base) * base + ds[|ds| - 1]
  }

  /** v with its low h bits cleared: halve h times, then double back. */
  function ClearLow(v: nat, h: nat): (r: nat)
    ensures r <= v
  {
    if h == 0 then v else 2 * ClearLow(v / 2, h - 1)
  }

  /** ClearLow gives the largest multiple of 2^h not above v. */
  lemma {:induction false} ClearLowValue(v: nat, h: nat)
    ensures ClearLow(v, h) == v / Pow2(h) * Pow2(h)
    ensures v - ClearLow(v, h) < Pow2(h) && ClearLow(v, h) % Pow2(h) == 0
  {
    if h > 0 {
      var p := Pow2(h - 1);
      ClearLowValue(v / 2, h - 1);
      DivDiv(v, 2, p);
      assert 2 * p == Pow2(h);
      var q := v / Pow2(h);
      assert ClearLow(v, h) == 2 * (q * p) == q * Pow2(h);
    }
    MulDiv(v / Pow2(h), Pow2(h));
  }

  /** Clearing low bits keeps the high part: ClearLow(v, h) / 2^h == v / 2^h. */
  lemma ClearLowQuotient(v: nat, h: nat)
    ensures ClearLow(v, h) / Pow2(h) == v / Pow2(h)
  {
    ClearLowValue(v, h);
    MulDiv(v / Pow2(h), Pow2(h));
  }

  lemma ClearLowIdempotent(v: nat, h: nat)
    ensures ClearLow(ClearLow(v, h), h) == ClearLow(v, h)
  {
    ClearLowQuotient(v, h);
    ClearLowValue(v, h);
    ClearLowValue(ClearLow(v, h), h);
  }

  /** Adding i multiples of d to a multiple of d adds i to the quotient. */
  lemma AddMultiple(c: nat, i: nat, d: nat)
    requires d > 0 && c % d == 0
    ensures (c + i * d) / d == c / d + i
  {
    var m := c / d;
    assert c == m * d;
    assert c + i * d == (m + i) * d;
    MulDiv(m + i, d);
  }

  /** A multiple of a * b is a multiple of b. */
  lemma MultipleOfFactor(c: nat, a: nat, b: nat)
    requires a > 0 && b > 0 && c % (a * b) == 0
    ensures c % b == 0
  {
    var m := c / (a * b);
    assert c == m * (a * b);
    MulAssoc(m, a, b);
    MulDiv(m * a, b);
  }

  /** A value below k * d has quotient below k. */
  lemma DivBelow(v: nat, d: nat, k: nat)
    requires d > 0 && v < k * d
    ensures v / d < k
  {
    if v / d >= k {
      MulMonotone(k, v / d, d);
    }
  }

  /** Adding whole multiples of d moves the quotient and leaves the remainder. */
  lemma DivModAfterMultiple(k: nat, d: nat, m: nat)
    requires d > 0
    ensures (k * d + m) / d == k + m / d && (k * d + m) % d == m % d
  {
    assert k * d + m == (k + m / d) * d + m % d;
    DivModUnique(k * d + m, d, k + m / d, m % d);
  }

  /** The i-th block of size s within the q-th of t runs of c blocks. */
  lemma BlockOfRun(q: nat, c: nat, s: nat, i: nat, t: nat)
    requires c > 0 && s > 0 && i < c && q < t
    ensures (q * (c * s) + i * s) % s == 0
    ensures (q * (c * s) + i * s) / (c * s) == q
    ensures q * (c * s) + i * s < t * (c * s)
  {
    var x := q * (c * s) + i * s;
    assert x % s == 0 by {
      MulAssoc(q, c, s);
      assert x == (q * c + i) * s;
      MulDiv(q * c + i, s);
    }
    assert i * s < c * s by { MulMonotone(i + 1, c, s); }
    DivModUnique(x, c * s, q, i * s);
    assert x < t * (c * s) by { MulMonotone(q + 1, t, c * s); }
  }

  lemma MulAssoc(a: int, b: int, c: int)
    ensures a * (b * c) == (a * b) * c
  {
  }

  /** An s-aligned x lies in run q of c blocks of size s, as block i of that run. */
  lemma AlignedInRun(x: nat, c: nat, s: nat) returns (q: nat, i: nat)
    requires c > 0 && s > 0 && x % s == 0
    ensures q == x / (c * s) && i < c && x == q * (c * s) + i * s
  {
    q := x / (c * s);
    var m := x % (c * s);
    assert x == q * (c * s) + m;
    MulAssoc(q, c, s);
    DivModAfterMultiple(q * c, s, m);
    DivBelow(m, s, c);
    i := m / s;
  }

  /** Clearing fewer than g low bits leaves v / 2^g alone. */
  lemma ClearLowKeepsHigh(v: nat, h: nat, g: nat)
    requires h <= g
    ensures ClearLow(v, h) / Pow2(g) == v / Pow2(g)
  {
    Pow2Add(h, g - h);
    ClearLowQuotient(v, h);
    DivDiv(ClearLow(v, h), Pow2(h), Pow2(g - h));
    DivDiv(v, Pow2(h), Pow2(g - h));
  }
}
