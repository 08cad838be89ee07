/** Integer arithmetic shared by the number conversions: powers, and division. */
module DtoaArith {

  function Pow(b: nat, n: nat): (p: nat)
    ensures b > 0 ==> p > 0
  {
    if n == 0 then 1 else b * Pow(b, n - 1)
  }

  /** The power with negative exponents read as zero: the numerator's or, with the
      exponent negated, the denominator's share of `b^k`. */
  function UpPow(b: nat, k: int): (p: nat)
    ensures b > 0 ==> p > 0
  {
    if k <= 0 then 1 else Pow(b, k)
  }

  lemma {:induction false} PowAdd(b: nat, m: nat, n: nat)
    ensures Pow(b, m + n) == Pow(b, m) * Pow(b, n)
    decreases m
  {
    if m > 0 {
      PowAdd(b, m - 1, n);
      assert b * (Pow(b, m - 1) * Pow(b, n)) == b * Pow(b, m - 1) * Pow(b, n);
    }
  }

  lemma {:induction false} PowMulBase(b: nat, c: nat, n: nat)
    ensures Pow(b * c, n) == Pow(b, n) * Pow(c, n)
    decreases n
  {
    if n > 0 {
      PowMulBase(b, c, n - 1);
      var p, q := Pow(b, n - 1), Pow(c, n - 1);
      assert b * c * (p * q) == b * p * (c * q);
    }
  }

  lemma {:induction false} PowPow(b: nat, m: nat, n: nat)
    ensures Pow(Pow(b, m), n) == Pow(b, n * m)
    decreases n
  {
    if n > 0 {
      PowPow(b, m, n - 1);
      PowAdd(b, m, (n - 1) * m);
      assert n * m == m + (n - 1) * m;
    } else {
      assert n * m == 0;
    }
  }

  lemma {:induction false} PowMono(b: nat, m: nat, n: nat)
    requires b >= 1 && m <= n
    ensures Pow(b, m) <= Pow(b, n)
    decreases n - m
  {
    if m < n {
      PowMono(b, m, n - 1);
      MulMono(1, b, Pow(b, n - 1));
    }
  }

  lemma PowStrict(b: nat, m: nat, n: nat)
    requires b >= 2 && m < n
    ensures Pow(b, m) < Pow(b, n)
  {
    PowMono(b, m, n - 1);
    assert Pow(b, n) == b * Pow(b, n - 1);
    MulMono(2, b, Pow(b, n - 1));
  }

  lemma PowOrder(b: nat, m: nat, n: nat)
    requires b >= 2 && Pow(b, m) < Pow(b, n)
    ensures m < n
  {
    if n <= m { PowMono(b, n, m); }
  }

  lemma MulMono(x: nat, y: nat, z: nat)
    requires x <= y
    ensures x * z <= y * z && z * x <= z * y
  {
  }

  lemma MulStrict(x: nat, y: nat, z: nat)
    requires x < y && z > 0
    ensures x * z < y * z && z * x < z * y
  {
  }

  lemma MulCancel(x: int, y: int, z: nat)
    requires z > 0 && x * z <= y * z
    ensures x <= y
  {
    if y < x { MulStrictInt(y, x, z); }
  }

  lemma MulStrictInt(x: int, y: int, z: nat)
    requires x < y && z > 0
    ensures x * z < y * z
  {
  }

  lemma MulCancelStrict(x: int, y: int, z: nat)
    requires x * z < y * z
    ensures x < y
  {
    if y <= x { MulMonoInt(y, x, z); }
  }

  lemma MulMonoInt(x: int, y: int, z: nat)
    requires x <= y
    ensures x * z <= y * z
  {
  }

  /** Quotient and remainder are determined by their equation. */
  lemma DivIs(n: nat, d: nat, q: nat, r: nat)
    requires n == q * d + r && r < d
    ensures n / d == q && n % d == r
  {
    var q', r' := n / d, n % d;
    assert n == q' * d + r';
    assert (q' + 1) * d == q' * d + d && (q + 1) * d == q * d + d;
    if q' < q {
      MulMono(q' + 1, q, d);
    } else if q < q' {
      MulMono(q + 1, q', d);
    }
  }

  lemma DivParts(n: nat, d: nat)
    requires d > 0
    ensures n == n / d * d + n % d && n % d < d
  {
  }

  /** Dividing twice is dividing once; the first division or the second is inexact
      exactly when the single one is. */
  lemma DivChain(n: nat, b: nat, c: nat)
    requires b > 0 && c > 0
    ensures b * c > 0 && n / b / c == n / (b * c)
    ensures n % (b * c) == n / b % c * b + n % b
    ensures n % (b * c) != 0 <==> n % b != 0 || n / b % c != 0
  {
    var q, r := n / b, n % b;
    var u, v := q / c, q % c;
    DivParts(n, b);
    DivParts(q, c);
    MulStrict(0, b, c);
    TwoDigits(u, v, r, b, c);
    DivIs(n, b * c, u, v * b + r);
    if v > 0 { MulMono(1, v, b); }
  }

  lemma TwoDigits(u: nat, v: nat, r: nat, b: nat, c: nat)
    requires v < c && r < b
    ensures (u * c + v) * b + r == u * (b * c) + (v * b + r) && v * b + r < b * c
  {
    assert (u * c + v) * b == u * c * b + v * b;
    assert u * c * b == u * (b * c);
    MulMono(v + 1, c, b);
    assert (v + 1) * b == v * b + b;
  }

  lemma DivBy(n: nat, d: nat, k: nat)
    requires d > 0 && k > 0
    ensures d * k > 0 && n * k / (d * k) == n / d && n * k % (d * k) == n % d * k
  {
    var q, r := n / d, n % d;
    DivParts(n, d);
    assert (q * d + r) * k == q * (d * k) + r * k by {
      assert (q * d + r) * k == q * d * k + r * k;
      assert q * d * k == q * (d * k);
    }
    MulStrict(r, d, k);
    MulStrict(0, d, k);
    DivIs(n * k, d * k, q, r * k);
  }

  /** The position of the highest set bit. */
  function FloorLog2(n: nat): (k: nat)
    requires n > 0
  {
    if n == 1 then 0 else 1 + FloorLog2(n / 2)
  }

  lemma {:induction false} FloorLog2Bounds(n: nat)
    requires n > 0
    ensures Pow(2, FloorLog2(n)) <= n < Pow(2, FloorLog2(n) + 1)
    decreases n
  {
    if n > 1 {
      FloorLog2Bounds(n / 2);
      assert Pow(2, FloorLog2(n)) == 2 * Pow(2, FloorLog2(n / 2));
      assert Pow(2, FloorLog2(n) + 1) == 2 * Pow(2, FloorLog2(n / 2) + 1);
    }
  }

  lemma FloorLog2Is(n: nat, k: nat)
    requires Pow(2, k) <= n < Pow(2, k + 1)
    ensures n > 0 && FloorLog2(n) == k
  {
    assert n > 0;
    FloorLog2Bounds(n);
    var j := FloorLog2(n);
    if j < k { PowMono(2, j + 1, k); }
    if k < j { PowMono(2, k + 1, j); }
  }

  lemma UpPowSum(b: nat, j: int, k: int)
    requires b > 0
    ensures UpPow(b, j) * UpPow(b, k) * UpPow(b, -(j + k)) == UpPow(b, j + k) * UpPow(b, -j) * UpPow(b, -k)
  {
    if j >= 0 && k >= 0 {
      PowAdd(b, j, k);
    } else if j < 0 && k < 0 {
      PowAdd(b, -j, -k);
    } else if j >= 0 {
      if j + k >= 0 { PowAdd(b, j + k, -k); } else { PowAdd(b, j, -(j + k)); }
    } else {
      if j + k >= 0 { PowAdd(b, j + k, -j); } else { PowAdd(b, k, -(j + k)); }
    }
  }
}
