/** Natural powers, and integer powers of a real base (exponents of either sign). */
module Powers {

  function Pow(b: nat, e: nat): nat {
    if e == 0 then 1 else b * Pow(b, e - 1)
  }

  /** `b` to any integer exponent. */
  function RealPow(b: real, n: int): real
    requires b > 0.0
    decreases if n < 0 then -n else n
  {
    if n == 0 then 1.0
    else if n > 0 then b * RealPow(b, n - 1)
    else RealPow(b, n + 1) / b
  }

  function Ten(n: int): real {
    RealPow(10.0, n)
  }

  function Two(n: int): real {
    RealPow(2.0, n)
  }

  lemma {:induction false} PowPositive(b: nat, e: nat)
    requires b > 0
    ensures Pow(b, e) > 0
  {
    if e > 0 {
      PowPositive(b, e - 1);
    }
  }

  lemma {:induction false} PowAdd(b: nat, m: nat, n: nat)
    ensures Pow(b, m + n) == Pow(b, m) * Pow(b, n)
  {
    if m > 0 {
      PowAdd(b, m - 1, n);
      var x, y := Pow(b, m - 1), Pow(b, n);
      assert b * (x * y) == (b * x) * y;
    }
  }

  lemma PowMonotone(b: nat, m: nat, n: nat)
    requires b > 0 && m <= n
    ensures Pow(b, m) <= Pow(b, n)
  {
    PowAdd(b, m, n - m);
    PowPositive(b, m);
    PowPositive(b, n - m);
    MulAtLeast(Pow(b, m), Pow(b, n - m));
  }

  lemma MulAtLeast(x: nat, y: nat)
    requires y >= 1
    ensures x <= x * y
  {
  }

  lemma {:induction false} PowOfProduct(a: nat, b: nat, e: nat)
    ensures Pow(a * b, e) == Pow(a, e) * Pow(b, e)
  {
    if e > 0 {
      PowOfProduct(a, b, e - 1);
      Regroup(a, b, Pow(a, e - 1), Pow(b, e - 1));
    }
  }

  lemma Regroup(a: nat, b: nat, x: nat, y: nat)
    ensures (a * b) * (x * y) == (a * x) * (b * y)
  {
    calc {
      (a * b) * (x * y);
      a * (b * (x * y));
      a * (x * (b * y));
      (a * x) * (b * y);
    }
  }

  lemma {:induction false} PowOfPow(b: nat, m: nat, n: nat)
    ensures Pow(b, m * n) == Pow(Pow(b, m), n)
  {
    if n == 0 {
      assert m * n == 0;
    } else {
      PowOfPow(b, m, n - 1);
      assert m * n == m + m * (n - 1);
      PowAdd(b, m, m * (n - 1));
    }
  }

  lemma {:induction false} PowBaseMonotone(a: nat, b: nat, e: nat)
    requires a <= b
    ensures Pow(a, e) <= Pow(b, e)
  {
    if e > 0 {
      PowBaseMonotone(a, b, e - 1);
      MulMonotone(a, b, Pow(a, e - 1), Pow(b, e - 1));
    }
  }

  lemma MulMonotone(a: nat, b: nat, x: nat, y: nat)
    requires a <= b && x <= y
    ensures a * x <= b * y
  {
    assert a * x <= b * x <= b * y;
  }

  lemma MulStrict(x: nat, y: nat, p: nat)
    requires x < y && p > 0
    ensures x * p < y * p
  {
  }

  lemma RealPowPositive(b: real, n: int)
    requires b > 0.0
    ensures RealPow(b, n) > 0.0
    decreases if n < 0 then -n else n
  {
    if n > 0 {
      RealPowPositive(b, n - 1);
    } else if n < 0 {
      RealPowPositive(b, n + 1);
    }
  }

  lemma RealPowStep(b: real, n: int)
    requires b > 0.0
    ensures RealPow(b, n + 1) == b * RealPow(b, n)
  {
  }

  lemma RealPowZero(b: real)
    requires b > 0.0
    ensures RealPow(b, 0) == 1.0
  {
  }

  lemma {:induction false} RealPowAdd(b: real, m: int, n: int)
    requires b > 0.0
    ensures RealPow(b, m + n) == RealPow(b, m) * RealPow(b, n)
    decreases if n < 0 then -n else n
  {
    hide RealPow;
    RealPowZero(b);
    if n > 0 {
      RealPowAdd(b, m, n - 1);
      RealPowStep(b, m + n - 1);
      RealPowStep(b, n - 1);
      MulLeft(b, RealPow(b, m), RealPow(b, n - 1));
    } else if n < 0 {
      RealPowAdd(b, m, n + 1);
      RealPowStep(b, m + n);
      RealPowStep(b, n);
      MulLeft(b, RealPow(b, m), RealPow(b, n));
      Cancel(b, RealPow(b, m + n), RealPow(b, m) * RealPow(b, n));
    }
  }

  lemma MulLeft(b: real, x: real, y: real)
    ensures b * (x * y) == x * (b * y)
  {
  }

  lemma Cancel(b: real, x: real, y: real)
    requires b != 0.0 && b * x == b * y
    ensures x == y
  {
  }

  /** A natural exponent gives the natural power. */
  lemma {:induction false} RealPowNat(b: nat, e: nat)
    requires b > 0
    ensures RealPow(b as real, e) == Pow(b, e) as real
  {
    if e > 0 {
      RealPowNat(b, e - 1);
      CastMul(b, Pow(b, e - 1));
    }
  }

  lemma RealPowInverse(b: real, n: int)
    requires b > 0.0
    ensures RealPow(b, n) * RealPow(b, -n) == 1.0
  {
    RealPowAdd(b, n, -n);
  }

  lemma RealPowStrict(b: real, m: int, n: int)
    requires b > 1.0 && m < n
    ensures RealPow(b, m) < RealPow(b, n)
    decreases n - m
  {
    hide RealPow;
    RealPowPositive(b, n - 1);
    RealPowStep(b, n - 1);
    Grows(b, RealPow(b, n - 1), RealPow(b, n));
    if m < n - 1 {
      RealPowStrict(b, m, n - 1);
    } else {
      assert m == n - 1;
    }
  }

  lemma Grows(b: real, x: real, y: real)
    requires b > 1.0 && x > 0.0 && y == b * x
    ensures x < y
  {
  }

  /** The embedding of the integers in the reals is multiplicative. */
  lemma {:induction false} CastMul(x: int, y: int)
    ensures (x * y) as real == (x as real) * (y as real)
    decreases if y < 0 then -y else y
  {
    if y > 0 {
      CastMul(x, y - 1);
      assert x * y == x * (y - 1) + x;
    } else if y < 0 {
      CastMul(x, y + 1);
      assert x * y == x * (y + 1) - x;
    }
  }
}
