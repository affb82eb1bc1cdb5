/** Digit strings, most significant digit first, and the decimals they denote. */
module Decimals {
  import opened Powers

  ghost predicate AllDigits(ds: seq<nat>) {
    forall i | 0 <= i < |ds| :: ds[i] <= 9
  }

  /** A significand: nonempty, no leading and no trailing zero. */
  ghost predicate Normalized(ds: seq<nat>) {
    |ds| > 0 && AllDigits(ds) && ds[0] != 0 && ds[|ds| - 1] != 0
  }

  function Number(ds: seq<nat>): nat {
    if ds == [] then 0 else ds[0] * Pow(10, |ds| - 1) + Number(ds[1..])
  }

  /** The real number e * 10^q. */
  function Dec(e: int, q: int): real {
    e as real * Ten(q)
  }

  /** The real number 0.ds * 10^n. */
  function DecimalValue(ds: seq<nat>, n: int): real {
    Dec(Number(ds), n - |ds|)
  }

  function Zeros(k: nat): (z: seq<nat>)
    ensures |z| == k && AllDigits(z)
  {
    seq(k, _ => 0)
  }

  lemma {:induction false} NumberConcat(a: seq<nat>, b: seq<nat>)
    ensures Number(a + b) == Number(a) * Pow(10, |b|) + Number(b)
  {
    if a == [] {
      assert a + b == b;
    } else {
      NumberConcat(a[1..], b);
      assert (a + b)[1..] == a[1..] + b;
      PowAdd(10, |a| - 1, |b|);
      Spread(a[0], Pow(10, |a| - 1), Number(a[1..]), Pow(10, |b|));
    }
  }

  lemma Spread(d: nat, p: nat, n: nat, q: nat)
    ensures (d * p + n) * q == d * (p * q) + n * q
  {
    calc {
      (d * p + n) * q;
      d * p * q + n * q;
      d * (p * q) + n * q;
    }
  }

  lemma {:induction false} NumberZeros(k: nat)
    ensures Number(Zeros(k)) == 0
  {
    if k > 0 {
      assert Zeros(k)[1..] == Zeros(k - 1);
      NumberZeros(k - 1);
    }
  }

  lemma {:induction false} NumberBound(ds: seq<nat>)
    requires AllDigits(ds)
    ensures Number(ds) < Pow(10, |ds|)
  {
    if ds != [] {
      NumberBound(ds[1..]);
      MulMonotone(ds[0], 9, Pow(10, |ds| - 1), Pow(10, |ds| - 1));
    }
  }

  lemma NumberLead(ds: seq<nat>)
    requires |ds| > 0 && ds[0] != 0
    ensures Number(ds) >= Pow(10, |ds| - 1)
  {
    MulAtLeast(Pow(10, |ds| - 1), ds[0]);
  }

  lemma NumberLast(ds: seq<nat>)
    requires AllDigits(ds) && |ds| > 0
    ensures Number(ds) % 10 == ds[|ds| - 1]
  {
    var k := |ds| - 1;
    assert ds == ds[..k] + [ds[k]];
    NumberConcat(ds[..k], [ds[k]]);
    OneDigit(ds[k]);
    TenTimesPlus(Number(ds[..k]), ds[k]);
  }

  lemma OneDigit(d: nat)
    ensures Number([d]) == d && Pow(10, 1) == 10
  {
    assert Pow(10, 0) == 1 && Pow(10, 1) == 10 * Pow(10, 0);
    assert Number([d]) == d * Pow(10, 0) + Number([d][1..]);
  }

  lemma TenTimesPlus(x: nat, d: nat)
    requires d <= 9
    ensures (x * 10 + d) % 10 == d
  {
  }

  /** Digit strings of one length are determined by their number. */
  lemma {:induction false} NumberInjective(a: seq<nat>, b: seq<nat>)
    requires AllDigits(a) && AllDigits(b) && |a| == |b| && Number(a) == Number(b)
    ensures a == b
  {
    if a != [] {
      var p := Pow(10, |a| - 1);
      NumberBound(a[1..]);
      NumberBound(b[1..]);
      LeadingQuotient(a[0], b[0], p, Number(a[1..]), Number(b[1..]));
      NumberInjective(a[1..], b[1..]);
      assert a == [a[0]] + a[1..] && b == [b[0]] + b[1..];
    }
  }

  lemma LeadingQuotient(d: nat, e: nat, p: nat, x: nat, y: nat)
    requires x < p && y < p && d * p + x == e * p + y
    ensures d == e && x == y
  {
    if d < e {
      MulMonotone(d + 1, e, p, p);
    } else if e < d {
      MulMonotone(e + 1, d, p, p);
    }
  }

  /** e * 10^q written at a smaller place. */
  lemma DecShift(e: int, q: int, t: nat)
    ensures Dec(e, q + t) == Dec(e * Pow(10, t), q)
  {
    RealPowAdd(10.0, q, t);
    RealPowNat(10, t);
    CastMul(e, Pow(10, t));
    Reassociate(e as real, Pow(10, t) as real, Ten(q));
  }

  lemma Reassociate(a: real, b: real, c: real)
    ensures (a * b) * c == a * (c * b)
  {
    calc {
      (a * b) * c;
      a * (b * c);
      a * (c * b);
    }
  }

  lemma DecMonotone(d: int, e: int, q: int)
    ensures d < e <==> Dec(d, q) < Dec(e, q)
    ensures d == e <==> Dec(d, q) == Dec(e, q)
  {
    hide RealPow;
    RealPowPositive(10.0, q);
    ScaleOrder(d as real, e as real, Ten(q));
    ScaleOrder(e as real, d as real, Ten(q));
  }

  lemma ScaleOrder(x: real, y: real, t: real)
    requires t > 0.0
    ensures x < y <==> x * t < y * t
    ensures x == y <==> x * t == y * t
  {
  }

  /** A nonzero decimal has only one form without trailing zeros. */
  lemma DecUnique(d: nat, p: int, e: nat, q: int)
    requires d % 10 != 0 && e % 10 != 0 && Dec(d, p) == Dec(e, q)
    ensures d == e && p == q
  {
    if p < q {
      DecShift(e, p, q - p);
      DecMonotone(d, e * Pow(10, q - p), p);
      MultipleOfTen(e, q - p);
    } else if q < p {
      DecShift(d, q, p - q);
      DecMonotone(e, d * Pow(10, p - q), q);
      MultipleOfTen(d, p - q);
    } else {
      DecMonotone(d, e, p);
    }
  }

  lemma MultipleOfTen(e: nat, t: nat)
    requires t > 0
    ensures (e * Pow(10, t)) % 10 == 0
  {
    assert e * Pow(10, t) == 10 * (e * Pow(10, t - 1));
  }

  /** Distinct normalized significands denote distinct decimals. */
  lemma DecimalValueInjective(a: seq<nat>, m: int, b: seq<nat>, n: int)
    requires Normalized(a) && Normalized(b) && DecimalValue(a, m) == DecimalValue(b, n)
    ensures a == b && m == n
  {
    NumberLast(a);
    NumberLast(b);
    DecUnique(Number(a), m - |a|, Number(b), n - |b|);
    NumberLead(a);
    NumberLead(b);
    NumberBound(a);
    NumberBound(b);
    if |a| < |b| {
      PowMonotone(10, |a|, |b| - 1);
    } else if |b| < |a| {
      PowMonotone(10, |b|, |a| - 1);
    }
    NumberInjective(a, b);
  }
}
