/**
 `fractions.py`: reduced fractions, and the proof that `limit_denominator`
 returns a closest fraction with a bounded denominator.
 */
module Fractions {
  import opened Arithmetic

  datatype Result<T> = Ok(value: T) | ZeroDivision | ValueError

  // ---------- greatest common divisors ----------

  /** Euclid's algorithm on nonnegative numbers. */
  function Euclid(a: nat, b: nat): nat
    decreases b
  {
    if b == 0 then a else Euclid(b, a % b)
  }

  predicate Divides(d: int, n: int)
    requires d != 0
  {
    n % d == 0
  }

  /** `_gcd`: the loop computes Euclid's function of the absolute values. */
  method Gcd(a0: int, b0: int) returns (g: nat)
    ensures g == Euclid(Abs(a0), Abs(b0))
  {
    var a: nat, b: nat := Abs(a0), Abs(b0);
    while b != 0
      invariant Euclid(a, b) == Euclid(Abs(a0), Abs(b0))
      decreases b
    {
      a, b := b, a % b;
    }
    g := a;
  }

  lemma DivisorWitness(d: int, n: int)
    requires d > 0 && Divides(d, n)
    ensures n == d * (n / d)
  {
    DivisionLaw(n, d);
  }

  lemma WitnessDivides(d: int, n: int, k: int)
    requires d > 0 && n == d * k
    ensures Divides(d, n) && n / d == k
  {
    DivModUnique(n, d, k, 0);
  }

  /** Euclid's result divides both numbers and is a multiple of every common divisor. */
  lemma {:induction false} EuclidIsGcd(a: nat, b: nat)
    requires a != 0 || b != 0
    ensures Euclid(a, b) >= 1 && Divides(Euclid(a, b), a) && Divides(Euclid(a, b), b)
    ensures forall d: int :: d >= 1 && a % d == 0 && b % d == 0 ==> Divides(d, Euclid(a, b))
    decreases b
  {
    if b != 0 {
      var g, r := Euclid(b, a % b), a % b;
      EuclidIsGcd(b, r);
      DivisionLaw(a, b);
      CombineDivides(g, b, a / b, r, a);
      forall d: int | d >= 1 && a % d == 0 && b % d == 0
        ensures Divides(d, g)
      {
        CombineDivides(d, b, -(a / b), a, r);
        assert r % d == 0;
      }
    } else {
      assert a % a == 0;
      assert 0 % a == 0;
    }
  }

  lemma CombineDivides(d: int, b: int, q: int, r: int, a: int)
    requires d >= 1 && Divides(d, b) && Divides(d, r) && a == b * q + r
    ensures Divides(d, a)
  {
    DivisorWitness(d, b);
    DivisorWitness(d, r);
    var i, j := b / d, r / d;
    assert b * q == d * (i * q);
    WitnessDivides(d, a, i * q + j);
  }

  // ---------- fractions ----------

  datatype Fraction = Fraction(num: int, den: int) {
    /** What every constructor establishes: lowest terms, positive denominator. */
    predicate Valid() {
      den >= 1 && Euclid(Abs(num), den) == 1
    }
  }

  /** `Fraction(numerator, denominator)` for two integers. */
  function Make(num: int, den: int): Result<Fraction> {
    if den == 0 then ZeroDivision
    else
      var g := Euclid(Abs(num), Abs(den));
      EuclidIsGcd(Abs(num), Abs(den));
      var n, d := if den < 0 then -num else num, if den < 0 then -den else den;
      Ok(Fraction(n / g, d / g))
  }

  lemma AbsDivides(d: int, n: int)
    requires d >= 1
    ensures Divides(d, n) <==> Divides(d, Abs(n))
  {
    if Divides(d, n) {
      DivisorWitness(d, n);
      WitnessDivides(d, -n, -(n / d));
    }
    if Divides(d, -n) {
      DivisorWitness(d, -n);
      WitnessDivides(d, n, -(-n / d));
    }
  }

  /** The constructor reduces to lowest terms without changing the value, and refuses exactly a zero denominator. */
  lemma MakeReduces(num: int, den: int)
    ensures Make(num, den) == ZeroDivision <==> den == 0
    ensures den != 0 ==>
      Make(num, den).Ok? && var f := Make(num, den).value; f.Valid() && f.num * den == num * f.den && f.den <= Abs(den)
  {
    if den != 0 {
      var g := Euclid(Abs(num), Abs(den));
      EuclidIsGcd(Abs(num), Abs(den));
      var n, d := if den < 0 then -num else num, if den < 0 then -den else den;
      AbsDivides(g, n);
      DivisorWitness(g, n);
      DivisorWitness(g, d);
      var i, j := n / g, d / g;
      ReducedDenominator(g, d, j);
      assert i * d == n * j by { Regroup(i, g, j); }
      ReducedCoprime(n, d, g, i, j);
      if den < 0 { NegateBoth(i, den, num, j); }
    }
  }

  lemma NegateBoth(i: int, den: int, num: int, j: int)
    requires i * -den == -num * j
    ensures i * den == num * j
  {
    assert i * -den == -(i * den);
    assert -num * j == -(num * j);
  }

  lemma Regroup(i: int, g: int, j: int)
    ensures i * (g * j) == (g * i) * j
  {
  }

  lemma ReducedDenominator(g: int, d: int, j: int)
    requires g >= 1 && d >= 1 && d == g * j
    ensures 1 <= j <= d
  {
    if j <= 0 { MulOrder(j, 0, g); }
    if j >= 1 { MulOrder(1, g, j); }
  }

  /** Dividing by the greatest common divisor leaves coprime numbers. */
  lemma ReducedCoprime(n: int, d: int, g: int, i: int, j: int)
    requires d >= 1 && g == Euclid(Abs(n), d) && g >= 1 && n == g * i && d == g * j && j >= 1
    ensures Euclid(Abs(i), j) == 1
  {
    var h := Euclid(Abs(i), j);
    EuclidIsGcd(Abs(i), j);
    EuclidIsGcd(Abs(n), d);
    AbsDivides(h, i);
    DivisorWitness(h, i);
    DivisorWitness(h, j);
    CommonMultiple(n, d, g, h, i / h, j / h);
    var e := g * h;
    AbsDivides(e, n);
    assert Divides(e, g);
    DivisorWitness(e, g);
    NoLargerDivisor(g, h, g / e);
  }

  lemma CommonMultiple(n: int, d: int, g: int, h: int, i: int, j: int)
    requires g >= 1 && h >= 1 && n == g * (h * i) && d == g * (h * j)
    ensures g * h >= 1 && Divides(g * h, n) && Divides(g * h, d)
  {
    MulOrder(1, g, h);
    Regroup3(g, h, i);
    Regroup3(g, h, j);
    WitnessDivides(g * h, n, i);
    WitnessDivides(g * h, d, j);
  }

  lemma NoLargerDivisor(g: int, h: int, k: int)
    requires g >= 1 && h >= 1 && g == (g * h) * k
    ensures h == 1
  {
    var e := g * h;
    MulOrder(1, g, h);
    if k <= 0 { MulOrder(k, 0, e); }
    if k >= 1 { MulOrder(1, k, e); }
    if h >= 2 { MulOrder(2, h, g); }
  }

  lemma Regroup3(g: int, h: int, k: int)
    ensures g * (h * k) == (g * h) * k
  {
  }

  // ---------- arithmetic and comparison ----------

  /** `_sub` */
  function Sub(x: Fraction, y: Fraction): Result<Fraction> {
    Make(x.num * y.den - y.num * x.den, x.den * y.den)
  }

  /** `__abs__` */
  function AbsFraction(x: Fraction): Result<Fraction> {
    Make(Abs(x.num), x.den)
  }

  /** `_compare` */
  function Compare(x: Fraction, y: Fraction): int {
    var left, right := x.num * y.den, y.num * x.den;
    if left < right then -1 else if left == right then 0 else 1
  }

  /** |x - p/q|, multiplied by q and the denominator of x. */
  function Gap(x: Fraction, p: int, q: int): nat {
    Abs(x.num * q - p * x.den)
  }

  /** `abs(b - self)` */
  function Distance(b: Fraction, self: Fraction): Result<Fraction> {
    match Sub(b, self)
    case Ok(d) => AbsFraction(d)
    case other => other
  }

  lemma ProductPositive(a: int, b: int)
    requires a >= 1 && b >= 1
    ensures a * b >= 1
  {
    MulOrder(1, a, b);
  }

  lemma AbsProduct(a: int, b: int)
    requires b >= 1
    ensures Abs(a * b) == Abs(a) * b
  {
    if a < 0 { MulOrder(a, 0, b); } else { MulOrder(0, a, b); }
  }

  /** The computed distance is the gap over the product of the denominators. */
  lemma DistanceMeaning(b: Fraction, self: Fraction)
    requires b.den >= 1 && self.den >= 1
    ensures Distance(b, self).Ok?
    ensures var d := Distance(b, self).value;
            d.den >= 1 && d.num * (b.den * self.den) == Gap(self, b.num, b.den) * d.den
  {
    var t, m := b.num * self.den - self.num * b.den, b.den * self.den;
    ProductPositive(b.den, self.den);
    MakeReduces(t, m);
    var s := Make(t, m).value;
    MakeReduces(Abs(s.num), s.den);
    var d := Make(Abs(s.num), s.den).value;
    hide Make, Euclid;
    assert s.num * m == t * s.den && d.num * s.den == Abs(s.num) * d.den;
    AbsProduct(s.num, m);
    AbsProduct(t, s.den);
    CancelScale(d.num, s.den, Abs(s.num), d.den, m, Abs(t));
  }

  lemma CancelScale(n: int, e: int, a: int, d: int, m: int, t: int)
    requires e >= 1 && n * e == a * d && a * m == t * e
    ensures n * m == t * d
  {
    assert (n * m) * e == (n * e) * m;
    assert (a * d) * m == (a * m) * d;
    assert (t * e) * d == (t * d) * e;
    CancelRight(n * m, t * d, e);
  }

  lemma CancelOrder(a: int, b: int, k: int)
    requires k >= 1 && a * k <= b * k
    ensures a <= b
  {
    if b < a { MulOrder(b, a, k); }
  }

  /** p/q is at least as close to x as p'/q'. */
  predicate Closer(x: Fraction, p: int, q: int, p': int, q': int) {
    Gap(x, p, q) * q' <= Gap(x, p', q') * q
  }

  /** The comparison in `limit_denominator` decides which bound is closer. */
  lemma CompareDistances(a: Fraction, b: Fraction, self: Fraction)
    requires a.den >= 1 && b.den >= 1 && self.den >= 1
    ensures Distance(a, self).Ok? && Distance(b, self).Ok?
    ensures Compare(Distance(a, self).value, Distance(b, self).value) <= 0 <==> Closer(self, a.num, a.den, b.num, b.den)
  {
    DistanceMeaning(a, self);
    DistanceMeaning(b, self);
    var d, e := Distance(a, self).value, Distance(b, self).value;
    var g, h := Gap(self, a.num, a.den), Gap(self, b.num, b.den);
    hide Distance, Gap;
    ProductPositive(a.den, self.den);
    ProductPositive(b.den, self.den);
    CrossDistances(d.num, d.den, e.num, e.den, a.den, b.den, self.den, g, h);
  }

  lemma CrossDistances(n: int, d: int, m: int, e: int, q: int, r: int, k: int, g: int, h: int)
    requires d >= 1 && e >= 1 && q >= 1 && r >= 1 && k >= 1
    requires n * (q * k) == g * d && m * (r * k) == h * e
    ensures n * e <= m * d <==> g * r <= h * q
  {
    var w := (q * k) * r;
    ProductPositive(q, k);
    ProductPositive(q * k, r);
    var u := d * e;
    ProductPositive(d, e);
    assert (n * e) * w == (g * r) * u by { Shuffle(n, e, q * k, r, g, d); }
    assert (m * d) * w == (h * q) * u by { assert w == (r * k) * q; Shuffle(m, d, r * k, q, h, e); }
    if n * e <= m * d { MulOrder(n * e, m * d, w); CancelOrder(g * r, h * q, u); }
    if g * r <= h * q { MulOrder(g * r, h * q, u); CancelOrder(n * e, m * d, w); }
  }

  lemma Shuffle(n: int, e: int, s: int, r: int, g: int, d: int)
    requires n * s == g * d
    ensures (n * e) * (s * r) == (g * r) * (d * e)
  {
    assert (n * e) * (s * r) == (n * s) * (e * r);
    assert (g * d) * (e * r) == (g * r) * (d * e);
  }

  // ---------- the two bounds ----------

  /**
   b1 = bp/bq and b2 = p1/q1 are neighbours (determinant `s`), lie on both sides of x
   and have denominators that add up to more than the limit.
   */
  predicate Bracket(x: Fraction, bp: int, bq: int, p: int, q: int, s: int, limit: int) {
    && (s == 1 || s == -1)
    && 1 <= bq <= limit && 1 <= q <= limit && limit < bq + q
    && p * bq - bp * q == s
    && s * (x.num * bq - bp * x.den) > 0
    && s * (p * x.den - x.num * q) > 0
  }

  /** Any fraction within the limit is at or beyond one of the bounds, hence no closer than it. */
  lemma NoneBetween(x: Fraction, bp: int, bq: int, p: int, q: int, s: int, limit: int, a: int, b: int)
    requires x.den >= 1 && Bracket(x, bp, bq, p, q, s, limit) && 1 <= b <= limit
    ensures Closer(x, bp, bq, a, b) || Closer(x, p, q, a, b)
  {
    var u, w := s * (a * bq - bp * b), s * (p * b - a * q);
    DenominatorOf(bp, bq, p, q, s, a, b, u, w);
    if u >= 1 && w >= 1 {
      MulOrder(1, u, q);
      MulOrder(1, w, bq);
    }
    if u <= 0 {
      Beyond(x, bp, bq, a, b, s, u);
    } else if w <= 0 {
      assert (-s) * (a * q - p * b) == w;
      assert (-s) * (x.num * q - p * x.den) > 0 by {
        assert (-s) * (x.num * q - p * x.den) == s * (p * x.den - x.num * q);
      }
      Beyond(x, p, q, a, b, -s, w);
    }
  }

  lemma DenominatorOf(bp: int, bq: int, p: int, q: int, s: int, a: int, b: int, u: int, w: int)
    requires (s == 1 || s == -1) && p * bq - bp * q == s
    requires u == s * (a * bq - bp * b) && w == s * (p * b - a * q)
    ensures b == u * q + w * bq
  {
    var t := (a * bq - bp * b) * q + (p * b - a * q) * bq;
    assert t == b * (p * bq - bp * q);
    assert u * q + w * bq == s * t;
    assert s * (b * s) == b;
  }

  /** Moving away from x past a bound does not bring one closer. */
  lemma Beyond(x: Fraction, bp: int, bq: int, a: int, b: int, s: int, u: int)
    requires x.den >= 1 && bq >= 1 && b >= 1 && (s == 1 || s == -1)
    requires u == s * (a * bq - bp * b) && u <= 0 && s * (x.num * bq - bp * x.den) > 0
    ensures Closer(x, bp, bq, a, b)
  {
    var e, f := s * (x.num * bq - bp * x.den), s * (x.num * b - a * x.den);
    SignedAbs(s, x.num * bq - bp * x.den);
    SignedAbs(s, x.num * b - a * x.den);
    BeyondIdentity(x.num, x.den, bp, bq, a, b, s);
    var g := Gap(x, a, b);
    assert e == Gap(x, bp, bq) && f <= g;
    hide Gap;
    ScaledGap(e, f, g, x.den, u, bq, b);
  }

  lemma SignedAbs(s: int, m: int)
    requires s == 1 || s == -1
    ensures s * m <= Abs(m) && (s * m > 0 ==> s * m == Abs(m))
  {
  }

  lemma ScaledGap(e: int, f: int, g: int, d: int, u: int, bq: int, b: int)
    requires d >= 1 && u <= 0 && bq >= 1 && f <= g && f * bq == e * b - d * u
    ensures e * b <= g * bq
  {
    MulOrder(u, 0, d);
    MulOrder(f, g, bq);
  }

  lemma BeyondIdentity(n: int, d: int, bp: int, bq: int, a: int, b: int, s: int)
    ensures (s * (n * b - a * d)) * bq == (s * (n * bq - bp * d)) * b - d * (s * (a * bq - bp * b))
  {
    assert (n * b - a * d) * bq == (n * bq - bp * d) * b - d * (a * bq - bp * b);
    var u, v, w := n * b - a * d, n * bq - bp * d, a * bq - bp * b;
    assert u * bq == v * b - d * w;
    Distribute(s, u, bq, v, b, d, w);
  }

  lemma Distribute(s: int, u: int, bq: int, v: int, b: int, d: int, w: int)
    requires u * bq == v * b - d * w
    ensures (s * u) * bq == (s * v) * b - d * (s * w)
  {
    assert (s * u) * bq == s * (u * bq);
    assert (s * v) * b == s * (v * b);
    assert d * (s * w) == s * (d * w);
  }

  lemma CloserTransitive(x: Fraction, p: int, q: int, p': int, q': int, a: int, b: int)
    requires q >= 1 && q' >= 1 && b >= 1 && Closer(x, p, q, p', q') && Closer(x, p', q', a, b)
    ensures Closer(x, p, q, a, b)
  {
    var e, f, g := Gap(x, p, q), Gap(x, p', q'), Gap(x, a, b);
    hide Gap;
    MulOrder(e * q', f * q, b);
    MulOrder(f * b, g * q', q);
    assert (e * b) * q' == (e * q') * b;
    assert (f * q) * b == (f * b) * q;
    assert (g * q') * q == (g * q) * q';
    CancelOrder(e * b, g * q, q');
  }

  /** No fraction with an admissible denominator is closer to x than r. */
  ghost predicate Closest(x: Fraction, limit: int, r: Fraction) {
    && r.Valid() && r.den <= limit
    && forall a: int, b: int :: 1 <= b <= limit ==> Closer(x, r.num, r.den, a, b)
  }

  /** Of all closest fractions the one with the smallest denominator, and of two such ones the smaller. */
  ghost predicate FirstClosest(x: Fraction, limit: int, r: Fraction) {
    && Closest(x, limit, r)
    && forall f: Fraction | Closest(x, limit, f) :: r.den < f.den || (r.den == f.den && r.num <= f.num)
  }

  // ---------- the method ----------

  /** The state of the continued fraction loop. */
  predicate LoopState(x: Fraction, limit: int, p0: int, q0: int, p1: int, q1: int, n: int, d: int, s: int) {
    && d >= 1 && (s == 1 || s == -1) && p1 * q0 - p0 * q1 == s
    && x.num == p1 * n + p0 * d && x.den == q1 * n + q0 * d
    && 0 <= q0 <= limit && 0 <= q1 <= limit
    && (q1 == 0 ==> q0 == 1 && p1 == 1)
    && (q1 >= 1 ==> n > d && q0 <= q1)
    && (q0 == 0 ==> p0 == 1)
  }

  lemma LoopStep(x: Fraction, limit: int, p0: int, q0: int, p1: int, q1: int, n: int, d: int, s: int, a: int)
    requires x.Valid() && limit < x.den && LoopState(x, limit, p0, q0, p1, q1, n, d, s)
    requires a == n / d && q0 + a * q1 <= limit
    ensures LoopState(x, limit, p1, q1, p0 + a * p1, q0 + a * q1, d, n - a * d, -s)
    ensures n - a * d < d
  {
    DivisionLaw(n, d);
    var p2, q2, r := p0 + a * p1, q0 + a * q1, n - a * d;
    assert r == n % d;
    assert p2 * q1 - p1 * q2 == -s by { DetStep(p0, q0, p1, q1, a); }
    assert x.num == p2 * d + p1 * r by { Rewrite(p0, p1, n, d, a); }
    assert x.den == q2 * d + q1 * r by { Rewrite(q0, q1, n, d, a); }
    if q1 >= 1 {
      QuotientPositive(n, d);
      MulOrder(0, a, q1);
      MulOrder(1, a, q1);
    }
    if r == 0 {
      assert p1 * r == 0 && q1 * r == 0;
      CommonDivisorOne(x, p2, q2, d);
    }
  }

  lemma QuotientPositive(n: int, d: int)
    requires 1 <= d <= n
    ensures n / d >= 1
  {
    DivisionLaw(n, d);
    if n / d <= 0 { MulOrder(n / d, 0, d); }
  }

  lemma DetStep(p0: int, q0: int, p1: int, q1: int, a: int)
    ensures (p0 + a * p1) * q1 - p1 * (q0 + a * q1) == -(p1 * q0 - p0 * q1)
  {
  }

  lemma Rewrite(p0: int, p1: int, n: int, d: int, a: int)
    ensures p1 * n + p0 * d == (p0 + a * p1) * d + p1 * (n - a * d)
  {
  }

  /** A common factor of a reduced fraction is one, so the loop never sees a zero divisor. */
  lemma CommonDivisorOne(x: Fraction, p: int, q: int, d: int)
    requires x.Valid() && d >= 1 && x.num == p * d && x.den == q * d
    ensures d == 1 && q == x.den
  {
    EuclidIsGcd(Abs(x.num), x.den);
    WitnessDivides(d, x.num, p);
    WitnessDivides(d, x.den, q);
    AbsDivides(d, x.num);
    assert Divides(d, 1);
    DivisorWitness(d, 1);
    if d >= 2 {
      var k := 1 / d;
      if k >= 1 { MulOrder(1, k, d); }
    }
  }

  /** When the loop stops, the two candidate bounds bracket x. */
  lemma LoopBracket(x: Fraction, limit: int, p0: int, q0: int, p1: int, q1: int, n: int, d: int, s: int)
    requires x.den >= 1 && 1 <= limit && LoopState(x, limit, p0, q0, p1, q1, n, d, s)
    requires q0 + (n / d) * q1 > limit
    ensures q1 >= 1
    ensures var k := (limit - q0) / q1;
            Bracket(x, p0 + k * p1, q0 + k * q1, p1, q1, s, limit)
  {
    var a := n / d;
    assert a * 0 == 0;
    var k := (limit - q0) / q1;
    StepRange(limit, q0, q1, a, k);
    StepRemainder(n, d, a, k);
    if q0 == 0 {
      FirstStep(limit, q1, k, p1, p0, s);
      MulOrder(1, k, q1);
    }
    BracketIdentities(x, p0, q0, p1, q1, n, d, s, k);
  }

  lemma StepRange(limit: int, q0: int, q1: int, a: int, k: int)
    requires q1 >= 1 && 0 <= q0 <= limit && q0 + a * q1 > limit && k == (limit - q0) / q1
    ensures 0 <= k < a && 0 <= k * q1 && q0 + k * q1 <= limit < q0 + k * q1 + q1
  {
    DivisionLaw(limit - q0, q1);
    if a <= k { MulOrder(a, k, q1); }
    MulOrder(0, k, q1);
  }

  lemma StepRemainder(n: int, d: int, a: int, k: int)
    requires d >= 1 && a == n / d && k < a
    ensures n - k * d >= 1
  {
    DivisionLaw(n, d);
    MulOrder(k + 1, a, d);
    assert (k + 1) * d == k * d + d;
  }

  lemma FirstStep(limit: int, q1: int, k: int, p1: int, p0: int, s: int)
    requires 1 <= limit && q1 >= 1 && k == limit / q1 && q1 <= limit
    ensures k >= 1
  {
    QuotientPositive(limit, q1);
  }

  lemma BracketIdentities(x: Fraction, p0: int, q0: int, p1: int, q1: int, n: int, d: int, s: int, k: int)
    requires d >= 1 && (s == 1 || s == -1) && p1 * q0 - p0 * q1 == s && n - k * d >= 1
    requires x.num == p1 * n + p0 * d && x.den == q1 * n + q0 * d
    ensures p1 * (q0 + k * q1) - (p0 + k * p1) * q1 == s
    ensures s * (x.num * (q0 + k * q1) - (p0 + k * p1) * x.den) > 0
    ensures s * (p1 * x.den - x.num * q1) > 0
  {
    assert x.num * (q0 + k * q1) - (p0 + k * p1) * x.den == (p1 * q0 - p0 * q1) * (n - k * d) by {
      FirstIdentity(p0, q0, p1, q1, n, d, k);
    }
    assert p1 * x.den - x.num * q1 == (p1 * q0 - p0 * q1) * d by { SecondIdentity(p0, q0, p1, q1, n, d); }
    SignSquare(s, n - k * d);
    SignSquare(s, d);
  }

  lemma SignSquare(s: int, m: int)
    requires s == 1 || s == -1
    ensures s * (s * m) == m
  {
  }

  lemma FirstIdentity(p0: int, q0: int, p1: int, q1: int, n: int, d: int, k: int)
    ensures (p1 * n + p0 * d) * (q0 + k * q1) - (p0 + k * p1) * (q1 * n + q0 * d) == (p1 * q0 - p0 * q1) * (n - k * d)
  {
  }

  lemma SecondIdentity(p0: int, q0: int, p1: int, q1: int, n: int, d: int)
    ensures p1 * (q1 * n + q0 * d) - (p1 * n + p0 * d) * q1 == (p1 * q0 - p0 * q1) * d
  {
  }

  // ---------- which of the closest fractions it is ----------

  /** A fraction in lowest terms with the value of a neighbour is that neighbour. */
  lemma OnNeighbour(f: Fraction, bp: int, bq: int, p: int, q: int, s: int)
    requires (s == 1 || s == -1) && p * bq - bp * q == s && q >= 1
    requires f.Valid() && f.num * q == p * f.den
    ensures f == Fraction(p, q)
  {
    var t := f.num * bq - bp * f.den;
    var u := s * t;
    hide Euclid;
    assert s * (p * f.den - f.num * q) == 0;
    DenominatorOf(bp, bq, p, q, s, f.num, f.den, u, 0);
    assert f.den == u * q;
    if u <= 0 { MulOrder(u, 0, q); }
    assert (p * u) * q == p * (u * q);
    CancelRight(f.num, p * u, q);
    assert f.den == q * u;
    CommonDivisorOne(f, p, q, u);
  }

  /** Neighbours are in lowest terms. */
  lemma NeighbourReduced(bp: int, bq: int, p: int, q: int, s: int)
    requires (s == 1 || s == -1) && p * bq - bp * q == s && q >= 1
    ensures Make(p, q) == Ok(Fraction(p, q)) && Fraction(p, q).Valid()
  {
    MakeReduces(p, q);
    hide Make, Euclid;
    OnNeighbour(Make(p, q).value, bp, bq, p, q, s);
  }

  /** A closest fraction is one of the two bounds. */
  lemma ClosestIsBound(x: Fraction, bp: int, bq: int, p: int, q: int, s: int, limit: int, f: Fraction)
    requires x.den >= 1 && Bracket(x, bp, bq, p, q, s, limit) && Closest(x, limit, f)
    ensures f == Fraction(bp, bq) || f == Fraction(p, q)
  {
    var a, b := f.num, f.den;
    var u, w := s * (a * bq - bp * b), s * (p * b - a * q);
    assert Closer(x, a, b, bp, bq) && Closer(x, a, b, p, q);
    hide Closest, Euclid, Closer;
    DenominatorOf(bp, bq, p, q, s, a, b, u, w);
    if u >= 1 && w >= 1 {
      MulOrder(1, u, q);
      MulOrder(1, w, bq);
    }
    if u <= 0 {
      BeyondIsFarther(x, bp, bq, a, b, s, u);
      assert a * bq == bp * b;
      OnNeighbour(f, p, q, bp, bq, -s);
    } else if w <= 0 {
      Turned(s, x.num * q - p * x.den, a * q - p * b);
      BeyondIsFarther(x, p, q, a, b, -s, w);
      assert a * q == p * b;
      OnNeighbour(f, bp, bq, p, q, s);
    }
  }

  lemma Turned(s: int, m: int, n: int)
    ensures (-s) * m == s * -m && (-s) * n == s * -n
  {
  }

  /** Beyond a bound, a fraction that is as close as the bound has its value. */
  lemma BeyondIsFarther(x: Fraction, bp: int, bq: int, a: int, b: int, s: int, u: int)
    requires x.den >= 1 && bq >= 1 && b >= 1 && (s == 1 || s == -1)
    requires u == s * (a * bq - bp * b) && u <= 0 && s * (x.num * bq - bp * x.den) > 0
    requires Closer(x, a, b, bp, bq)
    ensures u == 0
  {
    var e, f := s * (x.num * bq - bp * x.den), s * (x.num * b - a * x.den);
    SignedAbs(s, x.num * bq - bp * x.den);
    SignedAbs(s, x.num * b - a * x.den);
    BeyondIdentity(x.num, x.den, bp, bq, a, b, s);
    var g := Gap(x, a, b);
    assert e == Gap(x, bp, bq) && f <= g && g * bq <= e * b;
    hide Gap, Closer;
    MulOrder(f, g, bq);
    assert x.den * u >= 0;
    if u < 0 { MulOrder(u, -1, x.den); }
  }

  /** When both bounds are as close, the convergent has the smaller denominator, or is the smaller of two integers. */
  lemma TieOrder(x: Fraction, limit: int, p0: int, q0: int, p1: int, q1: int, n: int, d: int, s: int, k: int)
    requires x.den >= 1 && LoopState(x, limit, p0, q0, p1, q1, n, d, s) && q1 >= 1 && 0 <= k && n - k * d >= 1
    requires Closer(x, p0 + k * p1, q0 + k * q1, p1, q1)
    ensures q1 < q0 + k * q1 || (q1 == q0 + k * q1 && p1 <= p0 + k * p1)
  {
    var m := n - k * d;
    var bp, bq := p0 + k * p1, q0 + k * q1;
    assert x.num * bq - bp * x.den == s * m by { FirstIdentity(p0, q0, p1, q1, n, d, k); }
    assert p1 * x.den - x.num * q1 == s * d by { SecondIdentity(p0, q0, p1, q1, n, d); }
    assert Gap(x, bp, bq) == m && Gap(x, p1, q1) == d;
    assert m * q1 <= d * bq;
    hide Closer, Gap;
    if k == 0 {
      assert k * d == 0 && k * q1 == 0;
      MulOrder(d, n, q1);
      MulOrder(q0, q1, d);
    } else {
      MulOrder(1, k, q1);
      if k >= 2 { MulOrder(2, k, q1); }
      if bq == q1 {
        assert q0 == 0 && k == 1;
        assert p1 * q0 == 0;
      }
    }
  }

  /** The closer of two bracketing bounds is a closest fraction. */
  lemma CloserBoundClosest(x: Fraction, bp: int, bq: int, p: int, q: int, s: int, limit: int)
    requires x.den >= 1 && Bracket(x, bp, bq, p, q, s, limit) && Fraction(bp, bq).Valid() && Fraction(p, q).Valid()
    ensures Closer(x, p, q, bp, bq) ==> Closest(x, limit, Fraction(p, q))
    ensures Closer(x, bp, bq, p, q) ==> Closest(x, limit, Fraction(bp, bq))
  {
    forall a: int, b: int | 1 <= b <= limit
      ensures Closer(x, p, q, bp, bq) ==> Closer(x, p, q, a, b)
      ensures Closer(x, bp, bq, p, q) ==> Closer(x, bp, bq, a, b)
    {
      NoneBetween(x, bp, bq, p, q, s, limit, a, b);
      hide Closer;
      if Closer(x, p, q, bp, bq) && Closer(x, bp, bq, a, b) {
        CloserTransitive(x, p, q, bp, bq, a, b);
      }
      if Closer(x, bp, bq, p, q) && Closer(x, p, q, a, b) {
        CloserTransitive(x, bp, bq, p, q, a, b);
      }
    }
  }

  /** The bound that the comparison chooses is the first of the closest fractions. */
  lemma ChosenBound(x: Fraction, limit: int, p0: int, q0: int, p1: int, q1: int, n: int, d: int, s: int)
    requires x.den >= 1 && 1 <= limit && LoopState(x, limit, p0, q0, p1, q1, n, d, s)
    requires q0 + (n / d) * q1 > limit && q1 >= 1
    ensures var k := (limit - q0) / q1;
            var bound1, bound2 := Fraction(p0 + k * p1, q0 + k * q1), Fraction(p1, q1);
            && Make(p0 + k * p1, q0 + k * q1) == Ok(bound1) && Make(p1, q1) == Ok(bound2)
            && bound1.den >= 1
            && (Closer(x, bound2.num, bound2.den, bound1.num, bound1.den) ==> FirstClosest(x, limit, bound2))
            && (!Closer(x, bound2.num, bound2.den, bound1.num, bound1.den) ==> FirstClosest(x, limit, bound1))
  {
    var k := (limit - q0) / q1;
    var bp, bq := p0 + k * p1, q0 + k * q1;
    var bound1, bound2 := Fraction(bp, bq), Fraction(p1, q1);
    LoopBracket(x, limit, p0, q0, p1, q1, n, d, s);
    StepRange(limit, q0, q1, n / d, k);
    StepRemainder(n, d, n / d, k);
    NeighbourReduced(p1, q1, bp, bq, -s);
    NeighbourReduced(bp, bq, p1, q1, s);
    CloserBoundClosest(x, bp, bq, p1, q1, s, limit);
    if Closer(x, bp, bq, p1, q1) {
      TieOrder(x, limit, p0, q0, p1, q1, n, d, s, k);
    }
    forall f: Fraction | Closest(x, limit, f) ensures f == bound1 || f == bound2 {
      ClosestIsBound(x, bp, bq, p1, q1, s, limit, f);
    }
    EitherFirst(x, limit, bound1, bound2);
  }

  lemma EitherFirst(x: Fraction, limit: int, bound1: Fraction, bound2: Fraction)
    requires bound1.Valid() && bound2.Valid() && bound1.den <= limit && bound2.den <= limit
    requires forall f: Fraction | Closest(x, limit, f) :: f == bound1 || f == bound2
    requires Closer(x, bound2.num, bound2.den, bound1.num, bound1.den) ==> Closest(x, limit, bound2)
    requires Closer(x, bound1.num, bound1.den, bound2.num, bound2.den)
      ==> Closest(x, limit, bound1)
          && (bound2.den < bound1.den || (bound2.den == bound1.den && bound2.num <= bound1.num))
    ensures Closer(x, bound2.num, bound2.den, bound1.num, bound1.den) ==> FirstClosest(x, limit, bound2)
    ensures !Closer(x, bound2.num, bound2.den, bound1.num, bound1.den) ==> FirstClosest(x, limit, bound1)
  {
  }

  /**
   `limit_denominator`: the continued fraction loop terminates, never divides by
   zero, and returns a fraction that no other within the limit beats, the first one where several are as close.
   */
  method LimitDenominator(self: Fraction, limit: int) returns (r: Result<Fraction>)
    requires self.Valid()
    ensures limit < 1 ==> r == ValueError
    ensures limit >= 1 ==> r.Ok? && FirstClosest(self, limit, r.value)
    ensures 1 <= limit && self.den <= limit ==> r == Ok(self)
  {
    hide FirstClosest, Closer, Make, Distance, Compare, Bracket, Euclid;
    if limit < 1 {
      return ValueError;
    }
    if self.den <= limit {
      SelfClosest(self, limit);
      return Make(self.num, self.den);
    }
    var p0, q0, p1, q1 := 0, 1, 1, 0;
    var n, d := self.num, self.den;
    ghost var s := 1;
    while true
      invariant LoopState(self, limit, p0, q0, p1, q1, n, d, s)
      decreases d
    {
      var a := n / d;
      var q2 := q0 + a * q1;
      if q2 > limit {
        break;
      }
      LoopStep(self, limit, p0, q0, p1, q1, n, d, s, a);
      p0, q0, p1, q1 := p1, q1, p0 + a * p1, q2;
      n, d := d, n - a * d;
      s := -s;
    }
    LoopBracket(self, limit, p0, q0, p1, q1, n, d, s);
    ChosenBound(self, limit, p0, q0, p1, q1, n, d, s);
    var k := (limit - q0) / q1;
    var bound1 := Make(p0 + k * p1, q0 + k * q1).value;
    var bound2 := Make(p1, q1).value;
    CompareDistances(bound2, bound1, self);
    if Compare(Distance(bound2, self).value, Distance(bound1, self).value) <= 0 {
      r := Ok(bound2);
    } else {
      r := Ok(bound1);
    }
  }

  lemma SelfClosest(self: Fraction, limit: int)
    requires self.Valid() && self.den <= limit
    ensures Make(self.num, self.den) == Ok(self) && FirstClosest(self, limit, self)
  {
    assert Gap(self, self.num, self.den) == 0;
    forall f: Fraction | Closest(self, limit, f) ensures f == self {
      NoGap(self, limit, f);
    }
    forall a: int, b: int | 1 <= b <= limit
      ensures Closer(self, self.num, self.den, a, b)
    {
      MulOrder(0, Gap(self, a, b), self.den);
    }
  }

  lemma {:induction false} EuclidScaled(a: nat, b: nat, k: nat)
    requires k >= 1
    ensures 0 <= a * k && 0 <= b * k && Euclid(a * k, b * k) == Euclid(a, b) * k
    decreases b
  {
    MulOrder(0, a, k);
    MulOrder(0, b, k);
    if b != 0 {
      var r := a % b;
      DivisionLaw(a, b);
      MulOrder(0, r, k);
      MulOrder(1, b, k);
      MulOrder(r, b, k);
      assert a * k == (a / b) * (b * k) + r * k by { assert ((a / b) * b) * k == (a / b) * (b * k); }
      DivModUnique(a * k, b * k, a / b, r * k);
      EuclidScaled(b, r, k);
    } else {
      assert b * k == 0;
    }
  }

  /** The denominator of a reduced fraction divides that of any equal one. */
  lemma DenominatorDivides(f: Fraction, p: int, q: int)
    requires f.Valid() && q >= 1 && f.num * q == p * f.den
    ensures Divides(f.den, q)
  {
    var n, d := Abs(f.num), f.den;
    EuclidScaled(n, d, q);
    ProductPositive(d, q);
    EuclidIsGcd(n * q, d * q);
    AbsProduct(f.num, q);
    AbsProduct(p, d);
    WitnessDivides(d, n * q, Abs(p));
    WitnessDivides(d, d * q, q);
    hide Euclid;
    assert (n * q) % d == 0 && (d * q) % d == 0;
    assert Euclid(n, d) * q == q;
  }

  lemma MutualFactors(d: int, q: int, i: int, j: int)
    requires d >= 1 && q >= 1 && q == d * i && d == q * j
    ensures d == q
  {
    if i <= 0 { MulOrder(i, 0, d); }
    if j <= 0 { MulOrder(j, 0, q); }
    MulOrder(1, i, d);
    MulOrder(1, j, q);
  }

  /** Two fractions in lowest terms with the same value are the same. */
  lemma ReducedUnique(f: Fraction, g: Fraction)
    requires f.Valid() && g.Valid() && f.num * g.den == g.num * f.den
    ensures f == g
  {
    DenominatorDivides(f, g.num, g.den);
    DenominatorDivides(g, f.num, f.den);
    DivisorWitness(f.den, g.den);
    DivisorWitness(g.den, f.den);
    MutualFactors(f.den, g.den, g.den / f.den, f.den / g.den);
    CancelRight(f.num, g.num, f.den);
  }

  /** Only the fraction itself has no distance to it. */
  lemma NoGap(self: Fraction, limit: int, f: Fraction)
    requires self.Valid() && self.den <= limit && Closest(self, limit, f)
    ensures f == self
  {
    assert Closer(self, f.num, f.den, self.num, self.den);
    assert Gap(self, self.num, self.den) == 0;
    hide Euclid;
    var g := Gap(self, f.num, f.den);
    if g >= 1 { MulOrder(1, g, self.den); }
    ReducedUnique(self, f);
  }
}
