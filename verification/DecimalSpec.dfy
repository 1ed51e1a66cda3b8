/**
 What "correctly rounded" means, independently of how `_fix` computes it: the
 exact magnitude is compared with the two neighbouring points of the grid of
 representable magnitudes.
 */
module DecimalSpec {
  import opened Arithmetic
  import opened Digits
  import opened DecimalCore

  /**
   An exact positive magnitude: a real number, or the square root of one.  A
   root is known only through comparisons, which is all that rounding needs.
   */
  datatype Exact = Ratio(value: real) | Root(square: real) {
    /** r <= the magnitude */
    predicate AtLeast(r: real) {
      match this
      case Ratio(x) => r <= x
      case Root(x) => r <= 0.0 || Square(r) <= x
    }

    /** r < the magnitude */
    predicate Above(r: real) {
      match this
      case Ratio(x) => r < x
      case Root(x) => r < 0.0 || Square(r) < x
    }

    predicate Equals(r: real) {
      AtLeast(r) && !Above(r)
    }
  }

  function Square(a: real): real {
    a * a
  }

  lemma SquareOrder(a: real, b: real)
    requires 0.0 <= a <= b
    ensures Square(a) <= Square(b)
    ensures a < b ==> Square(a) < Square(b)
  {
    var d, s := b - a, b + a;
    assert d * s == b * b - a * a;
    SignOfProduct(d, s);
  }

  lemma SignOfProduct(d: real, s: real)
    requires 0.0 <= d && 0.0 <= s
    ensures 0.0 <= d * s
    ensures 0.0 < d && 0.0 < s ==> 0.0 < d * s
  {
  }

  lemma ExactOrder(v: Exact, a: real, b: real)
    requires a <= b && v.Above(0.0)
    ensures v.AtLeast(b) ==> v.AtLeast(a)
    ensures v.Above(b) ==> v.Above(a)
    ensures a < b && v.AtLeast(b) ==> v.Above(a)
    ensures v.Above(a) ==> v.AtLeast(a)
  {
    if v.Root? && 0.0 <= a {
      SquareOrder(a, b);
    }
  }

  // ---------- the grid ----------

  predicate PointOf(c: Settings, m: nat, x: int) {
    1 <= c.prec && m < Pow10(c.prec) && c.Etiny() <= x
  }

  /** Magnitudes with at most `prec` digits and no upper limit on the exponent. */
  ghost predicate OnGrid(c: Settings, r: real) {
    exists m: nat, x: int :: PointOf(c, m, x) && r == Scaled(m, x)
  }

  /** The largest finite magnitude: `prec` nines at Etop. */
  function Largest(c: Settings): real
    requires c.Valid()
  {
    Scaled(Pow10(c.prec) - 1, c.Etop())
  }

  /** `lo` and `hi` are the grid points nearest to `v` from below and from above. */
  ghost predicate Neighbours(c: Settings, v: Exact, lo: real, hi: real) {
    && OnGrid(c, lo) && OnGrid(c, hi)
    && v.AtLeast(lo) && !v.Above(hi)
    && (forall r: real | OnGrid(c, r) :: (v.AtLeast(r) ==> r <= lo) && (!v.Above(r) ==> hi <= r))
  }

  lemma NeighboursUnique(c: Settings, v: Exact, lo: real, hi: real, lo': real, hi': real)
    requires Neighbours(c, v, lo, hi) && Neighbours(c, v, lo', hi')
    ensures lo == lo' && hi == hi'
  {
  }

  /** The coefficient of `lo` in units of the gap between the neighbours. */
  function Units(lo: real, hi: real): int
    requires lo < hi
  {
    (lo / (hi - lo)).Floor
  }

  /** The neighbour that the rounding mode asks for. */
  function Chosen(mode: Rounding, neg: bool, v: Exact, lo: real, hi: real): real
    requires lo <= hi
  {
    if lo == hi then lo else
    var mid := (lo + hi) / 2.0;
    match mode
    case Down => lo
    case Up => hi
    case Ceiling => if neg then lo else hi
    case Floor => if neg then hi else lo
    case HalfUp => if v.AtLeast(mid) then hi else lo
    case HalfDown => if v.Above(mid) then hi else lo
    case HalfEven =>
      if v.Above(mid) then hi else if !v.AtLeast(mid) then lo
      else if Units(lo, hi) % 2 == 0 then lo else hi
    case ZeroFiveUp => if Units(lo, hi) % 5 == 0 then hi else lo
  }

  /** Whether an overflow in this direction gives an infinity. */
  predicate OverflowsToInfinity(mode: Rounding, neg: bool) {
    match mode
    case HalfUp | HalfEven | HalfDown | Up => true
    case Ceiling => !neg
    case Floor => neg
    case Down | ZeroFiveUp => false
  }

  predicate Representable(c: Settings, d: Decimal)
    requires c.Valid()
  {
    match d
    case Infinity(_) => true
    case NaN(_, p, _) => |p| <= c.prec - (if c.clamp then 1 else 0)
    case Finite(_, s, x) =>
      && d.Valid() && |s| <= c.prec && c.Etiny() <= x
      && x <= (if c.clamp then c.Etop() else c.emax)
      && (s != "0" ==> d.Adjusted() <= c.emax)
  }

  /** `d` is the exact magnitude `v` with sign `neg`, rounded once into the context. */
  ghost predicate CorrectlyRounded(c: Settings, neg: bool, v: Exact, d: Decimal)
    requires c.Valid()
  {
    && Representable(c, d)
    && exists lo: real, hi: real :: Neighbours(c, v, lo, hi) && RoundedBetween(c, neg, v, lo, hi, d)
  }

  predicate RoundedBetween(c: Settings, neg: bool, v: Exact, lo: real, hi: real, d: Decimal)
    requires c.Valid()
  {
    lo <= hi &&
    var r := Chosen(c.rounding, neg, v, lo, hi);
    if r <= Largest(c) then
      d.Finite? && d.neg == neg && d.Valid() && d.Magnitude() == r
    else if OverflowsToInfinity(c.rounding, neg) then
      d == Infinity(neg)
    else
      d.Finite? && d.neg == neg && d.Valid() && d.Magnitude() == Largest(c)
  }

  // ---------- finding the neighbours ----------

  /** `v` lies in [q, q+1) units of 10^g, where 10^g is the unit in the last place at `v`. */
  ghost predicate Located(c: Settings, v: Exact, g: int, q: nat)
    requires c.Valid()
  {
    && v.Above(0.0) && c.Etiny() <= g && q < Pow10(c.prec)
    && (g == c.Etiny() || Pow10(c.prec - 1) <= q)
    && v.AtLeast(Scaled(q, g)) && !v.AtLeast(Scaled(q + 1, g))
  }

  /** A grid point below the unit exponent lies below the whole unit row. */
  lemma FinePoint(c: Settings, v: Exact, g: int, q: nat, m: nat, x: int)
    requires c.Valid() && Located(c, v, g, q) && PointOf(c, m, x) && x < g
    ensures Scaled(m, x) < Scaled(q, g)
  {
    ScaledMagnitude(m, x, c.prec, g + (c.prec - 1));
    TenShift(g, c.prec - 1);
    ScaledOrder(Pow10(c.prec - 1), q, g);
  }

  /** A grid point at or above the unit exponent is a whole number of units. */
  lemma CoarsePoint(v: Exact, g: int, q: nat, m: nat, x: int)
    requires v.Above(0.0) && v.AtLeast(Scaled(q, g)) && !v.AtLeast(Scaled(q + 1, g)) && g <= x
    ensures v.AtLeast(Scaled(m, x)) ==> Scaled(m, x) <= Scaled(q, g)
    ensures !v.AtLeast(Scaled(m, x)) ==> Scaled(q + 1, g) <= Scaled(m, x)
    ensures !v.Above(Scaled(m, x)) && v.AtLeast(Scaled(m, x)) ==> Scaled(m, x) == Scaled(q, g)
  {
    hide Scaled, Exact.AtLeast, Exact.Above;
    ScaledShift(m, x, g);
    var n := m * Pow10(x - g);
    if n <= q {
      ScaledOrder(n, q, g);
      ExactOrder(v, Scaled(n, g), Scaled(q, g));
    } else {
      ScaledOrder(q + 1, n, g);
      ExactOrder(v, Scaled(q + 1, g), Scaled(n, g));
    }
  }

  lemma NextOnGrid(c: Settings, g: int, q: nat)
    requires c.Valid() && c.Etiny() <= g && q < Pow10(c.prec)
    ensures OnGrid(c, Scaled(q, g)) && OnGrid(c, Scaled(q + 1, g))
  {
    assert PointOf(c, q, g);
    if q + 1 < Pow10(c.prec) {
      assert PointOf(c, q + 1, g);
    } else {
      ScaledShift(Pow10(c.prec - 1), g + 1, g);
      assert Pow10(1) == 10 * Pow10(0);
      Pow10Monotone(c.prec - 1, c.prec);
      assert PointOf(c, Pow10(c.prec - 1), g + 1);
    }
  }

  lemma LocatedNeighbours(c: Settings, v: Exact, g: int, q: nat)
    requires c.Valid() && Located(c, v, g, q)
    ensures var lo := Scaled(q, g);
            Neighbours(c, v, lo, if v.Equals(lo) then lo else Scaled(q + 1, g))
  {
    var lo, up := Scaled(q, g), Scaled(q + 1, g);
    var hi := if v.Equals(lo) then lo else up;
    NextOnGrid(c, g, q);
    ScaledOrder(q, q + 1, g);
    ExactOrder(v, lo, up);
    ExactOrder(v, up, up);
    forall r: real | OnGrid(c, r)
      ensures (v.AtLeast(r) ==> r <= lo) && (!v.Above(r) ==> hi <= r)
    {
      var m: nat, x: int :| PointOf(c, m, x) && r == Scaled(m, x);
      if x < g {
        FinePoint(c, v, g, q, m, x);
        ExactOrder(v, r, lo);
      } else {
        CoarsePoint(v, g, q, m, x);
      }
    }
  }

  // ---------- the choice, in units ----------

  /** Compares `v` with the midpoint between q and q+1 units. */
  function HalfSide(v: Exact, g: int, q: int): int {
    var mid := Scaled(5 * (2 * q + 1), g - 1);
    if v.Above(mid) then 1 else if v.AtLeast(mid) then 0 else -1
  }

  lemma MidPoint(g: int, q: int)
    ensures (Scaled(q, g) + Scaled(q + 1, g)) / 2.0 == Scaled(5 * (2 * q + 1), g - 1)
  {
    TenStep(g - 1);
    var t := Ten(g - 1);
    assert Ten(g) == 10.0 * t;
    hide Ten;
    RealScale(q as real, t, 10.0);
    RealScale((q + 1) as real, t, 10.0);
  }

  lemma UnitsOf(g: int, q: nat)
    ensures Scaled(q, g) < Scaled(q + 1, g)
    ensures Units(Scaled(q, g), Scaled(q + 1, g)) == q
  {
    ScaledOrder(q, q + 1, g);
    var t := Ten(g);
    assert Scaled(q + 1, g) - Scaled(q, g) == t;
    Quotient(q as real, t);
  }

  lemma Quotient(q: real, t: real)
    requires t > 0.0
    ensures (q * t) / t == q
  {
  }

  lemma ChosenInUnits(mode: Rounding, neg: bool, v: Exact, g: int, q: nat)
    requires v.Above(0.0)
    ensures Scaled(q, g) < Scaled(q + 1, g)
    ensures Chosen(mode, neg, v, Scaled(q, g), Scaled(q + 1, g)) ==
            Scaled(if MovesAway(mode, neg, q, HalfSide(v, g, q)) then q + 1 else q, g)
  {
    UnitsOf(g, q);
    MidPoint(g, q);
    var mid := Scaled(5 * (2 * q + 1), g - 1);
    ExactOrder(v, mid, mid);
    hide Scaled, Units, Exact.Above, Exact.AtLeast;
  }
}
