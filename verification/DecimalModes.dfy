/**
 What each rounding mode promises, in terms of representable values and of the last place, beside the nearest values
 of the half modes and the bounds of the ceiling and the floor.
 */
module DecimalModes {
  import opened Digits
  import opened DecimalCore
  import opened DecimalSpec
  import opened DecimalFix
  import opened DecimalMeaning

  /** Down: the greatest representable magnitude that the exact one reaches. */
  lemma DownGreatest(c: Settings, neg: bool, v: Exact, d: Decimal, r: Decimal)
    requires c.Valid() && c.rounding == Down && v.Above(0.0) && CorrectlyRounded(c, neg, v, d)
    requires r.Finite? && Representable(c, r) && v.AtLeast(r.Magnitude())
    ensures d.Finite? && d.neg == neg && v.AtLeast(d.Magnitude()) && r.Magnitude() <= d.Magnitude()
  {
    var lo, hi :| Neighbours(c, v, lo, hi) && RoundedBetween(c, neg, v, lo, hi, d);
    RepresentableOnGrid(c, r);
    hide OnGrid, Largest, Decimal.Magnitude, Exact.AtLeast, Exact.Above;
    if d.Magnitude() < lo {
      ExactOrder(v, d.Magnitude(), lo);
    }
  }

  /** Up: the least representable magnitude that the exact one does not exceed, or an infinity. */
  lemma UpLeast(c: Settings, neg: bool, v: Exact, d: Decimal)
    requires c.Valid() && c.rounding == Up && v.Above(0.0) && CorrectlyRounded(c, neg, v, d)
    ensures d.neg == neg && (d.Finite? ==> !v.Above(d.Magnitude()))
    ensures forall r: Decimal | r.Finite? && Representable(c, r) && !v.Above(r.Magnitude()) ::
              d.Finite? && d.Magnitude() <= r.Magnitude()
  {
    var lo, hi :| Neighbours(c, v, lo, hi) && RoundedBetween(c, neg, v, lo, hi, d);
    forall r: Decimal | r.Finite? && Representable(c, r) && !v.Above(r.Magnitude())
      ensures d.Finite? && d.Magnitude() <= r.Magnitude()
    {
      RepresentableOnGrid(c, r);
      hide OnGrid, Largest, Decimal.Magnitude, Exact.AtLeast, Exact.Above;
    }
    hide OnGrid, Largest, Decimal.Magnitude, Exact.AtLeast, Exact.Above;
  }

  /** A tie between two representable magnitudes goes away from zero in HalfUp, and towards it in HalfDown. */
  lemma HalfTies(c: Settings, neg: bool, v: Exact, d: Decimal, r: Decimal)
    requires c.Valid() && (c.rounding == HalfUp || c.rounding == HalfDown) && v.Above(0.0)
    requires CorrectlyRounded(c, neg, v, d) && d.Finite? && r.Finite? && Representable(c, r)
    requires d.Magnitude() != r.Magnitude() && v.Equals((d.Magnitude() + r.Magnitude()) / 2.0)
    ensures c.rounding == HalfUp <==> r.Magnitude() < d.Magnitude()
  {
    var lo, hi :| Neighbours(c, v, lo, hi) && RoundedBetween(c, neg, v, lo, hi, d);
    RepresentableOnGrid(c, r);
    RepresentableOnGrid(c, d);
    hide OnGrid, Largest, Units, Chosen, Decimal.Magnitude, Exact.AtLeast, Exact.Above;
    TieChosen(c, neg, v, lo, hi, d.Magnitude(), r.Magnitude());
  }

  lemma TieChosen(c: Settings, neg: bool, v: Exact, lo: real, hi: real, m: real, n: real)
    requires (c.rounding == HalfUp || c.rounding == HalfDown) && v.Above(0.0) && lo <= hi
    requires v.AtLeast(lo) && !v.Above(hi) && m == Chosen(c.rounding, neg, v, lo, hi)
    requires (v.AtLeast(n) ==> n <= lo) && (!v.Above(n) ==> hi <= n)
    requires m != n && v.Equals((m + n) / 2.0)
    ensures c.rounding == HalfUp <==> n < m
  {
    var mid, half := (m + n) / 2.0, (lo + hi) / 2.0;
    TieSides(v, m, n);
    hide Exact.AtLeast, Exact.Above, Units;
    ExactOrder(v, half, half);
    if m < n {
      ExactOrder(v, n, n);
      assert hi <= n;
      ExactOrder(v, half, mid);
    } else {
      ExactOrder(v, n, n);
      assert n <= lo;
      ExactOrder(v, mid, half);
    }
  }

  /** A value in the middle of two others reaches the smaller and not the larger one. */
  lemma TieSides(v: Exact, m: real, n: real)
    requires v.Above(0.0) && m != n && v.Equals((m + n) / 2.0)
    ensures m < n ==> v.Above(m) && !v.AtLeast(n)
    ensures n < m ==> v.Above(n) && !v.AtLeast(m)
  {
    var mid := (m + n) / 2.0;
    hide Exact.AtLeast, Exact.Above;
    if m < n {
      ExactOrder(v, m, mid);
      ExactOrder(v, mid, n);
    } else {
      ExactOrder(v, n, mid);
      ExactOrder(v, mid, m);
    }
  }

  /** Without overflow the result is one of the two neighbours, in units of the last place. */
  lemma ResultInUnits(c: Settings, neg: bool, v: Exact, g: int, q: nat, d: Decimal) returns (n: nat)
    requires c.Valid() && Located(c, v, g, q) && CorrectlyRounded(c, neg, v, d) && d.Finite?
    requires Scaled(q + 1, g) <= Largest(c)
    ensures d.Magnitude() == Scaled(n, g) && (n == q || n == q + 1) && (v.Equals(Scaled(q, g)) ==> n == q)
    ensures !v.Equals(Scaled(q, g)) ==> (n == q + 1 <==> MovesAway(c.rounding, neg, q, HalfSide(v, g, q)))
  {
    var lo, hi :| Neighbours(c, v, lo, hi) && RoundedBetween(c, neg, v, lo, hi, d);
    LocatedNeighbours(c, v, g, q);
    var hi' := if v.Equals(Scaled(q, g)) then Scaled(q, g) else Scaled(q + 1, g);
    NeighboursUnique(c, v, lo, hi, Scaled(q, g), hi');
    ScaledOrder(q, q + 1, g);
    ChosenInUnits(c.rounding, neg, v, g, q);
    hide Scaled, Neighbours, Largest, Chosen, HalfSide, MovesAway, Exact.AtLeast, Exact.Above, Decimal.Magnitude;
    n := if v.Equals(Scaled(q, g)) then q else if MovesAway(c.rounding, neg, q, HalfSide(v, g, q)) then q + 1 else q;
  }

  /** HalfEven: a tie gives an even number of units in the last place. */
  lemma EvenTie(c: Settings, neg: bool, v: Exact, g: int, q: nat, d: Decimal) returns (n: nat)
    requires c.Valid() && c.rounding == HalfEven && Located(c, v, g, q) && CorrectlyRounded(c, neg, v, d) && d.Finite?
    requires Scaled(q + 1, g) <= Largest(c) && v.Equals((Scaled(q, g) + Scaled(q + 1, g)) / 2.0)
    ensures d.Magnitude() == Scaled(n, g) && (n == q || n == q + 1) && n % 2 == 0
  {
    LocatedPositive(c, v, g, q);
    hide *;
    n := ResultInUnits(c, neg, v, g, q, d);
    TieSide(v, g, q);
    EvenMoves(neg, q, n);
  }

  lemma LocatedPositive(c: Settings, v: Exact, g: int, q: nat)
    requires c.Valid() && Located(c, v, g, q)
    ensures v.Above(0.0)
  {
  }

  lemma EvenMoves(neg: bool, q: nat, n: nat)
    requires (n == q || n == q + 1) && (n == q + 1 <==> MovesAway(HalfEven, neg, q, 0))
    ensures n % 2 == 0
  {
  }

  lemma TieSide(v: Exact, g: int, q: nat)
    requires v.Above(0.0) && v.Equals((Scaled(q, g) + Scaled(q + 1, g)) / 2.0)
    ensures HalfSide(v, g, q) == 0 && !v.Equals(Scaled(q, g))
  {
    ScaledOrder(q, q + 1, g);
    MidPoint(g, q);
    hide Scaled, Exact.AtLeast, Exact.Above;
    TieSides(v, Scaled(q, g), Scaled(q + 1, g));
  }

  /** ZeroFiveUp: an inexact result is truncated, unless that would end in 0 or 5; then it is one unit more. */
  lemma NeverZeroOrFive(c: Settings, neg: bool, v: Exact, g: int, q: nat, d: Decimal) returns (n: nat)
    requires c.Valid() && c.rounding == ZeroFiveUp && Located(c, v, g, q) && CorrectlyRounded(c, neg, v, d) && d.Finite?
    requires Scaled(q + 1, g) <= Largest(c) && !v.Equals(Scaled(q, g))
    ensures d.Magnitude() == Scaled(n, g) && (n == q || n == q + 1) && n % 5 != 0 && (q % 5 != 0 ==> n == q)
  {
    n := ResultInUnits(c, neg, v, g, q, d);
    hide Scaled, Largest, Exact.AtLeast, Exact.Above, Decimal.Magnitude;
  }

  /**
   Beyond the largest magnitude by a whole unit: the half modes and Up give an infinity, Down and ZeroFiveUp do not.
   */
  lemma FarOverflow(c: Settings, neg: bool, v: Exact, d: Decimal)
    requires c.Valid() && v.Above(0.0) && CorrectlyRounded(c, neg, v, d) && v.AtLeast(Ten(c.emax + 1))
    ensures c.rounding in {HalfUp, HalfDown, HalfEven, Up} ==> d == Infinity(neg)
    ensures c.rounding in {Down, ZeroFiveUp} ==> d.Finite? && d.neg == neg && d.Magnitude() == Largest(c)
  {
    var lo, hi :| Neighbours(c, v, lo, hi) && RoundedBetween(c, neg, v, lo, hi, d);
    LargestBelowTen(c);
    TenOnGrid(c);
    assert Ten(c.emax + 1) <= lo;
    hide OnGrid, Units, Largest, Decimal.Magnitude, Exact.AtLeast, Exact.Above, Ten;
  }

  lemma LargestBelowTen(c: Settings)
    requires c.Valid()
    ensures Largest(c) < Ten(c.emax + 1)
  {
    TenShift(c.Etop(), c.prec);
    ScaledOrder(Pow10(c.prec) - 1, Pow10(c.prec), c.Etop());
  }

  lemma TenOnGrid(c: Settings)
    requires c.Valid()
    ensures OnGrid(c, Ten(c.emax + 1))
  {
    UnitScaled(c.emax + 1);
    Pow10Monotone(1, c.prec);
    assert Pow10(1) == 10 * Pow10(0);
    assert PointOf(c, 1, c.emax + 1);
  }
}
