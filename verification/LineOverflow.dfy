/** Exactly which lines `draw_line` can draw in 32-bit arithmetic. The error term
    takes every multiple of the sides' common divisor within half a pixel, so its
    extremes, and with them the overflow, can be read off the two sides. */
module LineOverflow {
  import opened Bresenham
  import opened Chunks
  import opened Words

  predicate PointFits(p: Point) { FitsI32(p.0) && FitsI32(p.1) }

  // ----------------------------------------------------- common divisors

  function Gcd(a: nat, b: nat): (g: nat)
    requires a > 0 || b > 0
    ensures g > 0
    decreases a + b
  {
    if b == 0 then a
    else if a == 0 then b
    else if a >= b then Gcd(a - b, b)
    else Gcd(a, b - a)
  }

  /** `a` and `b` in units of `g` are `l` and `s`, which combine to 1. */
  predicate InUnits(a: nat, b: nat, g: nat, l: nat, s: nat, u: int, v: int) {
    a == g * l && b == g * s && u * s + v * l == 1
  }

  /** Both numbers in units of their greatest common divisor. */
  lemma {:induction false} Reduced(a: nat, b: nat) returns (l: nat, s: nat, u: int, v: int)
    requires a > 0 || b > 0
    ensures InUnits(a, b, Gcd(a, b), l, s, u, v)
    decreases a + b
  {
    if b == 0 {
      l, s, u, v := 1, 0, 0, 1;
    } else if a == 0 {
      l, s, u, v := 0, 1, 1, 0;
    } else if a >= b {
      l, s, u, v := Reduced(a - b, b);
      AddBack(a - b, b, Gcd(a, b), l, s, u, v);
      l, u := l + s, u - v;
    } else {
      l, s, u, v := Reduced(a, b - a);
      AddBack(b - a, a, Gcd(a, b), s, l, v, u);
      s, v := s + l, v - u;
    }
  }

  lemma AddBack(a: nat, b: nat, g: nat, l: nat, s: nat, u: int, v: int)
    requires InUnits(a, b, g, l, s, u, v)
    ensures InUnits(a + b, b, g, l + s, s, u - v, v)
  {
    assert g * (l + s) == g * l + g * s;
    assert (u - v) * s + v * (l + s) == u * s + v * l;
  }

  /** Some multiple of `s` below `l` steps leaves any wanted remainder. */
  lemma Congruent(l: nat, s: nat, u: int, v: int, t: int) returns (k: nat, c: int)
    requires l > 0 && u * s + v * l == 1
    ensures k < l && k * s == t + c * l
  {
    k := (u * t) % l;
    var m := (u * t) / l;
    c := -(t * v) - m * s;
    Residue(l, s, u, v, t, k, m);
  }

  lemma Residue(l: int, s: int, u: int, v: int, t: int, k: int, m: int)
    requires u * s + v * l == 1 && u * t == m * l + k
    ensures k * s == t + (-(t * v) - m * s) * l
  {
    assert k * s == t * (u * s) - m * s * l by { assert k == u * t - m * l; Multiply(u, t, m, l, s); }
    assert t * (u * s) == t - t * v * l by { assert u * s == 1 - v * l; }
  }

  lemma Multiply(u: int, t: int, m: int, l: int, s: int)
    ensures (u * t - m * l) * s == t * (u * s) - m * s * l
  {
  }

  lemma SameInWindow(l: int, e: int, t: int, c: int)
    requires l > 0 && e == t + c * l && -l < e - t < l
    ensures e == t
  {
    assert c >= 1 ==> c * l >= l;
    assert c <= -1 ==> c * l <= -l;
  }

  lemma MulSign(g: int, d: int)
    requires g > 0
    ensures d >= 0 ==> g * d >= 0
    ensures d >= 1 ==> g * d >= g
    ensures d <= -1 ==> g * d <= -g
  {
    assert d >= 1 ==> g * (d - 1) >= 0;
    assert d <= -1 ==> g * (-d - 1) >= 0;
  }

  lemma Factor(g: int, p: int, q: int, l: int, s: int)
    ensures p * (g * l) - q * (g * s) == g * (p * l - q * s)
  {
  }

  // ------------------------------------------- the error term of a line

  /** Deviations of a line at least as wide as high: up to half a side. */
  predicate WideWindow(l: int, e: int) { -l < 2 * e <= l }

  /** Deviations of a line higher than wide. */
  predicate HighWindow(l: int, e: int) { -l <= 2 * e < l }

  lemma UpToHalf(g: int, l: int, e: int)
    requires g > 0
    ensures 2 * (g * e) <= g * l <==> 2 * e <= l
    ensures 2 * (g * e) < g * l <==> 2 * e < l
  {
    assert g * l - 2 * (g * e) == g * (l - 2 * e);
    MulSign(g, l - 2 * e);
  }

  lemma ScaledWindows(g: int, l: int, e: int)
    requires g > 0
    ensures WideWindow(g * l, g * e) <==> WideWindow(l, e)
    ensures HighWindow(g * l, g * e) <==> HighWindow(l, e)
  {
    UpToHalf(g, l, e);
    UpToHalf(g, l, -e);
    assert g * -e == -(g * e);
  }

  lemma UnitOrder(g: nat, l: nat, s: nat)
    requires g > 0
    ensures g * s <= g * l <==> s <= l
  {
    assert g * l - g * s == g * (l - s);
    MulSign(g, l - s);
  }

  /** A line at least as wide as high, its sides in units of a divisor. */
  ghost predicate Wide(a: Point, b: Point, g: nat, l: nat, s: nat) {
    g > 0 && l > 0 && Abs(b.0 - a.0) == g * l && Abs(b.1 - a.1) == g * s && s <= l
  }

  /** A line higher than wide. */
  ghost predicate High(a: Point, b: Point, g: nat, l: nat, s: nat) {
    g > 0 && l > 0 && Abs(b.1 - a.1) == g * l && Abs(b.0 - a.0) == g * s && s < l
  }

  lemma WideLength(a: Point, b: Point, g: nat, l: nat, s: nat)
    requires Wide(a, b, g, l, s)
    ensures Length(a, b) == g * l >= l && Abs(b.1 - a.1) <= Abs(b.0 - a.0)
  {
    UnitOrder(g, l, s);
    MulSign(l, g);
  }

  lemma HighLength(a: Point, b: Point, g: nat, l: nat, s: nat)
    requires High(a, b, g, l, s)
    ensures Length(a, b) == g * l >= l && Abs(b.1 - a.1) > Abs(b.0 - a.0)
  {
    UnitOrder(g, s, l);
    MulSign(l, g);
  }

  /** Deviation after `k` rounds, with the steps taken along the shorter side. */
  lemma WideDeviation(a: Point, b: Point, k: nat) returns (d: int, j: int)
    requires Abs(b.1 - a.1) <= Abs(b.0 - a.0) && 0 < Length(a, b) && k <= Length(a, b)
    ensures d == j * Abs(b.0 - a.0) - k * Abs(b.1 - a.1) && WideWindow(Abs(b.0 - a.0), d)
    ensures Round(a, b, k).1 == d + Abs(b.0 - a.0) - Abs(b.1 - a.1)
  {
    var i;
    i, j := RoundTracks(a, b, k);
    d := j * Abs(b.0 - a.0) - k * Abs(b.1 - a.1);
  }

  lemma HighDeviation(a: Point, b: Point, k: nat) returns (d: int, i: int)
    requires Abs(b.1 - a.1) > Abs(b.0 - a.0) && k <= Length(a, b)
    ensures d == k * Abs(b.0 - a.0) - i * Abs(b.1 - a.1) && HighWindow(Abs(b.1 - a.1), d)
    ensures Round(a, b, k).1 == d + Abs(b.0 - a.0) - Abs(b.1 - a.1)
  {
    var j;
    i, j := RoundTracks(a, b, k);
    d := k * Abs(b.0 - a.0) - i * Abs(b.1 - a.1);
  }

  /** The error term of every round, in units of the divisor. */
  lemma WideTerm(a: Point, b: Point, k: nat, g: nat, l: nat, s: nat) returns (e: int, j: int)
    requires Wide(a, b, g, l, s) && k <= Length(a, b)
    ensures e == j * l - k * s && WideWindow(l, e)
    ensures Round(a, b, k).1 == g * e + g * l - g * s
  {
    WideLength(a, b, g, l, s);
    var d;
    d, j := WideDeviation(a, b, k);
    e := j * l - k * s;
    Factor(g, j, k, l, s);
    ScaledWindows(g, l, e);
  }

  lemma HighTerm(a: Point, b: Point, k: nat, g: nat, l: nat, s: nat) returns (e: int, i: int)
    requires High(a, b, g, l, s) && k <= Length(a, b)
    ensures e == k * s - i * l && HighWindow(l, e)
    ensures Round(a, b, k).1 == g * e + g * s - g * l
  {
    HighLength(a, b, g, l, s);
    var d;
    d, i := HighDeviation(a, b, k);
    e := k * s - i * l;
    Factor(g, k, i, s, l);
    ScaledWindows(g, l, e);
  }

  /** Every deviation in the window is that of some round. */
  lemma WideAttained(a: Point, b: Point, g: nat, l: nat, s: nat, u: int, v: int, t: int) returns (k: nat)
    requires Wide(a, b, g, l, s) && u * s + v * l == 1 && WideWindow(l, t)
    ensures k < Length(a, b) && Round(a, b, k).1 == g * t + g * l - g * s
  {
    var c;
    k, c := Congruent(l, s, u, v, -t);
    WideLength(a, b, g, l, s);
    var e, j := WideTerm(a, b, k, g, l, s);
    assert (j - c) * l == j * l - c * l;
    SameInWindow(l, e, t, j - c);
  }

  lemma HighAttained(a: Point, b: Point, g: nat, l: nat, s: nat, u: int, v: int, t: int) returns (k: nat)
    requires High(a, b, g, l, s) && u * s + v * l == 1 && HighWindow(l, t)
    ensures k < Length(a, b) && Round(a, b, k).1 == g * t + g * s - g * l
  {
    var c;
    k, c := Congruent(l, s, u, v, t);
    HighLength(a, b, g, l, s);
    var e, i := HighTerm(a, b, k, g, l, s);
    assert (c - i) * l == c * l - i * l;
    SameInWindow(l, e, t, c - i);
  }

  // ------------------------------------------------ what a round computes

  /** The error term between the two conditional steps of a round. */
  function MidErr(a: Point, b: Point, err: int): int { if StepsX(a, b, err) then err - Abs(b.1 - a.1) else err }

  /** Nothing round `k` computes overflows: the doubled error term, its two
      corrections and the next point. */
  ghost predicate RoundFits(a: Point, b: Point, k: nat) {
    StepFits(a, b, Round(a, b, k).0, Round(a, b, k).1)
  }

  predicate StepFits(a: Point, b: Point, p: Point, err: int) {
    && FitsI32(2 * err) && FitsI32(MidErr(a, b, err)) && FitsI32(NextErr(a, b, err))
    && PointFits(NextPoint(a, b, p, err))
  }

  /** Neither the distances nor any round before the end point overflows. */
  ghost predicate RunFits(a: Point, b: Point) {
    && Length(a, b) < 0x8000_0000
    && forall k: nat :: k < Length(a, b) ==> RoundFits(a, b, k)
  }

  lemma PointsFit(a: Point, b: Point, k: nat)
    requires PointFits(a) && PointFits(b) && k <= Length(a, b)
    ensures PointFits(Round(a, b, k).0)
  {
    var i, j := RoundTracks(a, b, k);
    Between(a.0, b.0, i);
    Between(a.1, b.1, j);
  }

  lemma Between(a: int, b: int, i: int)
    requires 0 <= i <= Abs(b - a)
    ensures (a <= a + i * Sign(a, b) <= b) || (b <= a + i * Sign(a, b) <= a)
  {
  }

  lemma NextRound(a: Point, b: Point, k: nat)
    ensures var (p, err) := Round(a, b, k);
            Round(a, b, k + 1) == (NextPoint(a, b, p, err), NextErr(a, b, err))
  {
  }

  // ------------------------------------------------- the exact condition

  /** Largest multiple of the sides' divisor up to half of the longer side. */
  function Reach(long: nat, short: nat): int
    requires long > 0
  {
    Gcd(long, short) * (long / Gcd(long, short) / 2)
  }

  /** Largest multiple of the sides' divisor below half of the longer side. */
  function ReachBelow(long: nat, short: nat): int
    requires long > 0
  {
    Gcd(long, short) * ((long / Gcd(long, short) - 1) / 2)
  }

  predicate WideFits(dx: nat, dy: nat)
    requires dx > 0
  {
    2 * (Reach(dx, dy) + dx - dy) < 0x8000_0000 && ReachBelow(dx, dy) + 2 * dy - dx <= 0x8000_0000
  }

  predicate HighFits(dx: nat, dy: nat)
    requires dy > 0
  {
    2 * (Reach(dy, dx) + dy - dx) <= 0x8000_0000 && (dx > 0 ==> Reach(dy, dx) + dy <= 0x8000_0000)
  }

  /** The line can be drawn in 32-bit arithmetic, read off its two sides. */
  predicate LineFits(a: Point, b: Point) {
    var dx, dy := Abs(b.0 - a.0), Abs(b.1 - a.1);
    && Length(a, b) < 0x8000_0000
    && (Length(a, b) > 0 ==> if dy <= dx then WideFits(dx, dy) else HighFits(dx, dy))
  }

  /** The sides of a line in units of their divisor. */
  lemma Sides(long: nat, short: nat) returns (g: nat, l: nat, s: nat, u: int, v: int)
    requires short <= long && long > 0
    ensures g == Gcd(long, short) > 0 && l == long / g > 0 && s <= l && InUnits(long, short, g, l, s, u, v)
  {
    g := Gcd(long, short);
    l, s, u, v := Reduced(long, short);
    DivModAt(l, g, 0);
    assert l * g == g * l;
    assert l == 0 ==> g * l == 0;
    UnitOrder(g, l, s);
  }

  lemma HalfBounds(g: int, l: int, e: int)
    requires g > 0 && l > 0
    ensures 2 * e <= l ==> g * e <= g * (l / 2)
    ensures 2 * e < l ==> g * e <= g * ((l - 1) / 2)
    ensures -l < 2 * e ==> -(g * ((l - 1) / 2)) <= g * e
    ensures -l <= 2 * e ==> -(g * (l / 2)) <= g * e
  {
    Grows(g, e, l / 2);
    Grows(g, e, (l - 1) / 2);
    Grows(g, -e, (l - 1) / 2);
    Grows(g, -e, l / 2);
    assert g * -e == -(g * e);
  }

  lemma Grows(g: int, p: int, q: int)
    requires g > 0
    ensures p <= q ==> g * p <= g * q
  {
    assert g * q - g * p == g * (q - p);
    MulSign(g, q - p);
  }

  // Wide lines.

  lemma WideRoundFits(a: Point, b: Point, k: nat, g: nat, l: nat, s: nat)
    requires PointFits(a) && PointFits(b) && Wide(a, b, g, l, s) && k < Length(a, b) < 0x8000_0000
    requires 2 * (g * (l / 2) + g * l - g * s) < 0x8000_0000 && g * ((l - 1) / 2) + 2 * (g * s) - g * l <= 0x8000_0000
    ensures RoundFits(a, b, k)
  {
    WideLength(a, b, g, l, s);
    var e, j := WideTerm(a, b, k, g, l, s);
    var e', j' := WideTerm(a, b, k + 1, g, l, s);
    HalfBounds(g, l, e);
    HalfBounds(g, l, e');
    HalfOfSide(g, l);
    NextRound(a, b, k);
    PointsFit(a, b, k + 1);
  }

  lemma HalfOfSide(g: int, l: int)
    requires g > 0 && l > 0
    ensures 0 <= 2 * (g * ((l - 1) / 2)) <= 2 * (g * (l / 2)) <= g * l
  {
    UpToHalf(g, l, l / 2);
    Grows(g, (l - 1) / 2, l / 2);
    MulSign(g, (l - 1) / 2);
  }

  lemma WideRoundsNeed(a: Point, b: Point, g: nat, l: nat, s: nat, u: int, v: int)
    requires Wide(a, b, g, l, s) && u * s + v * l == 1
    requires forall k: nat :: k < Length(a, b) ==> RoundFits(a, b, k)
    ensures 2 * (g * (l / 2) + g * l - g * s) < 0x8000_0000
    ensures g * ((l - 1) / 2) + 2 * (g * s) - g * l <= 0x8000_0000
  {
    WideLength(a, b, g, l, s);
    HalfOfSide(g, l);
    var k := WideAttained(a, b, g, l, s, u, v, l / 2);
    assert RoundFits(a, b, k);
    var k' := WideAttained(a, b, g, l, s, u, v, -((l - 1) / 2));
    assert RoundFits(a, b, k');
    assert g * -((l - 1) / 2) == -(g * ((l - 1) / 2));
  }

  lemma WideFitsIff(a: Point, b: Point)
    requires PointFits(a) && PointFits(b) && Abs(b.1 - a.1) <= Abs(b.0 - a.0) && 0 < Length(a, b) < 0x8000_0000
    ensures RunFits(a, b) <==> WideFits(Abs(b.0 - a.0), Abs(b.1 - a.1))
  {
    var g, l, s, u, v := Sides(Abs(b.0 - a.0), Abs(b.1 - a.1));
    if RunFits(a, b) {
      WideRoundsNeed(a, b, g, l, s, u, v);
    }
    if WideFits(Abs(b.0 - a.0), Abs(b.1 - a.1)) {
      forall k: nat | k < Length(a, b)
        ensures RoundFits(a, b, k)
      {
        WideRoundFits(a, b, k, g, l, s);
      }
    }
  }

  // High lines.

  lemma HighRoundFits(a: Point, b: Point, k: nat, g: nat, l: nat, s: nat)
    requires PointFits(a) && PointFits(b) && High(a, b, g, l, s) && k < Length(a, b) < 0x8000_0000
    requires 2 * (g * (l / 2) + g * l - g * s) <= 0x8000_0000
    requires g * s > 0 ==> g * (l / 2) + g * l <= 0x8000_0000
    ensures RoundFits(a, b, k)
  {
    HighLength(a, b, g, l, s);
    var e, i := HighTerm(a, b, k, g, l, s);
    var e', i' := HighTerm(a, b, k + 1, g, l, s);
    HalfBounds(g, l, e);
    HalfBounds(g, l, e');
    HalfOfSide(g, l);
    HighMiddle(g, l, s, e);
    NextRound(a, b, k);
    PointsFit(a, b, k + 1);
  }

  /** Where a high line steps sideways, its error term is within half a side. */
  lemma HighMiddle(g: int, l: int, s: int, e: int)
    requires g > 0 && 0 <= s < l && HighWindow(l, e)
    ensures var err := g * e + g * s - g * l;
            2 * err >= -(g * l) ==> err >= -(g * (l / 2)) && (s == 0 ==> e > 0)
  {
    var f := e + s - l;
    assert g * f == g * e + g * s - g * l;
    UpToHalf(g, l, -f);
    assert g * -f == -(g * f);
    HalfBounds(g, l, f);
  }

  lemma HighRoundsNeed(a: Point, b: Point, g: nat, l: nat, s: nat, u: int, v: int)
    requires High(a, b, g, l, s) && u * s + v * l == 1
    requires forall k: nat :: k < Length(a, b) ==> RoundFits(a, b, k)
    ensures 2 * (g * (l / 2) + g * l - g * s) <= 0x8000_0000
    ensures s > 0 ==> g * (l / 2) + g * l <= 0x8000_0000
  {
    HighLength(a, b, g, l, s);
    HalfOfSide(g, l);
    var k := HighAttained(a, b, g, l, s, u, v, -(l / 2));
    assert RoundFits(a, b, k);
    assert g * -(l / 2) == -(g * (l / 2));
    if s > 0 {
      HighStepNeeds(a, b, g, l, s, u, v);
    }
  }

  lemma HighStepNeeds(a: Point, b: Point, g: nat, l: nat, s: nat, u: int, v: int)
    requires High(a, b, g, l, s) && s > 0 && u * s + v * l == 1
    requires forall k: nat :: k < Length(a, b) ==> RoundFits(a, b, k)
    ensures g * (l / 2) + g * l <= 0x8000_0000
  {
    var t := l - s - l / 2;
    var k := HighAttained(a, b, g, l, s, u, v, t);
    HalfOfSide(g, l);
    Spread(g, l, s, l / 2);
    MiddleFits(a, b, k, g * l, g * (l / 2));
  }

  lemma Spread(g: int, l: int, s: int, h: int)
    ensures g * (l - s - h) + g * s - g * l == -(g * h)
  {
  }

  lemma MiddleFits(a: Point, b: Point, k: nat, dy: int, h: int)
    requires dy == Abs(b.1 - a.1) && Round(a, b, k).1 == -h && 2 * h <= dy
    requires k < Length(a, b) && forall k: nat :: k < Length(a, b) ==> RoundFits(a, b, k)
    ensures h + dy <= 0x8000_0000
  {
    assert RoundFits(a, b, k);
  }

  lemma HighFitsIff(a: Point, b: Point)
    requires PointFits(a) && PointFits(b) && Abs(b.1 - a.1) > Abs(b.0 - a.0) && Length(a, b) < 0x8000_0000
    ensures RunFits(a, b) <==> HighFits(Abs(b.0 - a.0), Abs(b.1 - a.1))
  {
    var g, l, s, u, v := Sides(Abs(b.1 - a.1), Abs(b.0 - a.0));
    UnitOrder(g, s, l);
    MulSign(g, s);
    if RunFits(a, b) {
      HighRoundsNeed(a, b, g, l, s, u, v);
    }
    if HighFits(Abs(b.0 - a.0), Abs(b.1 - a.1)) {
      forall k: nat | k < Length(a, b)
        ensures RoundFits(a, b, k)
      {
        HighRoundFits(a, b, k, g, l, s);
      }
    }
  }

  /** A line between 32-bit points is drawn without overflow in every round if and
      only if its sides satisfy the closed condition. */
  lemma LineFitsIff(a: Point, b: Point)
    requires PointFits(a) && PointFits(b)
    ensures RunFits(a, b) <==> LineFits(a, b)
  {
    if 0 < Length(a, b) < 0x8000_0000 {
      if Abs(b.1 - a.1) <= Abs(b.0 - a.0) {
        WideFitsIff(a, b);
      } else {
        HighFitsIff(a, b);
      }
    }
  }

  // ------------------------------------------------------------- lengths

  /** All lines of `n` steps between 32-bit points can be drawn. */
  ghost predicate AllFit(n: nat) {
    forall a: Point, b: Point :: PointFits(a) && PointFits(b) && Length(a, b) == n ==> RunFits(a, b)
  }

  lemma ReachBounds(long: nat, short: nat)
    requires short <= long && long > 0
    ensures 0 <= 2 * ReachBelow(long, short) <= 2 * Reach(long, short) <= long
    ensures short == 0 ==> Reach(long, short) == 0
    ensures short == 1 ==> Reach(long, short) == long / 2
  {
    var g, l, s, u, v := Sides(long, short);
    HalfOfSide(g, l);
    if short == 0 {
      assert l == 1;
    } else if short == 1 {
      DividesOne(g, s);
    }
  }

  lemma DividesOne(g: nat, s: nat)
    requires g * s == 1
    ensures g == 1
  {
    assert s >= 1;
    assert g >= 2 ==> g * s >= 2 * s;
  }

  /** Exactly which lengths are safe whatever the slope; a line one pixel off level
      is the worst. No line between 32-bit points is longer than this. */
  lemma LengthFitsIff(n: nat)
    requires n < 0x1_0000_0000
    ensures AllFit(n) <==> 2 * (n + n / 2 - 1) < 0x8000_0000
  {
    if 2 * (n + n / 2 - 1) < 0x8000_0000 {
      forall a: Point, b: Point | PointFits(a) && PointFits(b) && Length(a, b) == n
        ensures RunFits(a, b)
      {
        SafeLength(a, b, n);
      }
    } else {
      var a, b := (-0x8000_0000, 0), (n - 0x8000_0000, 1);
      ReachBounds(n, 1);
      LineFitsIff(a, b);
      assert PointFits(a) && PointFits(b) && Length(a, b) == n && !RunFits(a, b);
    }
  }

  lemma SafeLength(a: Point, b: Point, n: nat)
    requires PointFits(a) && PointFits(b) && Length(a, b) == n && 2 * (n + n / 2 - 1) < 0x8000_0000
    ensures RunFits(a, b)
  {
    LineFitsIff(a, b);
    if n > 0 {
      SafeSides(n, if Abs(b.1 - a.1) <= Abs(b.0 - a.0) then Abs(b.1 - a.1) else Abs(b.0 - a.0));
    }
  }

  lemma SafeSides(long: nat, short: nat)
    requires short <= long && long > 0 && 2 * (long + long / 2 - 1) < 0x8000_0000
    ensures WideFits(long, short) && HighFits(short, long)
  {
    ReachBounds(long, short);
  }

  /** A level line of 2^30 pixels is too long: its doubled error term overflows. */
  lemma LongLineOverflows()
    ensures !FitsI32(2 * Round((0, 0), (0x4000_0000, 0), 0).1) && !LineFits((0, 0), (0x4000_0000, 0))
  {
    ReachBounds(0x4000_0000, 0);
  }

  /** A diagonal may be as long as 32 bits allow. */
  lemma LongestDiagonalFits()
    ensures RunFits((0, 0), (0x7FFF_FFFF, 0x7FFF_FFFF))
  {
    assert Gcd(0x7FFF_FFFF, 0x7FFF_FFFF) == Gcd(0, 0x7FFF_FFFF) == 0x7FFF_FFFF;
    LineFitsIff((0, 0), (0x7FFF_FFFF, 0x7FFF_FFFF));
  }

  /** One pixel off the diagonal at the same length overflows. */
  lemma SteepLineOverflows()
    ensures !RunFits((0, 0), (0x7FFF_FFFE, 0x7FFF_FFFF))
  {
    var n := 0x7FFF_FFFF;
    var g, l, s, u, v := Sides(n, n - 1);
    assert g * (l - s) == g * l - g * s;
    DividesOne(g, l - s);
    LineFitsIff((0, 0), (n - 1, n));
  }
}
