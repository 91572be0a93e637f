/** Bresenham's line on unbounded integers: the loop of `draw_line` visits a
    complete line, each point within half a pixel of the ideal one. */
module Bresenham {
  import opened Words

  type Point = (int, int)

  function Abs(a: int): int { if a < 0 then -a else a }

  function Sign(a: int, b: int): int { if a < b then 1 else -1 }

  // ------------------------------------------------------- the ideal line

  /** Twice the deviation, in units of the longer side, of the point reached after
      `i` steps along x and `j` along y: at most half a pixel. */
  predicate HalfPixel(dx: int, dy: int, i: int, j: int) {
    -Max(dx, dy) <= 2 * (j * dx - i * dy) <= Max(dx, dy)
  }

  /** Point `k` of a line from `a` to `b`: one step per point along the longer
      side, never beyond `b`, and never more than half a pixel off. */
  ghost predicate OnLine(a: Point, b: Point, k: nat, p: Point) {
    var dx, dy := Abs(b.0 - a.0), Abs(b.1 - a.1);
    exists i: nat, j: nat ::
      && i <= dx && j <= dy && HalfPixel(dx, dy, i, j)
      && p == (a.0 + i * Sign(a.0, b.0), a.1 + j * Sign(a.1, b.1))
      && k == if dy <= dx then i else j
  }

  /** A complete line: starts at `a`, ends at `b`, every point on the line. */
  ghost predicate IsLine(a: Point, b: Point, path: seq<Point>) {
    && |path| == Max(Abs(b.0 - a.0), Abs(b.1 - a.1)) + 1
    && path[0] == a && path[|path| - 1] == b
    && forall k :: 0 <= k < |path| ==> OnLine(a, b, k, path[k])
  }

  // ------------------------------------------------- one step of the loop

  /** Along the longer x side every round steps in x, and steps in y exactly when
      that keeps the point within half a pixel. */
  lemma StepAlongX(dx: int, dy: int, i: int, j: int, d: int)
    requires 0 <= dy <= dx && 0 <= i < dx && 0 <= j <= dy && d == j * dx - i * dy && -dx < 2 * d <= dx
    ensures 2 * (d + dx - dy) >= -dy
    ensures 2 * (d + dx - dy) <= dx ==> j < dy && -dx < 2 * (d + dx - dy) <= dx
    ensures 2 * (d + dx - dy) > dx ==> -dx < 2 * (d - dy) <= dx
  {
    if j == dy {
      AtLeastOnce(dy, dx - i);
      assert d == dy * (dx - i);
    }
  }

  lemma StepAlongY(dx: int, dy: int, i: int, j: int, d: int)
    requires 0 <= dx < dy && 0 <= j < dy && 0 <= i <= dx && d == j * dx - i * dy && -dy <= 2 * d < dy
    ensures 2 * (d + dx - dy) <= dx
    ensures 2 * (d + dx - dy) >= -dy ==> i < dx && -dy <= 2 * (d + dx - dy) < dy
    ensures 2 * (d + dx - dy) < -dy ==> -dy <= 2 * (d + dx) < dy
  {
    if i == dx {
      AtLeastOnce(dx, dy - j);
      assert d == -(dx * (dy - j));
    }
  }

  lemma AtLeastOnce(a: int, n: int)
    requires a >= 0 && n >= 1
    ensures a * n >= a
  {
  }

  /** Reaching the end of the longer side means reaching the end point. */
  lemma BothEndTogether(dx: int, dy: int, i: int, j: int)
    requires 0 <= i <= dx && 0 <= j <= dy && HalfPixel(dx, dy, i, j)
    requires if dy <= dx then i == dx else j == dy
    ensures i == dx && j == dy
  {
    if dy <= dx {
      assert j * dx - i * dy == -((dy - j) * dx);
      NoGap(dy - j, dx);
    } else {
      assert j * dx - i * dy == (dx - i) * dy;
      NoGap(dx - i, dy);
    }
  }

  lemma NoGap(gap: int, n: int)
    requires 0 <= gap <= n && 2 * (gap * n) <= n
    ensures gap == 0
  {
    if gap >= 1 {
      AtLeastOnce(n, gap);
    }
  }

  lemma StepProducts(i: int, j: int, dx: int, dy: int)
    ensures (i + 1) * dy == i * dy + dy && (j + 1) * dx == j * dx + dx
  {
  }

  /** After `i` steps from `a` the target is reached exactly when `i` is the distance. */
  lemma EndPoint(a: int, b: int, i: int)
    requires 0 <= i <= Abs(b - a)
    ensures a + i * Sign(a, b) == b <==> i == Abs(b - a)
  {
  }

  /** Which half pixel: a deviation of exactly one half is taken on one side only. */
  predicate HalfOpen(dx: int, dy: int, d: int) {
    if dy <= dx then dx == 0 || -dx < 2 * d <= dx else -dy <= 2 * d < dy
  }

  /** The loop's variables after `i` steps along x and `j` along y. */
  ghost predicate Tracks(a: Point, b: Point, i: int, j: int, p: Point, err: int) {
    var dx, dy := Abs(b.0 - a.0), Abs(b.1 - a.1);
    && 0 <= i <= dx && 0 <= j <= dy && HalfOpen(dx, dy, j * dx - i * dy)
    && p == (a.0 + i * Sign(a.0, b.0), a.1 + j * Sign(a.1, b.1))
    && err == j * dx - i * dy + dx - dy
  }

  /** Points visited before the current one. */
  function Visited(a: Point, b: Point, i: int, j: int): int {
    if Abs(b.1 - a.1) <= Abs(b.0 - a.0) then i else j
  }

  lemma NotAtEnd(a: Point, b: Point, i: int, j: int, p: Point, err: int)
    requires Tracks(a, b, i, j, p, err)
    ensures p == b <==> Visited(a, b, i, j) == Max(Abs(b.0 - a.0), Abs(b.1 - a.1))
    ensures p.0 == b.0 <==> i == Abs(b.0 - a.0)
    ensures p.1 == b.1 <==> j == Abs(b.1 - a.1)
  {
    EndPoint(a.0, b.0, i);
    EndPoint(a.1, b.1, j);
    if Visited(a, b, i, j) == Max(Abs(b.0 - a.0), Abs(b.1 - a.1)) {
      BothEndTogether(Abs(b.0 - a.0), Abs(b.1 - a.1), i, j);
    }
  }

  function StepsX(a: Point, b: Point, err: int): bool { 2 * err >= -Abs(b.1 - a.1) }

  function StepsY(a: Point, b: Point, err: int): bool { 2 * err <= Abs(b.0 - a.0) }

  /** Where one round of the loop goes from `p`. */
  function NextPoint(a: Point, b: Point, p: Point, err: int): Point {
    (p.0 + (if StepsX(a, b, err) then Sign(a.0, b.0) else 0), p.1 + (if StepsY(a, b, err) then Sign(a.1, b.1) else 0))
  }

  function NextErr(a: Point, b: Point, err: int): int {
    err - (if StepsX(a, b, err) then Abs(b.1 - a.1) else 0) + (if StepsY(a, b, err) then Abs(b.0 - a.0) else 0)
  }

  /** What one round does to the numbers of steps and the deviation. */
  lemma StepDeviation(dx: int, dy: int, i: int, j: int, err: int) returns (i': int, j': int)
    requires 0 <= i <= dx && 0 <= j <= dy && HalfOpen(dx, dy, j * dx - i * dy) && err == j * dx - i * dy + dx - dy
    requires if dy <= dx then i < dx else j < dy
    ensures i' == (if 2 * err >= -dy then i + 1 else i) && j' == (if 2 * err <= dx then j + 1 else j)
    ensures i' <= dx && j' <= dy && (if dy <= dx then i' == i + 1 else j' == j + 1)
    ensures HalfOpen(dx, dy, j' * dx - i' * dy)
    ensures err - (if 2 * err >= -dy then dy else 0) + (if 2 * err <= dx then dx else 0)
         == j' * dx - i' * dy + dx - dy
  {
    StepProducts(i, j, dx, dy);
    i' := if 2 * err >= -dy then i + 1 else i;
    j' := if 2 * err <= dx then j + 1 else j;
    var d := j * dx - i * dy;
    if dy <= dx {
      StepAlongX(dx, dy, i, j, d);
    } else {
      StepAlongY(dx, dy, i, j, d);
    }
  }

  lemma AxisStep(a: int, i: int, i': int, s: int)
    requires i' == i || i' == i + 1
    ensures a + i' * s == a + i * s + if i' == i then 0 else s
  {
  }

  lemma PointStep(a: Point, b: Point, i: int, j: int, i': int, j': int, p: Point, err: int)
    requires p == (a.0 + i * Sign(a.0, b.0), a.1 + j * Sign(a.1, b.1))
    requires i' == (if StepsX(a, b, err) then i + 1 else i) && j' == if StepsY(a, b, err) then j + 1 else j
    ensures NextPoint(a, b, p, err) == (a.0 + i' * Sign(a.0, b.0), a.1 + j' * Sign(a.1, b.1))
  {
    AxisStep(a.0, i, i', Sign(a.0, b.0));
    AxisStep(a.1, j, j', Sign(a.1, b.1));
  }

  /** One round short of the end: neither inner exit is taken, the longer side
      advances by one, and the point stays within half a pixel. */
  lemma RoundStep(a: Point, b: Point, i: int, j: int, p: Point, err: int) returns (i': int, j': int)
    requires Tracks(a, b, i, j, p, err) && p != b
    ensures (StepsX(a, b, err) ==> p.0 != b.0) && (StepsY(a, b, err) ==> p.1 != b.1)
    ensures Tracks(a, b, i', j', NextPoint(a, b, p, err), NextErr(a, b, err))
    ensures Visited(a, b, i', j') == Visited(a, b, i, j) + 1
  {
    var dx, dy := Abs(b.0 - a.0), Abs(b.1 - a.1);
    NotAtEnd(a, b, i, j, p, err);
    i', j' := StepDeviation(dx, dy, i, j, err);
    PointStep(a, b, i, j, i', j', p, err);
    assert NextErr(a, b, err) == j' * dx - i' * dy + dx - dy;
  }

  function Length(a: Point, b: Point): int { Max(Abs(b.0 - a.0), Abs(b.1 - a.1)) }

  /** Point and error term after `k` rounds of the loop. */
  function Round(a: Point, b: Point, k: nat): (Point, int) {
    if k == 0 then (a, Abs(b.0 - a.0) - Abs(b.1 - a.1))
    else
      var (p, err) := Round(a, b, k - 1);
      (NextPoint(a, b, p, err), NextErr(a, b, err))
  }

  lemma {:induction false} RoundTracks(a: Point, b: Point, k: nat) returns (i: int, j: int)
    requires k <= Length(a, b)
    ensures Tracks(a, b, i, j, Round(a, b, k).0, Round(a, b, k).1) && Visited(a, b, i, j) == k
  {
    if k == 0 {
      i, j := 0, 0;
    } else {
      i, j := RoundTracks(a, b, k - 1);
      var (p, err) := Round(a, b, k - 1);
      NotAtEnd(a, b, i, j, p, err);
      i, j := RoundStep(a, b, i, j, p, err);
    }
  }

  /** The end point comes up in the last round and not before, and no earlier
      round takes an inner exit. */
  lemma RoundEnds(a: Point, b: Point, k: nat)
    requires k <= Length(a, b)
    ensures var (p, err) := Round(a, b, k);
            && (p == b <==> k == Length(a, b))
            && (k < Length(a, b) ==> (StepsX(a, b, err) ==> p.0 != b.0) && (StepsY(a, b, err) ==> p.1 != b.1))
  {
    var i, j := RoundTracks(a, b, k);
    var (p, err) := Round(a, b, k);
    NotAtEnd(a, b, i, j, p, err);
    if p != b {
      var i', j' := RoundStep(a, b, i, j, p, err);
    }
  }

  /** The error term stays within three half lengths. */
  lemma ErrorTermBounded(a: Point, b: Point, k: nat)
    requires k <= Length(a, b)
    ensures -3 * Length(a, b) <= 2 * Round(a, b, k).1 <= 3 * Length(a, b)
  {
    var i, j := RoundTracks(a, b, k);
  }

  /** The points of the first `n` rounds. */
  ghost function PathOf(a: Point, b: Point, n: nat): (path: seq<Point>)
    ensures |path| == n
  {
    if n == 0 then [] else PathOf(a, b, n - 1) + [Round(a, b, n - 1).0]
  }

  lemma {:induction false} PathAt(a: Point, b: Point, n: nat, k: nat)
    requires k < n
    ensures PathOf(a, b, n)[k] == Round(a, b, k).0
  {
    if k < n - 1 {
      PathAt(a, b, n - 1, k);
    }
  }

  lemma PathIsLine(a: Point, b: Point)
    ensures IsLine(a, b, PathOf(a, b, Length(a, b) + 1))
  {
    var n := Length(a, b) + 1;
    RoundEnds(a, b, n - 1);
    PathAt(a, b, n, 0);
    PathAt(a, b, n, n - 1);
    forall k | 0 <= k < n
      ensures OnLine(a, b, k, PathOf(a, b, n)[k])
    {
      PathAt(a, b, n, k);
      var i, j := RoundTracks(a, b, k);
      assert HalfPixel(Abs(b.0 - a.0), Abs(b.1 - a.1), i, j);
    }
  }

  lemma {:induction false} PathPrefix(a: Point, b: Point, m: nat, n: nat)
    requires m <= n
    ensures PathOf(a, b, n)[..m] == PathOf(a, b, m)
  {
    if m < n {
      PathPrefix(a, b, m, n - 1);
    }
  }

  lemma PathGrows(a: Point, b: Point, k: nat)
    ensures var path := PathOf(a, b, k + 1); path[..k] == PathOf(a, b, k) && path[k] == Round(a, b, k).0
  {
  }
}
