/**
 What the automap's clipper keeps (src/user/xinuldoom/am_map.c:889-968): the ends that are in the window,
 the order of the ends, and, within three pixels, everything of an accepted segment that is not at the
 left, right or upper edge of the window.
 */
module LineClipKept {
  import opened CInt
  import opened LineClip
  import opened LineClipLoss

  // ----- the ends -----

  /** An end in the window stays where it is. */
  lemma {:induction false} InsideKept(a: Point, b: Point, w: int, h: int)
    requires w > 0 && h > 0
    ensures InWindow(a, w, h) ==> ClipFrom(a, b, w, h).a == a
    ensures InWindow(b, w, h) ==> ClipFrom(a, b, w, h).b == b
    decreases Sides(a, b, w, h)
  {
    var o1, o2 := OutCode(a, w, h), OutCode(b, w, h);
    if !o1.Meets(o2) && !(o1.Zero() && o2.Zero()) {
      RoundFacts(a, b, w, h, a, 0, 0, 0);
      var (a', b') := Round(a, b, w, h);
      InsideKept(a', b', w, h);
    }
  }

  /** The ends that are left come in the order of the old ones: from a to b, first the new a, then the new b. */
  lemma {:induction false} EndsInOrder(a: Point, b: Point, w: int, h: int)
    requires w > 0 && h > 0
    ensures var r := ClipFrom(a, b, w, h); InBox(r.a, a, r.b) && InBox(r.b, r.a, b) && InBox(r.a, a, b) && InBox(r.b, a, b)
    decreases Sides(a, b, w, h)
  {
    var o1, o2 := OutCode(a, w, h), OutCode(b, w, h);
    if !o1.Meets(o2) && !(o1.Zero() && o2.Zero()) {
      RoundFacts(a, b, w, h, a, 0, 0, 0);
      var (a', b') := Round(a, b, w, h);
      EndsInOrder(a', b', w, h);
    }
  }

  // ----- a spot's distances from the far end -----

  /*
   A segment goes from p to b. X and Y are the distances of p from b, x and y those of a spot, along the
   two axes. g is 1 for a segment that goes up: the cut at the lower edge is computed one row too far.
   */

  /** The spot is not beyond p, and the segment passes it at most one column to the left and one row before or behind. */
  ghost predicate Close(X: real, Y: real, g: real, x: real, y: real) {
    && 0.0 <= x <= X && 0.0 <= y <= Y + g
    && X * (y + 1.0) >= Y * x
    && (y >= g ==> X * (y - g) <= Y * (x + 1.0))
  }

  /** The spot is on the line from p to b. */
  ghost predicate Between(X: real, Y: real, x: real, y: real) {
    x * Y == X * y
  }

  /** Y rows before the end the segment is X columns from it, so Yr rows before it X * Yr / Y columns; Xt is that, rounded up. */
  ghost predicate RoundedUp(X: real, Y: real, Yr: real, Xt: real) {
    X * Yr <= Xt * Y < X * Yr + Y
  }

  /** The line through both ends passes the spot on the left, at most one column and one row away. */
  ghost predicate Leans(X: real, Y: real, g: real, x: real, y: real) {
    X * y >= Y * x && (y >= g ==> X * (y - g) <= Y * (x + 1.0))
  }

  lemma OnIsClose(X: real, Y: real, g: real, x: real, y: real)
    requires 0.0 <= x <= X && 0.0 <= y <= Y && g >= 0.0 && Between(X, Y, x, y)
    ensures Close(X, Y, g, x, y)
  {
    assert X * (y + 1.0) == X * y + X;
    assert X * (y - g) == X * y - X * g && Y * (x + 1.0) == Y * x + Y;
    assert X * g >= 0.0;
  }

  lemma LessIfScaled(a: real, b: real, k: real)
    requires k > 0.0 && a * k <= b * k
    ensures a <= b
  {
  }

  lemma Scaled(a: real, b: real, k: real)
    requires k >= 0.0 && a <= b
    ensures a * k <= b * k && k * a <= k * b
  {
  }

  lemma BelowIfScaled(a: real, b: real, k: real)
    requires k > 0.0 && a * k < b * k
    ensures a < b
  {
    if a >= b {
      Scaled(b, a, k);
    }
  }

  lemma OneMore(q: real, n: real, z: real, k: real)
    requires k > 0.0 && q * k < n + k && n <= z * k
    ensures q < z + 1.0
  {
    assert (z + 1.0) * k == z * k + k;
    BelowIfScaled(q, z + 1.0, k);
  }

  /** The first end is cut at a row at distance Yr, and placed at Yt, g rows nearer; Xt is the rounded crossing. */
  lemma RowKeeps(X: real, Y: real, Yr: real, Xt: real, Yt: real, g: real, x: real, y: real)
    requires X >= 0.0 && Y > 0.0 && 0.0 <= Yr <= Y && RoundedUp(X, Y, Yr, Xt) && Yt == Yr - g
    requires Between(X, Y, x, y) && x >= 0.0 && 0.0 <= g <= 1.0 && 0.0 <= y <= Yt
    ensures x <= Xt && Leans(Xt, Yt, g, x, y)
  {
    RowAside(X, Y, Yr, Xt, x, y);
    RowBehind(X, Y, Yr, Xt, Yt, g, x, y);
    if y >= g {
      RowBefore(X, Y, Yr, Xt, Yt, g, x, y);
    }
  }

  lemma RowAside(X: real, Y: real, Yr: real, Xt: real, x: real, y: real)
    requires X >= 0.0 && Y > 0.0 && y <= Yr && X * Yr <= Xt * Y && x * Y == X * y
    ensures x <= Xt
  {
    Scaled(y, Yr, X);
    LessIfScaled(x, Xt, Y);
  }

  lemma RowBehind(X: real, Y: real, Yr: real, Xt: real, Yt: real, g: real, x: real, y: real)
    requires X >= 0.0 && Y > 0.0 && X * Yr <= Xt * Y && x * Y == X * y && g >= 0.0 && y >= 0.0 && Yt == Yr - g
    ensures Xt * y >= Yt * x
  {
    Scaled(X * Yr, Xt * Y, y);
    assert Yt * x * Y == Yt * (X * y);
    assert Yt * (X * y) == X * Yr * y - g * (X * y);
    assert X * y >= 0.0;
    assert g * (X * y) >= 0.0;
    assert Xt * y * Y == Xt * Y * y;
    LessIfScaled(Yt * x, Xt * y, Y);
  }

  lemma RowBefore(X: real, Y: real, Yr: real, Xt: real, Yt: real, g: real, x: real, y: real)
    requires X >= 0.0 && Y > 0.0 && Xt * Y < X * Yr + Y && x * Y == X * y && 0.0 <= g <= y <= Yr && Yt == Yr - g
    ensures Xt * (y - g) <= Yt * (x + 1.0)
  {
    Scaled(Xt * Y, X * Yr + Y, y - g);
    RowAlgebra(X, Y, Yr, Yt, g, x, y);
    assert Xt * (y - g) * Y == Xt * Y * (y - g);
    LessIfScaled(Xt * (y - g), Yt * (x + 1.0), Y);
  }

  lemma RowAlgebra(X: real, Y: real, Yr: real, Yt: real, g: real, x: real, y: real)
    requires X >= 0.0 && Y > 0.0 && x * Y == X * y && g >= 0.0 && y <= Yr && Yt == Yr - g
    ensures (X * Yr + Y) * (y - g) <= Yt * (x + 1.0) * Y
  {
    assert Yt * (x + 1.0) * Y == Yt * (X * y + Y);
    assert Yt * (X * y + Y) - (X * Yr + Y) * (y - g) == (g * X + Y) * (Yr - y);
    assert (g * X + Y) * (Yr - y) >= 0.0;
  }

  /** The first end is cut at a column at distance Xp; Yp is the rounded crossing. */
  lemma ColumnKeeps(Xt: real, Yt: real, Xp: real, Yp: real, g: real, x: real, y: real)
    requires Xt > 0.0 && Yt >= 0.0 && 0.0 <= Xp <= Xt && RoundedUp(Yt, Xt, Xp, Yp)
    requires x >= 0.0 && x + 1.0 <= Xp && y >= 0.0 && g >= 0.0 && Leans(Xt, Yt, g, x, y)
    ensures Close(Xp, Yp, g, x, y)
  {
    ColumnAbove(Xt, Yt, Xp, Yp);
    ColumnBelow(Xt, Yt, Xp, Yp, x, y);
    if y >= g {
      ColumnBefore(Xt, Yt, Xp, Yp, y - g, x + 1.0);
      ColumnInside(Xt, Yt, Xp, Yp, y - g, x + 1.0);
    }
  }

  lemma ColumnAbove(Xt: real, Yt: real, Xp: real, Yp: real)
    requires Xt > 0.0 && Yt >= 0.0 && 0.0 <= Xp && Yt * Xp <= Yp * Xt
    ensures Yp >= 0.0
  {
    assert Yt * Xp >= 0.0;
    LessIfScaled(0.0, Yp, Xt);
  }

  lemma ColumnBefore(Xt: real, Yt: real, Xp: real, Yp: real, y: real, x: real)
    requires Xt > 0.0 && 0.0 <= Xp && Yt * Xp <= Yp * Xt && x >= 0.0 && Xt * y <= Yt * x
    ensures Xp * y <= Yp * x
  {
    Scaled(Xt * y, Yt * x, Xp);
    Scaled(Yt * Xp, Yp * Xt, x);
    assert Xp * y * Xt == Xt * y * Xp && Yp * x * Xt == Yp * Xt * x;
    assert Yt * x * Xp == Yt * Xp * x;
    LessIfScaled(Xp * y, Yp * x, Xt);
  }

  lemma ColumnInside(Xt: real, Yt: real, Xp: real, Yp: real, y: real, x: real)
    requires Xt > 0.0 && Yt >= 0.0 && x <= Xp && Yt * Xp <= Yp * Xt && Xt * y <= Yt * x
    ensures y <= Yp
  {
    Scaled(x, Xp, Yt);
    assert y * Xt <= Yp * Xt;
    LessIfScaled(y, Yp, Xt);
  }

  lemma ColumnBelow(Xt: real, Yt: real, Xp: real, Yp: real, x: real, y: real)
    requires Xt > 0.0 && 0.0 <= x <= Xp && Yp * Xt < Yt * Xp + Xt && Xt * y >= Yt * x
    ensures Xp * (y + 1.0) >= Yp * x
  {
    Scaled(Yp * Xt, Yt * Xp + Xt, x);
    Scaled(Yt * x, Xt * y, Xp);
    assert Xt * (Xp - x) >= 0.0;
    assert Yp * x * Xt == Yp * Xt * x;
    assert (Yt * Xp + Xt) * x == Yt * x * Xp + Xt * x;
    assert Xp * (y + 1.0) * Xt == Xt * y * Xp + Xt * Xp;
    LessIfScaled(Yp * x, Xp * (y + 1.0), Xt);
  }

  /** The far end is cut at a row at distance e, which is not behind the spot's row. */
  lemma RowEnd(X: real, Y: real, g: real, x: real, y: real, e: real, Xq: real)
    requires Close(X, Y, g, x, y) && Y > 0.0 && 0.0 <= e <= y - g && RoundedUp(X, Y, e, Xq)
    ensures Xq < x + 2.0
  {
    Scaled(e, y - g, X);
    assert Y * (x + 1.0) == (x + 1.0) * Y;
    OneMore(Xq, X * e, x + 1.0, Y);
  }

  /** ... at a column at distance f. */
  lemma ColumnEnd(X: real, Y: real, g: real, x: real, y: real, f: real, Yq: real)
    requires Close(X, Y, g, x, y) && X > 0.0 && Y >= 0.0 && 0.0 <= f <= x && RoundedUp(Y, X, f, Yq)
    ensures Yq < y + 2.0
  {
    Scaled(f, x, Y);
    assert X * (y + 1.0) == (y + 1.0) * X;
    OneMore(Yq, Y * f, y + 1.0, X);
  }

  /** ... at a row, where it is placed at distance e + k, and then at a column. */
  lemma RowColumnEnd(X: real, Y: real, g: real, x: real, y: real, e: real, k: real, Xq: real, f: real, Yq: real)
    requires Close(X, Y, g, x, y) && Y >= 0.0 && e >= 0.0 && k >= 0.0 && 0.0 <= Xq < f <= X && f <= x && RoundedUp(X, Y, e, Xq)
    requires RoundedUp(Y - (e + k), X - Xq, f - Xq, Yq - (e + k))
    ensures Yq < y + 2.0 + k
  {
    var d, Y3 := Interpolated(X, Y, e, k, Xq, f, Yq);
    FarBelow(X, Y, g, x, y, f);
    SpotBehind(X, Y * f, k, y, d, Y3, Yq);
  }

  lemma FarBelow(X: real, Y: real, g: real, x: real, y: real, f: real)
    requires Close(X, Y, g, x, y) && Y >= 0.0 && f <= x
    ensures Y * f <= X * (y + 1.0)
  {
    Scaled(f, x, Y);
  }

  lemma SpotBehind(X: real, Yf: real, k: real, y: real, d: real, Y3: real, Yq: real)
    requires X > 0.0 && d > 0.0 && X * Y3 <= Yf * d + k * X * d && Yf <= X * (y + 1.0) && Yq * d < Y3 + d
    ensures Yq < y + 2.0 + k
  {
    UpToSpot(X, Yf, k, y, d, Y3);
    OneMore(Yq, Y3, y + 1.0 + k, d);
  }

  /** The crossing is Y3 / d. */
  lemma Interpolated(X: real, Y: real, e: real, k: real, Xq: real, f: real, Yq: real) returns (d: real, Y3: real)
    requires k >= 0.0 && 0.0 <= Xq < f <= X && X * e <= Xq * Y
    requires (Yq - (e + k)) * (X - Xq) < (Y - (e + k)) * (f - Xq) + (X - Xq)
    ensures d > 0.0 && Yq * d < Y3 + d && X * Y3 <= Y * f * d + k * X * d
  {
    d, Y3 := X - Xq, (e + k) * (X - f) + Y * (f - Xq);
    Rearranged(X, Y, e + k, Xq, f, Yq, d, Y3);
    Interpolates(X, Y, e, k, Xq, f, d, Y3);
  }

  lemma Rearranged(X: real, Y: real, e: real, Xq: real, f: real, Yq: real, d: real, Y3: real)
    requires d == X - Xq && Y3 == e * (X - f) + Y * (f - Xq)
    requires (Yq - e) * (X - Xq) < (Y - e) * (f - Xq) + (X - Xq)
    ensures Yq * d < Y3 + d
  {
    assert (Yq - e) * (X - Xq) == Yq * (X - Xq) - e * (X - Xq);
    assert (Y - e) * (f - Xq) + e * (X - Xq) == e * (X - f) + Y * (f - Xq);
  }

  lemma UpToSpot(X: real, Yf: real, k: real, y: real, d: real, Y3: real)
    requires X > 0.0 && d >= 0.0 && X * Y3 <= Yf * d + k * X * d && Yf <= X * (y + 1.0)
    ensures Y3 <= (y + 1.0 + k) * d
  {
    Scaled(Yf, X * (y + 1.0), d);
    assert X * (y + 1.0) * d + k * X * d == (y + 1.0 + k) * d * X;
    LessIfScaled(Y3, (y + 1.0 + k) * d, X);
  }

  lemma Interpolates(X: real, Y: real, e: real, k: real, Xq: real, f: real, d: real, Y3: real)
    requires d == X - Xq && Y3 == (e + k) * (X - f) + Y * (f - Xq)
    requires k >= 0.0 && 0.0 <= Xq < f <= X && X * e <= Xq * Y
    ensures X * Y3 <= Y * f * d + k * X * d
  {
    Scaled(X * e, Xq * Y, X - f);
    assert X * ((e + k) * (X - f) + Y * (f - Xq)) == X * e * (X - f) + k * X * (X - f) + X * Y * (f - Xq);
    assert Xq * Y * (X - f) + X * Y * (f - Xq) == Y * f * (X - Xq);
    assert k * X >= 0.0;
    Scaled(X - f, X - Xq, k * X);
  }

  // ----- points and spots in these distances -----

  function DX(p: Point, b: Point): real {
    (b.x - p.x) as real
  }

  function DY(p: Point, b: Point): real {
    Abs(b.y - p.y) as real
  }

  function SX(s: Spot, b: Point): real {
    b.x as real - s.x
  }

  function SY(s: Spot, b: Point, up: bool): real {
    if up then s.y - b.y as real else b.y as real - s.y
  }

  function Slack(up: bool): real {
    if up then 1.0 else 0.0
  }

  /** To the right, and up or down. */
  predicate Travels(a: Point, b: Point, up: bool) {
    a.x <= b.x && if up then b.y <= a.y else a.y <= b.y
  }

  ghost predicate CloseTo(p: Point, b: Point, up: bool, s: Spot) {
    Close(DX(p, b), DY(p, b), Slack(up), SX(s, b), SY(s, b, up))
  }

  /** The segment from p passes the spot on the left, by one column at most. */
  ghost predicate Passed(p: Point, b: Point, up: bool, s: Spot) {
    var X, Y, g, x, y := DX(p, b), DY(p, b), Slack(up), SX(s, b), SY(s, b, up);
    x >= 0.0 && y >= 0.0 && Leans(X, Y, g, x, y)
  }

  lemma PassedIsClose(p: Point, b: Point, up: bool, s: Spot)
    requires Passed(p, b, up, s) && SX(s, b) <= DX(p, b) && SY(s, b, up) <= DY(p, b)
    ensures CloseTo(p, b, up, s)
  {
  }

  lemma OnDistances(a: Point, b: Point, up: bool, s: Spot)
    requires OnSegment(s, a, b) && Travels(a, b, up)
    ensures 0.0 <= SX(s, b) <= DX(a, b) && 0.0 <= SY(s, b, up) <= DY(a, b)
    ensures Between(DX(a, b), DY(a, b), SX(s, b), SY(s, b, up))
  {
    LinePoint(s.x, s.y, a.x as real, a.y as real, b.x as real, b.y as real);
  }

  lemma OnIsPassed(a: Point, b: Point, up: bool, s: Spot)
    requires OnSegment(s, a, b) && Travels(a, b, up)
    ensures Passed(a, b, up, s) && CloseTo(a, b, up, s)
  {
    OnDistances(a, b, up, s);
    OnIsClose(DX(a, b), DY(a, b), Slack(up), SX(s, b), SY(s, b, up));
  }

  lemma Product(x: int, y: int)
    ensures (x * y) as real == x as real * y as real
  {
  }

  /** A rounded crossing, by its distance from the far end. */
  lemma CrossDistance(av: int, bv: int, da: int, db: int, v1: int, V: real, t: real, Db: real, d: real)
    requires Crosses(av, bv, da, db, v1)
    requires V == Abs(bv - av) as real && t == (da + db) as real && Db == db as real
    requires d == (if bv >= av then bv - v1 else v1 - bv) as real
    ensures RoundedUp(V, t, Db, d)
  {
    CrossInt(av, bv, da, db, v1, Abs(bv - av), da + db, if bv >= av then bv - v1 else v1 - bv);
    Product(Abs(bv - av), db);
    Product(if bv >= av then bv - v1 else v1 - bv, da + db);
  }

  lemma CrossInt(av: int, bv: int, da: int, db: int, v1: int, V: int, t: int, d: int)
    requires Crosses(av, bv, da, db, v1) && V == Abs(bv - av) && t == da + db && d == if bv >= av then bv - v1 else v1 - bv
    ensures V * db <= d * t < V * db + t
  {
    assert av * db + bv * da == bv * t - (bv - av) * db;
  }

  // ----- the first end -----

  /** In the window, a column from its left and right edges and a row from its upper one. */
  predicate Inner(s: Spot, w: int, h: int) {
    1.0 <= s.x <= (w - 2) as real && 1.0 <= s.y <= (h - 1) as real
  }

  /** The cut of an end above or below the window. */
  lemma FirstRow(a: Point, b: Point, w: int, h: int, s: Spot, up: bool)
    requires w > 0 && h > 0 && Travels(a, b, up) && !OutCode(a, w, h).Meets(OutCode(b, w, h)) && (a.y < 0 || a.y >= h)
    requires OnSegment(s, a, b) && Visible(s, w, h)
    ensures var t := Cut(a, b, OutCode(a, w, h), w, h);
      Travels(t, b, up) && Passed(t, b, up, s) && SX(s, b) <= DX(t, b) && SY(s, b, up) <= DY(t, b)
  {
    var t := Cut(a, b, OutCode(a, w, h), w, h);
    CutFactsFor(a, b, w, h, a, 0, 0, 0);
    RowCut(a, b, w, h);
    OnDistances(a, b, up, s);
    var da, db := if up then a.y - h else -a.y, if up then h - b.y else b.y;
    CrossDistance(a.x, b.x, da, db, t.x, DX(a, b), DY(a, b), db as real, DX(t, b));
    assert DY(t, b) == db as real - Slack(up);
    RowKeeps(DX(a, b), DY(a, b), db as real, DX(t, b), DY(t, b), Slack(up), SX(s, b), SY(s, b, up));
  }

  /** The cut of an end to the left of the window. */
  lemma FirstColumn(t: Point, b: Point, w: int, h: int, s: Spot, up: bool)
    requires w > 0 && h > 0 && Travels(t, b, up) && !OutCode(t, w, h).Meets(OutCode(b, w, h)) && t.x < 0 && 0 <= t.y < h
    requires Passed(t, b, up, s) && s.x >= 1.0
    ensures var p := Cut(t, b, OutCode(t, w, h), w, h); Travels(p, b, up) && CloseTo(p, b, up, s)
  {
    var p := Cut(t, b, OutCode(t, w, h), w, h);
    CutFactsFor(t, b, w, h, t, 0, 0, 0);
    ColumnCut(t, b, w, h);
    CrossDistance(t.y, b.y, -t.x, b.x, p.y, DY(t, b), DX(t, b), DX(p, b), DY(p, b));
    ColumnKeeps(DX(t, b), DY(t, b), DX(p, b), DY(p, b), Slack(up), SX(s, b), SY(s, b, up));
  }

  lemma AfterFirstCut(a: Point, b: Point, w: int, h: int)
    requires w > 0 && h > 0 && !OutCode(a, w, h).Meets(OutCode(b, w, h)) && !OutCode(a, w, h).Zero()
    ensures var r, r' := ClipFrom(a, b, w, h), ClipFrom(Cut(a, b, OutCode(a, w, h), w, h), b, w, h);
      r.ok == r'.ok && r.a == r'.a && r.b == r'.b
  {
  }

  /** Where the first end comes to lie. */
  lemma FirstEnd(a: Point, b: Point, w: int, h: int, s: Spot, up: bool) returns (p: Point)
    requires w > 0 && h > 0 && Travels(a, b, up) && OnSegment(s, a, b) && Inner(s, w, h) && ClipFrom(a, b, w, h).ok
    ensures InWindow(p, w, h) && Travels(p, b, up) && CloseTo(p, b, up, s)
    ensures ClipFrom(a, b, w, h).a == ClipFrom(p, b, w, h).a && ClipFrom(a, b, w, h).b == ClipFrom(p, b, w, h).b
  {
    p := a;
    OnIsPassed(a, b, up, s);
    if !InWindow(a, w, h) {
      AfterFirstCut(a, b, w, h);
      if a.y < 0 || a.y >= h {
        p := Cut(a, b, OutCode(a, w, h), w, h);
        FirstRow(a, b, w, h, s, up);
        RowCut(a, b, w, h);
        PassedIsClose(p, b, up, s);
      }
      if !InWindow(p, w, h) {
        p := FirstAtLeft(p, b, w, h, s, up);
      }
    }
  }

  lemma FirstAtLeft(t: Point, b: Point, w: int, h: int, s: Spot, up: bool) returns (p: Point)
    requires w > 0 && h > 0 && Travels(t, b, up) && !InWindow(t, w, h) && 0 <= t.y < h && ClipFrom(t, b, w, h).ok
    requires Passed(t, b, up, s) && s.x >= 1.0
    ensures InWindow(p, w, h) && Travels(p, b, up) && CloseTo(p, b, up, s)
    ensures ClipFrom(t, b, w, h).a == ClipFrom(p, b, w, h).a && ClipFrom(t, b, w, h).b == ClipFrom(p, b, w, h).b
  {
    p := Cut(t, b, OutCode(t, w, h), w, h);
    AfterFirstCut(t, b, w, h);
    ColumnCutDecides(t, b, w, h);
    FirstColumn(t, b, w, h, s, up);
  }

  // ----- the far end -----

  /** The cut of the far end, from a first end in the window. */
  lemma FarCut(p: Point, b: Point, w: int, h: int)
    requires w > 0 && h > 0 && InWindow(p, w, h) && !OutCode(b, w, h).Zero()
    ensures var q := Cut(p, b, OutCode(b, w, h), w, h);
      && (b.y < 0 ==> q.y == 0 && Crosses(p.x, b.x, p.y, -b.y, q.x))
      && (b.y >= h ==> q.y == h - 1 && Crosses(p.x, b.x, h - p.y, b.y - h, q.x))
      && (0 <= b.y < h && b.x >= w ==> q.x == w - 1 && Crosses(p.y, b.y, w - 1 - p.x, b.x - (w - 1), q.y))
      && (0 <= b.y < h && b.x < 0 ==> q.x == 0 && Crosses(p.y, b.y, p.x, -b.x, q.y))
      && InBox(q, p, b)
  {
    CutFactsFor(p, b, w, h, p, 0, 0, 0);
    if b.y < 0 {
      CutCrosses(p.x, b.x, p.y, -b.y, p.y, p.y - b.y);
    } else if b.y >= h {
      CutCrosses(p.x, b.x, h - p.y, b.y - h, p.y - h, p.y - b.y);
    } else if b.x >= w {
      CutCrosses(p.y, b.y, w - 1 - p.x, b.x - (w - 1), w - 1 - p.x, b.x - p.x);
    } else {
      CutCrosses(p.y, b.y, p.x, -b.x, -p.x, b.x - p.x);
    }
  }

  lemma AfterFarCut(p: Point, b: Point, w: int, h: int)
    requires w > 0 && h > 0 && InWindow(p, w, h) && !OutCode(b, w, h).Zero()
    ensures var r, r' := ClipFrom(p, b, w, h), ClipFrom(p, Cut(p, b, OutCode(b, w, h), w, h), w, h);
      r.ok == r'.ok && r.a == r'.a && r.b == r'.b
  {
  }

  /** The spot is before q, or less than three pixels beyond it. */
  ghost predicate Before3(q: Point, b: Point, up: bool, s: Spot) {
    DX(q, b) < SX(s, b) + 3.0 && DY(q, b) < SY(s, b, up) + 3.0
  }

  lemma FarColumn(p: Point, b: Point, w: int, h: int, s: Spot, up: bool)
    requires w > 0 && h > 0 && InWindow(p, w, h) && Travels(p, b, up) && CloseTo(p, b, up, s) && Inner(s, w, h)
    requires 0 <= b.y < h && b.x >= w
    ensures ClipFrom(p, b, w, h).a == p && Before3(ClipFrom(p, b, w, h).b, b, up, s)
  {
    var q := Cut(p, b, OutCode(b, w, h), w, h);
    FarCut(p, b, w, h);
    AfterFarCut(p, b, w, h);
    CrossDistance(p.y, b.y, w - 1 - p.x, b.x - (w - 1), q.y, DY(p, b), DX(p, b), (b.x - (w - 1)) as real, DY(q, b));
    ColumnEnd(DX(p, b), DY(p, b), Slack(up), SX(s, b), SY(s, b, up), (b.x - (w - 1)) as real, DY(q, b));
  }

  /** The far end is above or below the window: after the first of its cuts. */
  lemma FarRow(p: Point, b: Point, w: int, h: int, s: Spot, up: bool)
    requires w > 0 && h > 0 && InWindow(p, w, h) && Travels(p, b, up) && CloseTo(p, b, up, s) && Inner(s, w, h)
    requires if up then b.y < 0 else b.y >= h
    ensures var q := Cut(p, b, OutCode(b, w, h), w, h);
      && InBox(q, p, b) && q.y == (if up then 0 else h - 1) && Before3(q, b, up, s)
      && RoundedUp(DX(p, b), DY(p, b), (if up then -b.y else b.y - h) as real, DX(q, b))
  {
    var q := Cut(p, b, OutCode(b, w, h), w, h);
    FarCut(p, b, w, h);
    var da, e := if up then p.y else h - p.y, if up then -b.y else b.y - h;
    CrossDistance(p.x, b.x, da, e, q.x, DX(p, b), DY(p, b), e as real, DX(q, b));
    RowEnd(DX(p, b), DY(p, b), Slack(up), SX(s, b), SY(s, b, up), e as real, DX(q, b));
  }

  lemma FarRowColumn(p: Point, b: Point, w: int, h: int, s: Spot, up: bool)
    requires w > 0 && h > 0 && InWindow(p, w, h) && Travels(p, b, up) && CloseTo(p, b, up, s) && Inner(s, w, h)
    requires if up then b.y < 0 else b.y >= h
    requires Cut(p, b, OutCode(b, w, h), w, h).x >= w
    ensures ClipFrom(p, b, w, h).a == p && Before3(ClipFrom(p, b, w, h).b, b, up, s)
  {
    var t := Cut(p, b, OutCode(b, w, h), w, h);
    FarRow(p, b, w, h, s, up);
    AfterFarCut(p, b, w, h);
    var q := Cut(p, t, OutCode(t, w, h), w, h);
    FarCut(p, t, w, h);
    AfterFarCut(p, t, w, h);
    var e, k, f := if up then -b.y else b.y - h, 1.0 - Slack(up), b.x - (w - 1);
    CrossDistance(p.y, t.y, w - 1 - p.x, t.x - (w - 1), q.y,
      DY(p, b) - (e as real + k), DX(p, b) - DX(t, b), f as real - DX(t, b), DY(q, b) - (e as real + k));
    RowColumnEnd(DX(p, b), DY(p, b), Slack(up), SX(s, b), SY(s, b, up), e as real, k, DX(t, b), f as real, DY(q, b));
  }

  lemma FarEnd(p: Point, b: Point, w: int, h: int, s: Spot, up: bool)
    requires w > 0 && h > 0 && InWindow(p, w, h) && Travels(p, b, up) && CloseTo(p, b, up, s) && Inner(s, w, h)
    requires SX(s, b) >= 0.0 && SY(s, b, up) >= 0.0
    ensures ClipFrom(p, b, w, h).a == p && Before3(ClipFrom(p, b, w, h).b, b, up, s)
  {
    if InWindow(b, w, h) {
    } else if 0 <= b.y < h {
      FarColumn(p, b, w, h, s, up);
    } else if Cut(p, b, OutCode(b, w, h), w, h).x >= w {
      FarRowColumn(p, b, w, h, s, up);
    } else {
      FarRow(p, b, w, h, s, up);
      AfterFarCut(p, b, w, h);
    }
  }

  // ----- the whole segment -----

  /** In the rectangle of a and b, or less than m beyond it. */
  predicate Near(s: Spot, a: Point, b: Point, m: real) {
    && (a.x as real - m < s.x < b.x as real + m || b.x as real - m < s.x < a.x as real + m)
    && (a.y as real - m < s.y < b.y as real + m || b.y as real - m < s.y < a.y as real + m)
  }

  lemma RightKept(a: Point, b: Point, w: int, h: int, s: Spot)
    requires w > 0 && h > 0 && a.x <= b.x && OnSegment(s, a, b) && Inner(s, w, h) && ClipFrom(a, b, w, h).ok
    ensures Near(s, ClipFrom(a, b, w, h).a, ClipFrom(a, b, w, h).b, 3.0)
  {
    var up := b.y <= a.y;
    var p := FirstEnd(a, b, w, h, s, up);
    OnDistances(a, b, up, s);
    FarEnd(p, b, w, h, s, up);
    EndsInOrder(p, b, w, h);
  }

  // ----- to the left -----

  function Mirror(p: Point, w: int): Point {
    Point(w - 1 - p.x, p.y)
  }

  lemma TDivOpposite(n: int, d: int)
    requires d != 0
    ensures TDiv(-n, d) == -TDiv(n, d) && TDiv(n, -d) == -TDiv(n, d) && TDiv(-n, -d) == TDiv(n, d)
  {
    assert 0 / d == 0 && 0 / -d == 0;
  }

  function Swapped(c: Code): Code {
    c.(left := c.right, right := c.left)
  }

  lemma OutMirror(p: Point, w: int, h: int)
    requires w > 0 && h > 0
    ensures OutCode(Mirror(p, w), w, h) == Swapped(OutCode(p, w, h))
  {
  }

  lemma CutMirror(a: Point, b: Point, outside: Code, w: int, h: int)
    requires w > 0 && h > 0 && !OutCode(a, w, h).Meets(OutCode(b, w, h)) && Chosen(a, b, outside, w, h)
    ensures !OutCode(Mirror(a, w), w, h).Meets(OutCode(Mirror(b, w), w, h)) && Chosen(Mirror(a, w), Mirror(b, w), Swapped(outside), w, h)
    ensures Cut(Mirror(a, w), Mirror(b, w), Swapped(outside), w, h) == Mirror(Cut(a, b, outside, w, h), w)
  {
    OutMirror(a, w, h);
    OutMirror(b, w, h);
    if outside.top {
      RowMirror(b.x - a.x, a.y, a.y - b.y);
    } else if outside.bottom {
      RowMirror(b.x - a.x, a.y - h, a.y - b.y);
    } else if outside.right {
      ColumnMirror(b.y - a.y, w - 1 - a.x, b.x - a.x);
    } else {
      ColumnMirror(b.y - a.y, -a.x, b.x - a.x);
    }
  }

  lemma Negated(x: int, y: int)
    ensures -x * y == y * -x == -(x * y) == -(y * x)
  {
  }

  lemma RowMirror(v: int, k: int, d: int)
    requires d != 0
    ensures TDiv(-v * k, d) == -TDiv(v * k, d)
  {
    Negated(v, k);
    TDivOpposite(v * k, d);
  }

  lemma ColumnMirror(v: int, k: int, d: int)
    requires d != 0
    ensures TDiv(v * -k, -d) == TDiv(v * k, d)
  {
    Negated(k, v);
    TDivOpposite(v * k, d);
  }

  lemma {:induction false} ClipMirror(a: Point, b: Point, w: int, h: int)
    requires w > 0 && h > 0
    ensures var r, r' := ClipFrom(a, b, w, h), ClipFrom(Mirror(a, w), Mirror(b, w), w, h);
      r'.ok == r.ok && r'.a == Mirror(r.a, w) && r'.b == Mirror(r.b, w)
    decreases Sides(a, b, w, h)
  {
    var o1, o2 := OutCode(a, w, h), OutCode(b, w, h);
    if !o1.Meets(o2) && !(o1.Zero() && o2.Zero()) {
      RoundFacts(a, b, w, h, a, 0, 0, 0);
      CutMirror(a, b, if o1.Zero() then o2 else o1, w, h);
      var (a', b') := Round(a, b, w, h);
      assert Round(Mirror(a, w), Mirror(b, w), w, h) == (Mirror(a', w), Mirror(b', w));
      ClipMirror(a', b', w, h);
    }
  }

  /**
   Every spot of an accepted segment that is a column from the left and right edges of the window and a row
   from the upper one is in the rectangle of the ends that are left, or less than three pixels beyond it.
   */
  lemma InnerKept(a: Point, b: Point, w: int, h: int, s: Spot)
    requires w > 0 && h > 0 && OnSegment(s, a, b) && Inner(s, w, h)
    ensures ClipFrom(a, b, w, h).ok && Near(s, ClipFrom(a, b, w, h).a, ClipFrom(a, b, w, h).b, 3.0)
  {
    if !ClipFrom(a, b, w, h).ok {
      LostOnlyAtEdges(a, b, w, h, s);
    }
    if a.x <= b.x {
      RightKept(a, b, w, h, s);
    } else {
      ClipMirror(a, b, w, h);
      var s' := Spot((w - 1) as real - s.x, s.y);
      MirrorOn(a, b, w, s);
      RightKept(Mirror(a, w), Mirror(b, w), w, h, s');
    }
  }

  lemma MirrorOn(a: Point, b: Point, w: int, s: Spot)
    requires OnSegment(s, a, b)
    ensures OnSegment(Spot((w - 1) as real - s.x, s.y), Mirror(a, w), Mirror(b, w))
  {
    var x, dx, y, dy := s.x - a.x as real, (b.x - a.x) as real, s.y - a.y as real, (b.y - a.y) as real;
    assert (-x) * dy == -(x * dy) && y * -dx == -(y * dx);
  }

  // ----- the upper edge -----

  lemma QuotientIs(n: int, d: int, q: int, r: int)
    requires n == d * q + r && 0 <= r < d && n >= 0
    ensures TDiv(-n, d) == -q
  {
    var r' := TDivFacts(-n, d);
    SameQuotient(d, q, r, -TDiv(-n, d), -r');
  }

  lemma SameQuotient(d: int, q: int, r: int, q': int, r': int)
    requires d * q + r == d * q' + r' && 0 <= r < d && 0 <= r' < d
    ensures q == q'
  {
    assert d * (q - q') == r' - r;
    AbsMul(d, q - q');
    AtLeastOnce(d, Abs(q - q'));
  }

  /** How far a segment rises until it comes to the left edge; z is x * h. */
  lemma RisesTo(x: int, h: int, z: int)
    requires x > 0 && h > 0 && z == x * h
    ensures TDiv((1 - 2 * h) * (2 * z - x), 4 * z) == 1 - h
  {
    ScaleUp(x, 1, h);
    NonNegMul(4 * z, h - 1);
    var n := 4 * z * (h - 1) + x;
    assert (1 - 2 * h) * (2 * z - x) == 2 * z - x - 4 * (h * z) + 2 * (x * h);
    assert 4 * z * (h - 1) == 4 * (h * z) - 4 * z;
    QuotientIs(n, 4 * z, h - 1, x);
  }

  /** A flat segment that goes up through a pixel of the first row, of which nothing but the corner is left. */
  lemma LostAbove(p: Point, w: int, h: int, z: int)
    requires InWindow(p, w, h) && p.y == 0 && p.x > 0 && z == p.x * h
    ensures var a, b := Point(p.x - 2 * z, h), Point(p.x + 2 * z, -h);
      && Through(p, a, b) && ClipFrom(a, b, w, h).ok
      && ClipFrom(a, b, w, h).a == Point(0, 0) && ClipFrom(a, b, w, h).b == Point(0, 0)
  {
    var a, b, t := Point(p.x - 2 * z, h), Point(p.x + 2 * z, -h), Point(p.x - 2 * z, h - 1);
    ScaleUp(p.x, 1, h);
    NoFall(b.x - a.x, 2 * h);
    AfterFirstCut(a, b, w, h);
    RisesTo(p.x, h, z);
    AfterFirstCut(t, b, w, h);
    NoFall(b.x, h);
    AfterFarCut(Point(0, 0), b, w, h);
    CrossAbove(z, h);
  }

  lemma NoFall(v: int, d: int)
    requires d > 0
    ensures TDiv(v * 0, d) == 0
  {
  }

  lemma CrossAbove(z: int, h: int)
    ensures 2 * z * (-h - h) == -h * (4 * z)
  {
  }

  lemma ThroughMirror(p: Point, a: Point, b: Point, w: int)
    requires Through(p, a, b)
    ensures Through(Mirror(p, w), Mirror(a, w), Mirror(b, w))
  {
    var x, dx, y, dy := p.x - a.x, b.x - a.x, p.y - a.y, b.y - a.y;
    assert (-x) * dy == -(x * dy) && y * -dx == -(y * dx);
  }

  /** A segment through the pixel that is rejected, or of which nothing within three pixels of it is left. */
  lemma LostAtEdge(p: Point, w: int, h: int) returns (a: Point, b: Point)
    requires InWindow(p, w, h) && w >= 6 && !(0 < p.x < w - 1 && p.y > 0)
    ensures Through(p, a, b) && !(ClipFrom(a, b, w, h).ok && Near(SpotOf(p), ClipFrom(a, b, w, h).a, ClipFrom(a, b, w, h).b, 3.0))
  {
    if p.x == 0 {
      LostOnTheLeft(p, w, h);
      a, b := Point(-1, p.y + 2 * h), Point(1, p.y - 2 * h);
    } else if p.x == w - 1 {
      LostOnTheRight(p, w, h);
      a, b := Point(w, p.y + 2 * h), Point(w - 2, p.y - 2 * h);
    } else if p.x >= 3 {
      LostAbove(p, w, h, p.x * h);
      a, b := Point(p.x - 2 * (p.x * h), h), Point(p.x + 2 * (p.x * h), -h);
    } else {
      var p' := Mirror(p, w);
      LostAbove(p', w, h, p'.x * h);
      var a', b' := Point(p'.x - 2 * (p'.x * h), h), Point(p'.x + 2 * (p'.x * h), -h);
      ThroughMirror(p', a', b', w);
      ClipMirror(a', b', w, h);
      a, b := Mirror(a', w), Mirror(b', w);
    }
  }

  /**
   Every segment through a pixel of the window is accepted, and the pixel is less than three pixels from
   the rectangle of the ends that are left, if and only if the pixel is not at the left, right or upper edge.
   */
  lemma AlwaysKeptIff(p: Point, w: int, h: int)
    requires InWindow(p, w, h) && w >= 6
    ensures (forall a, b :: Through(p, a, b) ==>
        ClipFrom(a, b, w, h).ok && Near(SpotOf(p), ClipFrom(a, b, w, h).a, ClipFrom(a, b, w, h).b, 3.0))
      <==> 0 < p.x < w - 1 && p.y > 0
  {
    if 0 < p.x < w - 1 && p.y > 0 {
      forall a, b | Through(p, a, b)
        ensures ClipFrom(a, b, w, h).ok && Near(SpotOf(p), ClipFrom(a, b, w, h).a, ClipFrom(a, b, w, h).b, 3.0)
      {
        ThroughIsOn(p, a, b);
        InnerKept(a, b, w, h, SpotOf(p));
      }
    } else {
      var a, b := LostAtEdge(p, w, h);
    }
  }

  /** On the automap's 320 by 168 pixels: fifty pixels of the first row are in sight, and a single dot is drawn. */
  lemma ShortenedExample()
    ensures var a, b := Point(-16750, 168), Point(16850, -168);
      && Through(Point(50, 0), a, b) && ClipFrom(a, b, 320, 168).ok
      && ClipFrom(a, b, 320, 168).a == Point(0, 0) && ClipFrom(a, b, 320, 168).b == Point(0, 0)
  {
    LostAbove(Point(50, 0), 320, 168, 8400);
  }
}
