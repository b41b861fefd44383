/**
 The automap's line clipper (AM_clipMline, src/user/xinuldoom/am_map.c:846-971), from frame-buffer
 coordinates on: Cohen-Sutherland with division that truncates toward zero.
 */
module LineClip {
  import opened CInt

  datatype Point = Point(x: int, y: int)

  /** The four bits of an outcode. */
  datatype Code = Code(top: bool, bottom: bool, right: bool, left: bool) {
    predicate Zero() {
      !top && !bottom && !right && !left
    }
    /** The bitwise `and` of two codes is not zero. */
    predicate Meets(c: Code) {
      (top && c.top) || (bottom && c.bottom) || (right && c.right) || (left && c.left)
    }
  }

  /** DOOUTCODE */
  function OutCode(p: Point, w: int, h: int): Code {
    Code(p.y < 0, p.y >= 0 && p.y >= h, p.x >= 0 && p.x >= w, p.x < 0)
  }

  predicate InWindow(p: Point, w: int, h: int) {
    0 <= p.x < w && 0 <= p.y < h
  }

  /** t lies in the rectangle spanned by a and b. */
  predicate InBox(t: Point, a: Point, b: Point) {
    && (a.x <= t.x <= b.x || b.x <= t.x <= a.x)
    && (a.y <= t.y <= b.y || b.y <= t.y <= a.y)
  }

  /** How far p is from the line through o with direction (dx, dy), times the length of (dx, dy). */
  function Dev(p: Point, o: Point, dx: int, dy: int): int {
    (p.x - o.x) * dy - (p.y - o.y) * dx
  }

  /** How many of the four window sides the segment crosses. */
  function Sides(a: Point, b: Point, w: int, h: int): nat {
    (if a.y < 0 || b.y < 0 then 1 else 0) + (if a.y >= h || b.y >= h then 1 else 0)
    + (if a.x < 0 || b.x < 0 then 1 else 0) + (if a.x >= w || b.x >= w then 1 else 0)
  }

  // ----- one cut -----

  lemma TDivFacts(n: int, d: int) returns (r: int)
    requires d != 0
    ensures n == d * TDiv(n, d) + r
    ensures Abs(r) < Abs(d)
    ensures n >= 0 ==> r >= 0
    ensures n <= 0 ==> r <= 0
  {
    var q := DivMod(Abs(n), Abs(d));
    r := if n >= 0 then Abs(n) % Abs(d) else -(Abs(n) % Abs(d));
    Signs(d, q);
  }

  lemma DivMod(m: nat, e: nat) returns (q: nat)
    requires e > 0
    ensures q == m / e && m == e * q + m % e && m % e < e
  {
    q := m / e;
  }

  lemma Signs(d: int, q: int)
    ensures d * q == -(-d * q) == -(d * -q) == -d * -q
  {
  }

  /** k is a part of d: between 0 and d. */
  predicate Part(k: int, d: int) {
    0 <= k <= d || d <= k <= 0
  }

  lemma MulBound(x: int, k: int, d: int)
    requires Part(k, d)
    ensures Abs(x * k) <= Abs(x) * Abs(d)
  {
    AbsMul(x, k);
    assert Abs(x) * Abs(d) == Abs(x) * Abs(k) + Abs(x) * (Abs(d) - Abs(k));
    assert Abs(x) * (Abs(d) - Abs(k)) >= 0;
  }

  lemma AbsMul(x: int, y: int)
    ensures Abs(x * y) == Abs(x) * Abs(y)
  {
    if x >= 0 && y >= 0 {
    } else if x < 0 && y < 0 {
      assert (-x) * (-y) == x * y;
      NonNegMul(-x, -y);
    } else if x < 0 {
      assert (-x) * y == -(x * y);
      NonNegMul(-x, y);
    } else {
      assert x * (-y) == -(x * y);
      NonNegMul(x, -y);
    }
  }

  lemma NonNegMul(x: int, y: int)
    requires x >= 0 && y >= 0
    ensures x * y >= 0
  {
  }

  /** The cut's displacement v*k/d is between 0 and v, and less than one unit from exact. */
  lemma CutFacts(v: int, k: int, d: int) returns (r: int)
    requires d != 0 && Part(k, d)
    ensures Part(TDiv(v * k, d), v)
    ensures d * TDiv(v * k, d) == v * k - r && Abs(r) < Abs(d)
  {
    var n := v * k;
    r := TDivFacts(n, d);
    CutSize(v, k, d, TDiv(n, d), r);
    CutSign(v, k, d, TDiv(n, d), r);
  }

  lemma CutSize(v: int, k: int, d: int, q: int, r: int)
    requires d != 0 && Part(k, d) && v * k == d * q + r
    requires v * k >= 0 ==> r >= 0
    requires v * k <= 0 ==> r <= 0
    requires Abs(r) < Abs(d)
    ensures Abs(q) <= Abs(v)
  {
    MulBound(v, k, d);
    AbsMul(d, q);
    Shrinks(v * k, d, q, r);
    QuotientBound(Abs(d), Abs(q), Abs(v));
  }

  /** Truncation never moves the product away from zero. */
  lemma Shrinks(n: int, d: int, q: int, r: int)
    requires d != 0 && n == d * q + r && Abs(r) < Abs(d)
    requires n >= 0 ==> r >= 0
    requires n <= 0 ==> r <= 0
    ensures Abs(d * q) <= Abs(n)
  {
    MulAway(Abs(d), q);
    if d < 0 {
      assert -d * q == -(d * q);
    }
  }

  lemma QuotientBound(d: int, q: int, v: int)
    requires d > 0 && d * q <= v * d
    ensures q <= v
  {
    MulAway(d, q - v);
    assert d * (q - v) == d * q - v * d;
  }

  lemma CutSign(v: int, k: int, d: int, q: int, r: int)
    requires d != 0 && Part(k, d) && v * k == d * q + r && Abs(r) < Abs(d)
    requires v * k >= 0 ==> r >= 0
    requires v * k <= 0 ==> r <= 0
    ensures v >= 0 ==> q >= 0
    ensures v <= 0 ==> q <= 0
  {
    MulAway(Abs(d), q);
    if d > 0 {
      MulSign(v, k);
    } else {
      MulSign(v, -k);
      assert v * -k == -(v * k);
      assert -d * q == -(d * q);
    }
  }

  lemma MulSign(v: int, k: int)
    requires k >= 0
    ensures v >= 0 ==> v * k >= 0
    ensures v <= 0 ==> v * k <= 0
  {
    if v >= 0 {
      NonNegMul(v, k);
    } else {
      NonNegMul(-v, k);
      assert (-v) * k == -(v * k);
    }
  }

  /** The point that replaces the outside end of [a, b]. */
  function Cut(a: Point, b: Point, outside: Code, w: int, h: int): Point
    requires !OutCode(a, w, h).Meets(OutCode(b, w, h)) && w > 0 && h > 0
    requires Chosen(a, b, outside, w, h)
  {
    if outside.top then
      Point(a.x + TDiv((b.x - a.x) * a.y, a.y - b.y), 0)
    else if outside.bottom then
      Point(a.x + TDiv((b.x - a.x) * (a.y - h), a.y - b.y), h - 1)
    else if outside.right then
      Point(w - 1, a.y + TDiv((b.y - a.y) * (w - 1 - a.x), b.x - a.x))
    else
      Point(0, a.y + TDiv((b.y - a.y) * -a.x, b.x - a.x))
  }

  /** The end to move: a if it is outside, otherwise b. */
  predicate Chosen(a: Point, b: Point, outside: Code, w: int, h: int) {
    && !outside.Zero()
    && outside == (if OutCode(a, w, h).Zero() then OutCode(b, w, h) else OutCode(a, w, h))
  }

  /** Cutting at height c = a.y - k. */
  lemma CutAtHeight(a: Point, b: Point, k: int, o: Point, dx: int, dy: int, m: int)
    requires var d := a.y - b.y; d != 0 && Part(k, d)
    requires Abs(Dev(a, o, dx, dy)) <= m && Abs(Dev(b, o, dx, dy)) <= m
    ensures var t := Point(a.x + TDiv((b.x - a.x) * k, a.y - b.y), a.y - k);
      InBox(t, a, b) && Abs(Dev(t, o, dx, dy)) <= m + Abs(dy)
  {
    var d, v := a.y - b.y, b.x - a.x;
    var r := CutFacts(v, k, d);
    var q := TDiv(v * k, d);
    var t := Point(a.x + q, a.y - k);
    HeightAlgebra(a.x - o.x, a.y - o.y, v, d, k, q, r, dx, dy);
    assert a.x - o.x + v == b.x - o.x && a.y - o.y - d == b.y - o.y;
    Interpolated(d, k, Dev(a, o, dx, dy), Dev(b, o, dx, dy), r, dy, Dev(t, o, dx, dy), m);
  }

  lemma HeightAlgebra(px: int, py: int, v: int, d: int, k: int, q: int, r: int, dx: int, dy: int)
    requires d * q == v * k - r
    ensures var da, db := px * dy - py * dx, (px + v) * dy - (py - d) * dx;
      d * ((px + q) * dy - (py - k) * dx) == (d - k) * da + k * db - r * dy
  {
    var da, db := px * dy - py * dx, (px + v) * dy - (py - d) * dx;
    assert db - da == v * dy + d * dx;
    assert d * ((px + q) * dy - (py - k) * dx) == d * da + (d * q) * dy + (d * k) * dx;
    assert (d * q) * dy == (v * k) * dy - r * dy;
    assert k * (db - da) == (v * k) * dy + (d * k) * dx;
    assert (d - k) * da + k * db == d * da + k * (db - da);
  }

  /** Cutting at the column c = a.x + k. */
  lemma CutAtColumn(a: Point, b: Point, k: int, o: Point, dx: int, dy: int, m: int)
    requires var d := b.x - a.x; d != 0 && Part(k, d)
    requires Abs(Dev(a, o, dx, dy)) <= m && Abs(Dev(b, o, dx, dy)) <= m
    ensures var t := Point(a.x + k, a.y + TDiv((b.y - a.y) * k, b.x - a.x));
      InBox(t, a, b) && Abs(Dev(t, o, dx, dy)) <= m + Abs(dx)
  {
    var d, v := b.x - a.x, b.y - a.y;
    var r := CutFacts(v, k, d);
    var q := TDiv(v * k, d);
    var t := Point(a.x + k, a.y + q);
    ColumnAlgebra(a.x - o.x, a.y - o.y, v, d, k, q, r, dx, dy);
    assert a.x - o.x + d == b.x - o.x && a.y - o.y + v == b.y - o.y;
    Interpolated(d, k, Dev(a, o, dx, dy), Dev(b, o, dx, dy), -r, dx, Dev(t, o, dx, dy), m);
  }

  lemma ColumnAlgebra(px: int, py: int, v: int, d: int, k: int, q: int, r: int, dx: int, dy: int)
    requires d * q == v * k - r
    ensures var da, db := px * dy - py * dx, (px + d) * dy - (py + v) * dx;
      d * ((px + k) * dy - (py + q) * dx) == (d - k) * da + k * db - (-r) * dx
  {
    var da, db := px * dy - py * dx, (px + d) * dy - (py + v) * dx;
    assert db - da == d * dy - v * dx;
    assert d * ((px + k) * dy - (py + q) * dx) == d * da + (d * k) * dy - (d * q) * dx;
    assert (d * q) * dx == (v * k) * dx - r * dx;
    assert k * (db - da) == (d * k) * dy - (v * k) * dx;
    assert (d - k) * da + k * db == d * da + k * (db - da);
  }

  /** A point between two points near the line, displaced by less than one unit, stays near it. */
  lemma Interpolated(d: int, k: int, da: int, db: int, r: int, e: int, x: int, m: int)
    requires d != 0 && Part(k, d) && Abs(r) < Abs(d)
    requires Abs(da) <= m && Abs(db) <= m
    requires d * x == (d - k) * da + k * db - r * e
    ensures Abs(x) <= m + Abs(e)
  {
    var w, z := (d - k) * da + k * db, r * e;
    Weighted(d, k, da, db, m);
    AbsMul(r, e);
    AbsMul(d, x);
    ScaleUp(Abs(e), Abs(r), Abs(d));
    assert Abs(d * x) <= Abs(w) + Abs(z);
    Collect(Abs(d), Abs(x), m, Abs(e), Abs(w), Abs(z), Abs(r));
  }

  lemma Collect(d: int, x: int, m: int, e: int, w: int, z: int, r: int)
    requires d > 0 && d * x <= w + z && w <= d * m && z == r * e && e * r <= e * d
    ensures x <= m + e
  {
    assert (m + e) * d == d * m + e * d;
    QuotientBound(d, x, m + e);
  }

  lemma Weighted(d: int, k: int, da: int, db: int, m: int)
    requires Part(k, d) && Abs(da) <= m && Abs(db) <= m
    ensures Abs((d - k) * da + k * db) <= Abs(d) * m
  {
    AbsMul(d - k, da);
    AbsMul(k, db);
    ScaleUp(Abs(d - k), Abs(da), m);
    ScaleUp(Abs(k), Abs(db), m);
    assert Abs(d - k) + Abs(k) == Abs(d);
    Distribute(Abs(d - k), Abs(k), m);
  }

  lemma Distribute(x: int, y: int, m: int)
    ensures x * m + y * m == (x + y) * m
  {
  }

  lemma ScaleUp(c: int, x: int, y: int)
    requires c >= 0 && x <= y
    ensures c * x <= c * y
  {
    NonNegMul(c, y - x);
    assert c * (y - x) == c * y - c * x;
  }

  /** |dx| + |dy| of a segment */
  function Extent(a: Point, b: Point): nat {
    Abs(b.x - a.x) + Abs(b.y - a.y)
  }

  /** The segment after one round. */
  function Round(a: Point, b: Point, w: int, h: int): (Point, Point)
    requires w > 0 && h > 0
    requires !OutCode(a, w, h).Meets(OutCode(b, w, h))
    requires !OutCode(a, w, h).Zero() || !OutCode(b, w, h).Zero()
  {
    if OutCode(a, w, h).Zero() then (a, Cut(a, b, OutCode(b, w, h), w, h))
    else (Cut(a, b, OutCode(a, w, h), w, h), b)
  }

  /**
   One round keeps the segment inside its own rectangle, crosses one window side less, is shorter,
   and moves the new end less than one pixel in each direction off the line through o.
   */
  lemma RoundFacts(a: Point, b: Point, w: int, h: int, o: Point, dx: int, dy: int, m: int)
    requires w > 0 && h > 0
    requires !OutCode(a, w, h).Meets(OutCode(b, w, h))
    requires !OutCode(a, w, h).Zero() || !OutCode(b, w, h).Zero()
    requires Abs(Dev(a, o, dx, dy)) <= m && Abs(Dev(b, o, dx, dy)) <= m
    ensures var (a', b') := Round(a, b, w, h);
      && InBox(a', a, b) && InBox(b', a, b)
      && Sides(a', b', w, h) < Sides(a, b, w, h)
      && Extent(a', b') < Extent(a, b)
      && Abs(Dev(a', o, dx, dy)) <= m + Abs(dx) + Abs(dy)
      && Abs(Dev(b', o, dx, dy)) <= m + Abs(dx) + Abs(dy)
  {
    CutFactsFor(a, b, w, h, o, dx, dy, m);
  }

  lemma CutFactsFor(a: Point, b: Point, w: int, h: int, o: Point, dx: int, dy: int, m: int)
    requires w > 0 && h > 0
    requires !OutCode(a, w, h).Meets(OutCode(b, w, h))
    requires !OutCode(a, w, h).Zero() || !OutCode(b, w, h).Zero()
    requires Abs(Dev(a, o, dx, dy)) <= m && Abs(Dev(b, o, dx, dy)) <= m
    ensures var outside := if OutCode(a, w, h).Zero() then OutCode(b, w, h) else OutCode(a, w, h);
      var t := Cut(a, b, outside, w, h);
      && InBox(t, a, b)
      && (if outside.top then t.y == 0 else if outside.bottom then t.y == h - 1
          else if outside.right then t.x == w - 1 else t.x == 0)
      && Abs(Dev(t, o, dx, dy)) <= m + Abs(dx) + Abs(dy)
  {
    var outside := if OutCode(a, w, h).Zero() then OutCode(b, w, h) else OutCode(a, w, h);
    if outside.top {
      CutAtHeight(a, b, a.y, o, dx, dy, m);
    } else if outside.bottom {
      CutAtHeight(a, b, a.y - h, o, dx, dy, m);
      ShiftUp(a.x + TDiv((b.x - a.x) * (a.y - h), a.y - b.y), h, o, dx, dy);
    } else if outside.right {
      CutAtColumn(a, b, w - 1 - a.x, o, dx, dy, m);
    } else {
      CutAtColumn(a, b, -a.x, o, dx, dy, m);
    }
  }

  lemma ShiftUp(x: int, h: int, o: Point, dx: int, dy: int)
    ensures Dev(Point(x, h - 1), o, dx, dy) == Dev(Point(x, h), o, dx, dy) + dx
  {
    assert (h - 1 - o.y) * dx == (h - o.y) * dx - dx;
  }

  // ----- the whole clip -----

  datatype Clipped = Clipped(ok: bool, a: Point, b: Point, rounds: nat)

  /** What AM_clipMline makes of a segment: whether to draw it, the ends it leaves, and the rounds it took. */
  function ClipFrom(a: Point, b: Point, w: int, h: int): Clipped
    requires w > 0 && h > 0
    decreases Sides(a, b, w, h)
  {
    var o1, o2 := OutCode(a, w, h), OutCode(b, w, h);
    if o1.Meets(o2) then Clipped(false, a, b, 0)
    else if o1.Zero() && o2.Zero() then Clipped(true, a, b, 0)
    else
      RoundFacts(a, b, w, h, a, 0, 0, 0);
      var (a', b') := Round(a, b, w, h);
      var r := ClipFrom(a', b', w, h);
      r.(rounds := r.rounds + 1)
  }

  /** n * e, as n additions */
  function Times(n: nat, e: nat): nat {
    if n == 0 then 0 else Times(n - 1, e) + e
  }

  lemma FourTimes(n: nat, e: nat)
    requires n <= 4
    ensures Times(n, e) <= 4 * e
  {
    assert Times(1, e) == e;
    assert Times(2, e) == 2 * e;
    assert Times(3, e) == 3 * e;
    assert Times(4, e) == 4 * e;
  }

  /**
   At most one round per window side. The ends stay in the segment's rectangle and each round adds at
   most one pixel in each direction to their distance from the line through o. A segment is accepted
   only inside the window and rejected only when both ends are beyond one side.
   */
  lemma {:induction false} ClipFacts(a: Point, b: Point, w: int, h: int, o: Point, dx: int, dy: int, e: nat, m: nat)
    requires w > 0 && h > 0 && e == Abs(dx) + Abs(dy)
    requires Abs(Dev(a, o, dx, dy)) <= m && Abs(Dev(b, o, dx, dy)) <= m
    ensures var r := ClipFrom(a, b, w, h);
      && r.rounds <= Sides(a, b, w, h)
      && InBox(r.a, a, b) && InBox(r.b, a, b)
      && (if r.ok then InWindow(r.a, w, h) && InWindow(r.b, w, h)
          else OutCode(r.a, w, h).Meets(OutCode(r.b, w, h)))
      && Abs(Dev(r.a, o, dx, dy)) <= m + Times(r.rounds, e)
      && Abs(Dev(r.b, o, dx, dy)) <= m + Times(r.rounds, e)
    decreases Sides(a, b, w, h)
  {
    var o1, o2 := OutCode(a, w, h), OutCode(b, w, h);
    if !o1.Meets(o2) && !(o1.Zero() && o2.Zero()) {
      RoundFacts(a, b, w, h, o, dx, dy, m);
      var (a', b') := Round(a, b, w, h);
      ClipFacts(a', b', w, h, o, dx, dy, e, m + e);
      var r := ClipFrom(a', b', w, h);
      InBoxTrans(r.a, a', b', a, b);
      InBoxTrans(r.b, a', b', a, b);
    }
  }

  lemma InBoxTrans(t: Point, a': Point, b': Point, a: Point, b: Point)
    requires InBox(t, a', b') && InBox(a', a, b) && InBox(b', a, b)
    ensures InBox(t, a, b)
  {
  }

  /** For every segment: four rounds at most, and accepted ends within four pixels of the line in each direction. */
  lemma ClipStaysOnLine(a: Point, b: Point, w: int, h: int)
    requires w > 0 && h > 0
    ensures var r := ClipFrom(a, b, w, h); var dx, dy := b.x - a.x, b.y - a.y;
      && r.rounds <= 4
      && InBox(r.a, a, b) && InBox(r.b, a, b)
      && (r.ok ==> InWindow(r.a, w, h) && InWindow(r.b, w, h))
      && Abs(Dev(r.a, a, dx, dy)) <= 4 * (Abs(dx) + Abs(dy))
      && Abs(Dev(r.b, a, dx, dy)) <= 4 * (Abs(dx) + Abs(dy))
  {
    var dx, dy := b.x - a.x, b.y - a.y;
    EndsOnLine(a, b);
    ClipDrift(a, b, w, h, a, dx, dy, Abs(dx) + Abs(dy));
  }

  lemma ClipDrift(a: Point, b: Point, w: int, h: int, o: Point, dx: int, dy: int, e: nat)
    requires w > 0 && h > 0 && e == Abs(dx) + Abs(dy)
    requires Dev(a, o, dx, dy) == 0 && Dev(b, o, dx, dy) == 0
    ensures var r := ClipFrom(a, b, w, h);
      && r.rounds <= 4
      && InBox(r.a, a, b) && InBox(r.b, a, b)
      && (r.ok ==> InWindow(r.a, w, h) && InWindow(r.b, w, h))
      && Abs(Dev(r.a, o, dx, dy)) <= 4 * e
      && Abs(Dev(r.b, o, dx, dy)) <= 4 * e
  {
    ClipFacts(a, b, w, h, o, dx, dy, e, 0);
    FourTimes(ClipFrom(a, b, w, h).rounds, e);
  }

  lemma EndsOnLine(a: Point, b: Point)
    ensures Dev(a, a, b.x - a.x, b.y - a.y) == 0
    ensures Dev(b, a, b.x - a.x, b.y - a.y) == 0
  {
  }

  /** On horizontal and vertical segments clipping is exact: it keeps precisely the visible pixels. */
  lemma {:induction false} AxisAlignedExact(a: Point, b: Point, w: int, h: int, p: Point)
    requires w > 0 && h > 0 && (a.x == b.x || a.y == b.y)
    ensures var r := ClipFrom(a, b, w, h);
      r.ok && InBox(p, r.a, r.b) <==> InBox(p, a, b) && InWindow(p, w, h)
    decreases Sides(a, b, w, h)
  {
    var o1, o2 := OutCode(a, w, h), OutCode(b, w, h);
    if !o1.Meets(o2) && !(o1.Zero() && o2.Zero()) {
      RoundFacts(a, b, w, h, a, 0, 0, 0);
      var (a', b') := Round(a, b, w, h);
      AxisAlignedExact(a', b', w, h, p);
    }
  }

  /** fline_t: a segment whose ends the clipper moves in place. */
  class FLine {
    var a: Point
    var b: Point

    constructor (a: Point, b: Point)
      ensures this.a == a && this.b == b
    {
      this.a, this.b := a, b;
    }

    /** AM_clipMline on frame-buffer coordinates, in a window of f_w by f_h. */
    method Clip(f_w: int, f_h: int) returns (ok: bool)
      requires f_w > 0 && f_h > 0
      modifies this
      ensures var r := ClipFrom(old(a), old(b), f_w, f_h);
        ok == r.ok && a == r.a && b == r.b
    {
      ghost var r := ClipFrom(a, b, f_w, f_h);
      var outcode1 := OutCode(a, f_w, f_h);
      var outcode2 := OutCode(b, f_w, f_h);
      if outcode1.Meets(outcode2) {
        return false;
      }
      while !(outcode1.Zero() && outcode2.Zero())
        invariant outcode1 == OutCode(a, f_w, f_h) && outcode2 == OutCode(b, f_w, f_h)
        invariant !outcode1.Meets(outcode2)
        invariant var c := ClipFrom(a, b, f_w, f_h); c.ok == r.ok && c.a == r.a && c.b == r.b
        decreases Sides(a, b, f_w, f_h)
      {
        RoundFacts(a, b, f_w, f_h, a, 0, 0, 0);
        var outside := if outcode1.Zero() then outcode2 else outcode1;
        var tmp := Cut(a, b, outside, f_w, f_h);
        if outside == outcode1 {
          a := tmp;
          outcode1 := OutCode(a, f_w, f_h);
        } else {
          b := tmp;
          outcode2 := OutCode(b, f_w, f_h);
        }
        if outcode1.Meets(outcode2) {
          return false;
        }
      }
      ok := true;
    }
  }
}
