/**
 What the automap's clipper loses (src/user/xinuldoom/am_map.c:889-968). Its cuts are rounded, and the
 one at the lower edge is off by a row, so a segment can be rejected although part of it is in the
 window. This tells when, and how much.
 */
module LineClipLoss {
  import opened CInt
  import opened LineClip

  /** A point of the plane. */
  datatype Spot = Spot(x: real, y: real)

  function SpotOf(p: Point): Spot {
    Spot(p.x as real, p.y as real)
  }

  predicate OnSegment(s: Spot, a: Point, b: Point) {
    && (s.x - a.x as real) * (b.y - a.y) as real == (s.y - a.y as real) * (b.x - a.x) as real
    && (a.x as real <= s.x <= b.x as real || b.x as real <= s.x <= a.x as real)
    && (a.y as real <= s.y <= b.y as real || b.y as real <= s.y <= a.y as real)
  }

  /** Inside the window, from the first to the last pixel of it. */
  predicate Visible(s: Spot, w: int, h: int) {
    0.0 <= s.x <= (w - 1) as real && 0.0 <= s.y <= (h - 1) as real
  }

  // ----- one coordinate along a segment -----

  /**
   The segment goes from coordinate av, at distance da on one side of a line, to bv, at distance db on
   the other. Where it crosses the line, v1 is its coordinate, rounded towards av.
   */
  ghost predicate Crosses(av: int, bv: int, da: int, db: int, v1: int) {
    && da >= 0 && db >= 0 && da + db > 0
    && (bv >= av ==> v1 * (da + db) <= av * db + bv * da < (v1 + 1) * (da + db))
    && (bv <= av ==> (v1 - 1) * (da + db) < av * db + bv * da <= v1 * (da + db))
  }

  /** The segment's coordinate is v at distance p behind the line. */
  ghost predicate Passes(av: int, bv: int, da: int, db: int, p: real, v: real) {
    0.0 <= p <= db as real && v * (da + db) as real == av as real * (db as real - p) + bv as real * (da as real + p)
  }

  lemma CutCrosses(av: int, bv: int, da: int, db: int, k: int, d: int)
    requires da >= 0 && db >= 0 && da + db > 0 && ((k == da && d == da + db) || (k == -da && d == -(da + db)))
    ensures Crosses(av, bv, da, db, av + TDiv((bv - av) * k, d))
  {
    var v, t := bv - av, da + db;
    var r := CutFacts(v, k, d);
    var r' := TDivFacts(v * k, d);
    var q := TDiv(v * k, d);
    assert r == r';
    MulSign(v, da);
    assert v * -da == -(v * da);
    Rescaled(av, bv, da, db, q, if d > 0 then r else -r);
  }

  lemma Rescaled(av: int, bv: int, da: int, db: int, q: int, r: int)
    requires da >= 0 && db >= 0 && da + db > 0 && (da + db) * q == (bv - av) * da - r && Abs(r) < da + db
    requires bv >= av ==> r >= 0
    requires bv <= av ==> r <= 0
    ensures Crosses(av, bv, da, db, av + q)
  {
    assert (av + q) * (da + db) == av * (da + db) + ((bv - av) * da - r);
    assert av * (da + db) + (bv - av) * da == av * db + bv * da;
    assert (av + q + 1) * (da + db) == (av + q) * (da + db) + (da + db);
    assert (av + q - 1) * (da + db) == (av + q) * (da + db) - (da + db);
  }

  /** Both seen from the other side. */
  lemma Mirrored(c: int, av: int, bv: int, da: int, db: int, v1: int, p: real, v: real)
    requires Crosses(av, bv, da, db, v1) && Passes(av, bv, da, db, p, v)
    ensures Crosses(c - av, c - bv, da, db, c - v1) && Passes(c - av, c - bv, da, db, p, c as real - v)
  {
    var t := da + db;
    assert (c - av) * db + (c - bv) * da == c * t - (av * db + bv * da);
    assert (c - v1) * t == c * t - v1 * t;
    assert (c - v1 + 1) * t == c * t - (v1 - 1) * t;
    assert (c - v1 - 1) * t == c * t - (v1 + 1) * t;
    MirroredReal(c as real, av as real, bv as real, da as real, db as real, p, v);
  }

  lemma MirroredReal(c: real, av: real, bv: real, da: real, db: real, p: real, v: real)
    requires v * (da + db) == av * (db - p) + bv * (da + p)
    ensures (c - v) * (da + db) == (c - av) * (db - p) + (c - bv) * (da + p)
  {
    assert c * (da + db) == c * (db - p) + c * (da + p);
  }

  /** The coordinate at distance p, from where the line is crossed. */
  lemma FromCrossing(av: real, bv: real, da: real, db: real, p: real, v: real, n: real)
    requires v * (da + db) == av * (db - p) + bv * (da + p) && n == av * db + bv * da
    ensures db * v * (da + db) == n * (db - p) + bv * p * (da + db)
  {
    assert db * (v * (da + db)) == db * (av * (db - p)) + db * (bv * (da + p));
    assert db * (av * (db - p)) == (n - bv * da) * (db - p);
  }

  /** If crossing and end are both on the wrong side, so is everything in between. */
  lemma AllBeyond(av: int, bv: int, da: int, db: int, v1: int, p: real, v: real)
    requires Crosses(av, bv, da, db, v1) && Passes(av, bv, da, db, p, v) && v1 < 0 && bv < 0
    ensures v < 0.0
  {
    var n, t := av * db + bv * da, da + db;
    NotAbove(v1, t);
    assert n < 0;
    FromCrossing(av as real, bv as real, da as real, db as real, p, v, n as real);
    if db == 0 {
      SameSign(v, t as real, bv as real * da as real);
    } else {
      NegativeSum(n as real, db as real - p, bv as real, p, t as real);
      SameSign(db as real * v, t as real, n as real * (db as real - p) + bv as real * p * t as real);
      SameSign(v, db as real, db as real * v);
    }
  }

  lemma NotAbove(v1: int, t: int)
    requires v1 < 0 && t > 0
    ensures v1 * t <= -t && (v1 + 1) * t <= 0
  {
  }

  lemma SameSign(v: real, t: real, product: real)
    requires t > 0.0 && v * t == product && product < 0.0
    ensures v < 0.0
  {
  }

  lemma NegativeSum(n: real, x: real, b: real, p: real, t: real)
    requires n < 0.0 && b < 0.0 && x >= 0.0 && p >= 0.0 && t > 0.0 && x + p > 0.0
    ensures n * x + b * p * t < 0.0
  {
    assert b * p <= 0.0;
    if x > 0.0 {
      assert n * x < 0.0;
      assert b * p * t <= 0.0;
    } else {
      assert b * p < 0.0;
      assert b * p * t < 0.0;
      assert n * x == 0.0;
    }
  }

  /**
   The second cut goes beyond the far edge of the window, at distance h: whatever was in the window is
   within one unit of the near edge of the second cut.
   */
  lemma NearEdge(av: int, bv: int, da: int, db: int, v1: int, h: int, p: real, v: real)
    requires Crosses(av, bv, da, db, v1) && Passes(av, bv, da, db, p, v) && v1 < 0 <= bv
    requires 0 < h <= db && -v1 * (db - h) >= h * bv && p <= h as real
    ensures v < 1.0
  {
    var n, t := av * db + bv * da, da + db;
    Approaches(av, bv, da, db, v1);
    FromCrossing(av as real, bv as real, da as real, db as real, p, v, n as real);
    assert n < (v1 + 1) * t;
    assert n as real < (v1 as real + 1.0) * t as real;
    UpTo(v1 as real, bv as real, db as real, h as real, p);
    BelowOne(n as real, v1 as real, bv as real, db as real, t as real, p, v);
  }

  /** A segment that is on the near side where it crosses, and not at its end, came from there. */
  lemma Approaches(av: int, bv: int, da: int, db: int, v1: int)
    requires Crosses(av, bv, da, db, v1) && v1 < 0 <= bv
    ensures bv > av
  {
    if bv <= av {
      NonNegMul(av, db);
      NonNegMul(bv, da);
      NotAbove(v1, da + db);
    }
  }

  lemma UpTo(v1: real, bv: real, db: real, h: real, p: real)
    requires v1 < 0.0 <= bv && 0.0 <= p <= h <= db && -v1 * (db - h) >= h * bv
    ensures v1 * (db - p) + bv * p <= 0.0
  {
    assert bv * p <= bv * h;
    assert v1 * (db - p) <= v1 * (db - h);
  }

  lemma BelowOne(n: real, v1: real, bv: real, db: real, t: real, p: real, v: real)
    requires t > 0.0 && db > 0.0 && 0.0 <= p <= db && n < (v1 + 1.0) * t
    requires db * v * t == n * (db - p) + bv * p * t && v1 * (db - p) + bv * p <= 0.0
    ensures v < 1.0
  {
    var x := (v1 + 1.0) * (db - p) + bv * p;
    assert n * (db - p) <= (v1 + 1.0) * t * (db - p);
    assert p == 0.0 ==> n * (db - p) < (v1 + 1.0) * t * (db - p);
    assert (v1 + 1.0) * t * (db - p) + bv * p * t == x * t;
    assert x <= db - p;
    assert x * t <= (db - p) * t;
    assert db * v * t <= x * t && (p == 0.0 ==> db * v * t < x * t);
    assert p > 0.0 ==> (db - p) * t < db * t;
    assert (db * v - db) * t < 0.0;
    SameSign(db * v - db, t, (db * v - db) * t);
    assert (v - 1.0) * db == db * v - db;
    SameSign(v - 1.0, db, db * v - db);
  }

  // ----- the four edges -----

  /** A spot on the segment, seen from the row y = c that the segment crosses coming from below it or above it. */
  lemma PassesRow(a: Point, b: Point, s: Spot, c: int)
    requires OnSegment(s, a, b)
    ensures b.y <= c <= a.y && s.y <= c as real ==> Passes(a.x, b.x, a.y - c, c - b.y, c as real - s.y, s.x)
    ensures a.y <= c <= b.y && s.y >= c as real ==> Passes(a.x, b.x, c - a.y, b.y - c, s.y - c as real, s.x)
  {
    LinePoint(s.x, s.y, a.x as real, a.y as real, b.x as real, b.y as real);
  }

  lemma LinePoint(x: real, y: real, x1: real, y1: real, x2: real, y2: real)
    requires (x - x1) * (y2 - y1) == (y - y1) * (x2 - x1)
    ensures x * (y1 - y2) == x1 * (y - y2) + x2 * (y1 - y)
    ensures y * (x1 - x2) == y1 * (x - x2) + y2 * (x1 - x)
  {
  }

  lemma PassesColumn(a: Point, b: Point, s: Spot, c: int)
    requires OnSegment(s, a, b)
    ensures b.x <= c <= a.x && s.x <= c as real ==> Passes(a.y, b.y, a.x - c, c - b.x, c as real - s.x, s.y)
    ensures a.x <= c <= b.x && s.x >= c as real ==> Passes(a.y, b.y, c - a.x, b.x - c, s.x - c as real, s.y)
  {
    LinePoint(s.x, s.y, a.x as real, a.y as real, b.x as real, b.y as real);
  }

  /** The cut of an end above or below the window. */
  lemma RowCut(a: Point, b: Point, w: int, h: int)
    requires w > 0 && h > 0 && !OutCode(a, w, h).Meets(OutCode(b, w, h))
    ensures a.y < 0 ==> Crosses(a.x, b.x, -a.y, b.y, Cut(a, b, OutCode(a, w, h), w, h).x) && Cut(a, b, OutCode(a, w, h), w, h).y == 0
    ensures a.y >= h ==> Crosses(a.x, b.x, a.y - h, h - b.y, Cut(a, b, OutCode(a, w, h), w, h).x) && Cut(a, b, OutCode(a, w, h), w, h).y == h - 1
  {
    if a.y < 0 {
      CutCrosses(a.x, b.x, -a.y, b.y, a.y, a.y - b.y);
    } else if a.y >= h {
      CutCrosses(a.x, b.x, a.y - h, h - b.y, a.y - h, a.y - b.y);
    }
  }

  /** The cut of an end to the left or right of the window, and neither above nor below. */
  lemma ColumnCut(a: Point, b: Point, w: int, h: int)
    requires w > 0 && h > 0 && !OutCode(a, w, h).Meets(OutCode(b, w, h)) && 0 <= a.y < h
    ensures a.x < 0 ==> Crosses(a.y, b.y, -a.x, b.x, Cut(a, b, OutCode(a, w, h), w, h).y) && Cut(a, b, OutCode(a, w, h), w, h).x == 0
    ensures a.x >= w ==>
      Crosses(a.y, b.y, a.x - (w - 1), w - 1 - b.x, Cut(a, b, OutCode(a, w, h), w, h).y) && Cut(a, b, OutCode(a, w, h), w, h).x == w - 1
  {
    if a.x < 0 {
      CutCrosses(a.y, b.y, -a.x, b.x, -a.x, b.x - a.x);
    } else if a.x >= w {
      CutCrosses(a.y, b.y, a.x - (w - 1), w - 1 - b.x, w - 1 - a.x, b.x - a.x);
    }
  }

  /** Rejected at once: nothing of the segment is in the window. */
  lemma MeetsUnseen(a: Point, b: Point, w: int, h: int, s: Spot)
    requires w > 0 && h > 0 && OnSegment(s, a, b) && OutCode(a, w, h).Meets(OutCode(b, w, h))
    ensures !Visible(s, w, h)
  {
  }

  /** Rejected after one cut: nothing of the segment is in the window either. */
  lemma FirstCutExact(a: Point, b: Point, w: int, h: int, s: Spot)
    requires w > 0 && h > 0 && OnSegment(s, a, b) && !OutCode(a, w, h).Meets(OutCode(b, w, h)) && !OutCode(a, w, h).Zero()
    requires OutCode(Cut(a, b, OutCode(a, w, h), w, h), w, h).Meets(OutCode(b, w, h))
    ensures !Visible(s, w, h)
  {
    var t := Cut(a, b, OutCode(a, w, h), w, h);
    if Visible(s, w, h) {
      if a.y < 0 || a.y >= h {
        RowCut(a, b, w, h);
        PassesRow(a, b, s, if a.y < 0 then 0 else h);
        var da, db, p := if a.y < 0 then -a.y else a.y - h, if a.y < 0 then b.y else h - b.y, if a.y < 0 then s.y else h as real - s.y;
        if t.x < 0 {
          AllBeyond(a.x, b.x, da, db, t.x, p, s.x);
        } else {
          Mirrored(w - 1, a.x, b.x, da, db, t.x, p, s.x);
          AllBeyond(w - 1 - a.x, w - 1 - b.x, da, db, w - 1 - t.x, p, (w - 1) as real - s.x);
        }
      } else {
        ColumnCut(a, b, w, h);
        PassesColumn(a, b, s, if a.x < 0 then 0 else w - 1);
        var da, db := if a.x < 0 then -a.x else a.x - (w - 1), if a.x < 0 then b.x else w - 1 - b.x;
        var p := if a.x < 0 then s.x else (w - 1) as real - s.x;
        if t.y < 0 {
          AllBeyond(a.y, b.y, da, db, t.y, p, s.y);
        } else {
          Mirrored(h - 1, a.y, b.y, da, db, t.y, p, s.y);
          AllBeyond(h - 1 - a.y, h - 1 - b.y, da, db, h - 1 - t.y, p, (h - 1) as real - s.y);
        }
      }
    }
  }

  // ----- the second cut -----

  /** A quotient at least h away from zero, in terms of the product. */
  lemma SteepCut(v: int, k: int, d: int, h: int)
    requires d != 0 && Part(k, d) && h > 0 && Abs(TDiv(v * k, d)) >= h
    ensures Abs(v) * Abs(k) >= h * Abs(d)
  {
    var r := TDivFacts(v * k, d);
    var q := TDiv(v * k, d);
    AbsMul(d, q);
    AbsMul(v, k);
    Shrinks(v * k, d, q, r);
    ScaleUp(Abs(d), h, Abs(q));
    assert Abs(d) * h == h * Abs(d);
  }

  /** u is how far the first cut is outside, bv how far the end is inside; the second cut climbs by h or more on its way of db or less. */
  lemma SteepMeans(u: nat, bv: nat, climb: nat, db: nat, h: nat)
    requires climb * u >= h * (u + bv) && climb <= db
    ensures u * (db - h) >= h * bv
  {
    assert h * (u + bv) == h * u + h * bv;
    assert u * (db - h) == u * db - u * h;
    assert u * db >= u * climb;
  }

  /** The first cut leaves t in a row of the window, the second one u, with b, above or below it. */
  ghost predicate TwoCuts(a: Point, b: Point, w: int, h: int) {
    && w > 0 && h > 0 && !OutCode(a, w, h).Meets(OutCode(b, w, h)) && (a.y < 0 || a.y >= h)
    && var t := Cut(a, b, OutCode(a, w, h), w, h);
    && 0 <= t.y < h && !OutCode(t, w, h).Meets(OutCode(b, w, h)) && !OutCode(t, w, h).Zero()
    && OutCode(Cut(t, b, OutCode(t, w, h), w, h), w, h).Meets(OutCode(b, w, h))
  }

  /** How steep the second cut is, with the distances of the first cut and of b from the window's side and of b from its edge. */
  lemma SteepFor(a: Point, b: Point, w: int, h: int, db: int)
    requires TwoCuts(a, b, w, h) && db == if a.y < 0 then b.y else h - b.y
    ensures var t := Cut(a, b, OutCode(a, w, h), w, h);
      && db >= h
      && (t.x < 0 ==> -t.x * (db - h) >= h * b.x)
      && (t.x >= w ==> (t.x - (w - 1)) * (db - h) >= h * (w - 1 - b.x))
  {
    var t := Cut(a, b, OutCode(a, w, h), w, h);
    var u := Cut(t, b, OutCode(t, w, h), w, h);
    RowCut(a, b, w, h);
    assert Abs(u.y - t.y) >= h && Abs(b.y - t.y) <= db && db >= h;
    if t.x < 0 {
      SteepCut(b.y - t.y, -t.x, b.x - t.x, h);
      SteepMeans(-t.x, b.x, Abs(b.y - t.y), db, h);
    } else {
      SteepCut(b.y - t.y, w - 1 - t.x, b.x - t.x, h);
      SteepMeans(t.x - (w - 1), w - 1 - b.x, Abs(b.y - t.y), db, h);
    }
  }

  /** Rejected after two cuts: what was in the window is within one unit of its left or right edge. */
  lemma SecondCutLoses(a: Point, b: Point, w: int, h: int, s: Spot)
    requires TwoCuts(a, b, w, h) && OnSegment(s, a, b) && Visible(s, w, h)
    ensures s.x < 1.0 || s.x > (w - 2) as real
  {
    var t := Cut(a, b, OutCode(a, w, h), w, h);
    RowCut(a, b, w, h);
    PassesRow(a, b, s, if a.y < 0 then 0 else h);
    var da, db, p := if a.y < 0 then -a.y else a.y - h, if a.y < 0 then b.y else h - b.y, if a.y < 0 then s.y else h as real - s.y;
    SteepFor(a, b, w, h, db);
    if t.x < 0 {
      NearEdge(a.x, b.x, da, db, t.x, h, p, s.x);
    } else {
      Mirrored(w - 1, a.x, b.x, da, db, t.x, p, s.x);
      NearEdge(w - 1 - a.x, w - 1 - b.x, da, db, w - 1 - t.x, h, p, (w - 1) as real - s.x);
    }
  }

  // ----- when a segment is rejected -----

  /** A segment with an end in the window is never rejected. */
  lemma {:induction false} EndInside(a: Point, b: Point, w: int, h: int)
    requires w > 0 && h > 0 && (InWindow(a, w, h) || InWindow(b, w, h))
    ensures ClipFrom(a, b, w, h).ok
    decreases Sides(a, b, w, h)
  {
    if !(InWindow(a, w, h) && InWindow(b, w, h)) {
      RoundFacts(a, b, w, h, a, 0, 0, 0);
      var (a', b') := Round(a, b, w, h);
      EndInside(a', b', w, h);
    }
  }

  /** The first end is above or below the window, beside it once it has been cut, and beyond the other edge after the second cut. */
  predicate CutAway(a: Point, b: Point, w: int, h: int)
    requires w > 0 && h > 0
  {
    && !OutCode(a, w, h).Meets(OutCode(b, w, h)) && (a.y < 0 || a.y >= h)
    && var t := Cut(a, b, OutCode(a, w, h), w, h);
    && !OutCode(t, w, h).Meets(OutCode(b, w, h)) && (t.x < 0 || t.x >= w)
    && OutCode(Cut(t, b, OutCode(t, w, h), w, h), w, h).Meets(OutCode(b, w, h))
  }

  /** An end that is in the rows of the window: after its cut it is inside, or the segment is rejected. */
  lemma ColumnCutDecides(a: Point, b: Point, w: int, h: int)
    requires w > 0 && h > 0 && !OutCode(a, w, h).Meets(OutCode(b, w, h)) && !OutCode(a, w, h).Zero() && 0 <= a.y < h
    ensures var t := Cut(a, b, OutCode(a, w, h), w, h); InWindow(t, w, h) || OutCode(t, w, h).Meets(OutCode(b, w, h))
  {
    CutFactsFor(a, b, w, h, a, 0, 0, 0);
  }

  lemma AfterCut(a: Point, b: Point, w: int, h: int)
    requires w > 0 && h > 0 && !OutCode(a, w, h).Meets(OutCode(b, w, h)) && !OutCode(a, w, h).Zero()
    ensures ClipFrom(a, b, w, h).ok == ClipFrom(Cut(a, b, OutCode(a, w, h), w, h), b, w, h).ok
  {
  }

  /** A segment of which something is in the window is rejected exactly if its second cut takes it away. */
  lemma RejectedIff(a: Point, b: Point, w: int, h: int, s: Spot)
    requires w > 0 && h > 0 && OnSegment(s, a, b) && Visible(s, w, h)
    ensures !ClipFrom(a, b, w, h).ok <==> CutAway(a, b, w, h)
  {
    if OutCode(a, w, h).Meets(OutCode(b, w, h)) {
      MeetsUnseen(a, b, w, h, s);
    } else if OutCode(a, w, h).Zero() {
      EndInside(a, b, w, h);
    } else {
      var t := Cut(a, b, OutCode(a, w, h), w, h);
      AfterCut(a, b, w, h);
      if OutCode(t, w, h).Meets(OutCode(b, w, h)) {
        FirstCutExact(a, b, w, h, s);
      } else if InWindow(t, w, h) {
        EndInside(t, b, w, h);
      } else {
        BesideAfterCut(a, b, w, h);
        AfterCut(t, b, w, h);
        ColumnCutDecides(t, b, w, h);
        var u := Cut(t, b, OutCode(t, w, h), w, h);
        if InWindow(u, w, h) {
          EndInside(u, b, w, h);
        }
      }
    }
  }

  lemma BesideAfterCut(a: Point, b: Point, w: int, h: int)
    requires w > 0 && h > 0 && !OutCode(a, w, h).Meets(OutCode(b, w, h)) && !OutCode(a, w, h).Zero()
    requires var t := Cut(a, b, OutCode(a, w, h), w, h); !InWindow(t, w, h) && !OutCode(t, w, h).Meets(OutCode(b, w, h))
    ensures var t := Cut(a, b, OutCode(a, w, h), w, h); (a.y < 0 || a.y >= h) && 0 <= t.y < h && (t.x < 0 || t.x >= w)
  {
    if 0 <= a.y < h {
      ColumnCutDecides(a, b, w, h);
    } else {
      RowCut(a, b, w, h);
    }
  }

  /** Whatever a rejected segment had in the window was within one unit of its left or right edge. */
  lemma LostOnlyAtEdges(a: Point, b: Point, w: int, h: int, s: Spot)
    requires w > 0 && h > 0 && OnSegment(s, a, b) && Visible(s, w, h) && !ClipFrom(a, b, w, h).ok
    ensures s.x < 1.0 || s.x > (w - 2) as real
  {
    RejectedIff(a, b, w, h, s);
    RowCut(a, b, w, h);
    SecondCutLoses(a, b, w, h, s);
  }

  // ----- which pixels can be lost -----

  /** The segment goes exactly through the pixel. */
  predicate Through(p: Point, a: Point, b: Point) {
    InBox(p, a, b) && Dev(p, a, b.x - a.x, b.y - a.y) == 0
  }

  lemma ThroughIsOn(p: Point, a: Point, b: Point)
    requires Through(p, a, b)
    ensures OnSegment(SpotOf(p), a, b)
  {
    var x, y, dx, dy := p.x - a.x, p.y - a.y, b.x - a.x, b.y - a.y;
    assert x * dy == y * dx;
    assert (x * dy) as real == x as real * dy as real && (y * dx) as real == y as real * dx as real;
  }

  lemma SmallQuotient(n: int, d: int)
    requires -d < n < d
    ensures TDiv(n, d) == 0
  {
    var r := TDivFacts(n, d);
    var q := TDiv(n, d);
    Shrinks(n, d, q, r);
    AbsMul(d, q);
    AtLeastOnce(d, Abs(q));
  }

  lemma AtLeastOnce(d: nat, m: nat)
    ensures m > 0 ==> d * m >= d
  {
    if m > 0 {
      NonNegMul(d, m - 1);
      assert d * (m - 1) == d * m - d;
    }
  }

  lemma Halves(k: int)
    requires k > 0
    ensures TDiv(k, -2) == -(k / 2) && TDiv(-k, 2) == -(k / 2)
  {
  }

  /** A steep segment through a pixel of the first column that is rejected. */
  lemma LostOnTheLeft(p: Point, w: int, h: int)
    requires InWindow(p, w, h) && p.x == 0
    ensures var a, b := Point(-1, p.y + 2 * h), Point(1, p.y - 2 * h);
      Through(p, a, b) && !ClipFrom(a, b, w, h).ok
  {
    var a, b := Point(-1, p.y + 2 * h), Point(1, p.y - 2 * h);
    assert (b.x - a.x) * (a.y - h) == 2 * (p.y + h) && a.y - b.y == 4 * h;
    SmallQuotient(2 * (p.y + h), 4 * h);
    Halves(h - 1 - b.y);
    var t := Point(-1, h - 1);
    assert Cut(a, b, OutCode(a, w, h), w, h) == t;
    AfterCut(a, b, w, h);
    var u := Cut(t, b, OutCode(t, w, h), w, h);
    assert (b.y - t.y) * -t.x == -(h - 1 - b.y) && b.x - t.x == 2;
    assert u == Point(0, h - 1 - (h - 1 - b.y) / 2);
    AfterCut(t, b, w, h);
    assert OutCode(u, w, h).Meets(OutCode(b, w, h));
  }

  /** ... and one through a pixel of the last column. */
  lemma LostOnTheRight(p: Point, w: int, h: int)
    requires InWindow(p, w, h) && p.x == w - 1
    ensures var a, b := Point(w, p.y + 2 * h), Point(w - 2, p.y - 2 * h);
      Through(p, a, b) && !ClipFrom(a, b, w, h).ok
  {
    var a, b := Point(w, p.y + 2 * h), Point(w - 2, p.y - 2 * h);
    assert (b.x - a.x) * (a.y - h) == -2 * (p.y + h) && a.y - b.y == 4 * h;
    SmallQuotient(-2 * (p.y + h), 4 * h);
    Halves(h - 1 - b.y);
    var t := Point(w, h - 1);
    assert Cut(a, b, OutCode(a, w, h), w, h) == t;
    AfterCut(a, b, w, h);
    var u := Cut(t, b, OutCode(t, w, h), w, h);
    assert (b.y - t.y) * (w - 1 - t.x) == h - 1 - b.y && b.x - t.x == -2;
    assert u == Point(w - 1, h - 1 - (h - 1 - b.y) / 2);
    AfterCut(t, b, w, h);
    assert OutCode(u, w, h).Meets(OutCode(b, w, h));
  }

  /** Every segment through a pixel of the window is accepted, if and only if the pixel is not in the first or last column. */
  lemma AlwaysAcceptedIff(p: Point, w: int, h: int)
    requires InWindow(p, w, h)
    ensures (forall a, b :: Through(p, a, b) ==> ClipFrom(a, b, w, h).ok) <==> 0 < p.x < w - 1
  {
    forall a, b | Through(p, a, b) && 0 < p.x < w - 1 ensures ClipFrom(a, b, w, h).ok {
      ThroughIsOn(p, a, b);
      if !ClipFrom(a, b, w, h).ok {
        LostOnlyAtEdges(a, b, w, h, SpotOf(p));
      }
    }
    if p.x == 0 {
      LostOnTheLeft(p, w, h);
    } else if p.x == w - 1 {
      LostOnTheRight(p, w, h);
    }
  }

  /** On the automap's 320 by 168 pixels: a segment through the corner pixel (0, 0) that is rejected. */
  lemma CornerLost()
    ensures var a, b := Point(-7, 175), Point(1, -25);
      Through(Point(0, 0), a, b) && InWindow(Point(0, 0), 320, 168) && !ClipFrom(a, b, 320, 168).ok
  {
    var a, b, t := Point(-7, 175), Point(1, -25), Point(-7, 167);
    assert Cut(a, b, OutCode(a, 320, 168), 320, 168) == t;
    AfterCut(a, b, 320, 168);
    AfterCut(t, b, 320, 168);
    assert Cut(t, b, OutCode(t, 320, 168), 320, 168) == Point(0, -1);
  }
}
