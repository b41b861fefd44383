/**
 The automap's Bresenham walk (AM_drawFline, src/user/xinuldoom/am_map.c:977-1049) into a frame
 buffer of f_w columns.
 */
module LineDraw {
  import opened CInt
  import opened LineClip

  // ----- the error term in one octant -----

  /** j is within half a unit of m*i/n, a half rounded up. */
  predicate HalfUnit(n: nat, m: nat, i: nat, j: nat) {
    0 <= 2 * (m * i) - 2 * (n * j) + n && (n == 0 || 2 * (m * i) - 2 * (n * j) < n)
  }

  /** The whole number nearest to m*i/n. */
  function Nearest(n: nat, m: nat, i: nat): nat {
    if n == 0 then 0 else (2 * (m * i) + n) / (2 * n)
  }

  lemma NearestIsHalfUnit(n: nat, m: nat, i: nat)
    requires n > 0
    ensures HalfUnit(n, m, i, Nearest(n, m, i))
  {
    var t := 2 * (m * i) + n;
    var j := t / (2 * n);
    DivFacts(t, n, j);
  }

  lemma DivFacts(t: nat, n: nat, j: nat)
    requires n > 0 && j == t / (2 * n)
    ensures 2 * (n * j) <= t < 2 * (n * j) + 2 * n
  {
    assert t == (2 * n) * j + t % (2 * n);
    assert (2 * n) * j == 2 * (n * j);
  }

  /** Only one whole number is that near. */
  lemma HalfUnitUnique(n: nat, m: nat, i: nat, j: nat, j': nat)
    requires n > 0 && HalfUnit(n, m, i, j) && HalfUnit(n, m, i, j')
    ensures j == j'
  {
    var d: int := j - j';
    MulAway(n, d);
    assert n * d == n * j - n * j';
  }

  lemma NearestIs(n: nat, m: nat, i: nat, j: nat)
    requires n > 0 && HalfUnit(n, m, i, j)
    ensures Nearest(n, m, i) == j
  {
    NearestIsHalfUnit(n, m, i);
    HalfUnitUnique(n, m, i, j, Nearest(n, m, i));
  }

  /** The walk starts and ends exactly on the line's ends, and never leaves their range. */
  lemma NearestRange(n: nat, m: nat, i: nat)
    requires n > 0 && i <= n
    ensures 0 <= Nearest(n, m, i) <= m
    ensures Nearest(n, m, 0) == 0 && Nearest(n, m, n) == m
  {
    NearestIs(n, m, 0, 0);
    assert m * n == n * m;
    NearestIs(n, m, n, m);
    NearestIsHalfUnit(n, m, i);
    var j := Nearest(n, m, i);
    ScaleUp(m, i, n);
    var d: int := j - m;
    MulAway(n, d);
    assert n * d == n * j - n * m;
  }

  /** The decision variable before step i + 1: its sign says which row is nearer. */
  function Decision(n: nat, m: nat, i: nat, j: nat): int {
    2 * (m * (i + 1)) - n * (2 * j + 1)
  }

  /** The minor coordinate and the decision variable after i steps, kept up by additions only. */
  function Walk(n: nat, m: nat, i: nat): (nat, int) {
    if i == 0 then (0, 2 * m - n)
    else
      var (j, d) := Walk(n, m, i - 1);
      if d >= 0 then (j + 1, d - 2 * n + 2 * m) else (j, d + 2 * m)
  }

  /** The additions compute the nearest row of every column. */
  lemma {:induction false} WalkIsNearest(n: nat, m: nat, i: nat)
    requires n > 0 && m <= n
    ensures Walk(n, m, i) == (Nearest(n, m, i), Decision(n, m, i, Nearest(n, m, i)))
  {
    if i == 0 {
      NearestIs(n, m, 0, 0);
    } else {
      WalkIsNearest(n, m, i - 1);
      WalkStep(n, m, i - 1, Nearest(n, m, i - 1));
    }
  }

  lemma WalkStep(n: nat, m: nat, i: nat, j: nat)
    requires n > 0 && m <= n && j == Nearest(n, m, i)
    ensures var d := Decision(n, m, i, j);
      var j' := if d >= 0 then j + 1 else j;
      && j' == Nearest(n, m, i + 1)
      && Decision(n, m, i + 1, j') == (if d >= 0 then d - 2 * n else d) + 2 * m
  {
    NearestIsHalfUnit(n, m, i);
    StepAlgebra(n, m, i, j);
    var j' := if Decision(n, m, i, j) >= 0 then j + 1 else j;
    NearestIs(n, m, i + 1, j');
  }

  lemma StepAlgebra(n: nat, m: nat, i: nat, j: nat)
    requires n > 0 && m <= n && HalfUnit(n, m, i, j)
    ensures var d := Decision(n, m, i, j);
      var j' := if d >= 0 then j + 1 else j;
      && HalfUnit(n, m, i + 1, j')
      && Decision(n, m, i + 1, j') == (if d >= 0 then d - 2 * n else d) + 2 * m
  {
    assert m * (i + 1) == m * i + m;
    assert m * (i + 2) == m * i + 2 * m;
    assert n * (2 * j + 1) == 2 * (n * j) + n;
    assert n * (j + 1) == n * j + n;
    assert n * (2 * (j + 1) + 1) == 2 * (n * j) + 3 * n;
  }

  // ----- the dots -----

  /** i units from c in the direction of d. */
  function Go(c: int, d: int, i: nat): int {
    if d < 0 then c - i else c + i
  }

  /** The walk goes along x when the segment is wider than high. */
  predicate AlongX(a: Point, b: Point) {
    Abs(b.x - a.x) > Abs(b.y - a.y)
  }

  /** The number of steps: max(|dx|, |dy|). */
  function Steps(a: Point, b: Point): nat {
    if AlongX(a, b) then Abs(b.x - a.x) else Abs(b.y - a.y)
  }

  /** Dot number i of the walk. */
  function Dot(a: Point, b: Point, i: nat): Point {
    var dx, dy := b.x - a.x, b.y - a.y;
    if AlongX(a, b) then Point(Go(a.x, dx, i), Go(a.y, dy, Walk(Abs(dx), Abs(dy), i).0))
    else Point(Go(a.x, dx, Walk(Abs(dy), Abs(dx), i).0), Go(a.y, dy, i))
  }

  /** p is in the segment's rectangle and at most half a pixel off the ideal line, across the walk. */
  predicate OnLine(p: Point, a: Point, b: Point) {
    var dx, dy := b.x - a.x, b.y - a.y;
    InBox(p, a, b) &&
    if AlongX(a, b) then HalfUnit(Abs(dx), Abs(dy), Abs(p.x - a.x), Abs(p.y - a.y))
    else HalfUnit(Abs(dy), Abs(dx), Abs(p.y - a.y), Abs(p.x - a.x))
  }

  lemma DotRange(a: Point, b: Point, i: nat)
    requires i <= Steps(a, b)
    ensures InBox(Dot(a, b, i), a, b)
    ensures Dot(a, b, 0) == a && Dot(a, b, Steps(a, b)) == b
  {
    var n, m := Steps(a, b), if AlongX(a, b) then Abs(b.y - a.y) else Abs(b.x - a.x);
    if n > 0 {
      NearestRange(n, m, i);
      WalkIsNearest(n, m, i);
      WalkIsNearest(n, m, 0);
      WalkIsNearest(n, m, n);
    }
  }

  lemma DotOnLine(a: Point, b: Point, i: nat)
    requires i <= Steps(a, b)
    ensures OnLine(Dot(a, b, i), a, b)
  {
    var n, m := Steps(a, b), if AlongX(a, b) then Abs(b.y - a.y) else Abs(b.x - a.x);
    DotRange(a, b, i);
    if n > 0 {
      NearestIsHalfUnit(n, m, i);
      NearestRange(n, m, i);
      WalkIsNearest(n, m, i);
    }
  }

  lemma OnLineIsDot(a: Point, b: Point, p: Point) returns (i: nat)
    requires OnLine(p, a, b)
    ensures i <= Steps(a, b) && p == Dot(a, b, i)
  {
    i := if AlongX(a, b) then Abs(p.x - a.x) else Abs(p.y - a.y);
    var j := if AlongX(a, b) then Abs(p.y - a.y) else Abs(p.x - a.x);
    if Steps(a, b) > 0 {
      var m := if AlongX(a, b) then Abs(b.y - a.y) else Abs(b.x - a.x);
      NearestIs(Steps(a, b), m, i, j);
      WalkIsNearest(Steps(a, b), m, i);
    }
  }

  /** The dots of the walk are exactly the pixels on the line: one in each of its max(|dx|, |dy|) + 1 places. */
  lemma DotIffOnLine(a: Point, b: Point, p: Point)
    ensures OnLine(p, a, b) <==> exists i: nat :: i <= Steps(a, b) && p == Dot(a, b, i)
    ensures forall i: nat, j: nat :: i <= Steps(a, b) && j <= Steps(a, b) && Dot(a, b, i) == Dot(a, b, j) ==> i == j
  {
    forall i: nat | i <= Steps(a, b) && p == Dot(a, b, i) ensures OnLine(p, a, b) {
      DotOnLine(a, b, i);
    }
    if OnLine(p, a, b) {
      var i := OnLineIsDot(a, b, p);
    }
  }

  // ----- the frame buffer -----

  function At(p: Point, f_w: int): int {
    p.y * f_w + p.x
  }

  lemma AtRange(p: Point, f_w: int, f_h: int)
    requires f_w > 0 && InWindow(p, f_w, f_h)
    ensures 0 <= At(p, f_w) < f_w * f_h
  {
    NonNegMul(p.y, f_w);
    ScaleUp(f_w, p.y + 1, f_h);
    assert f_w * (p.y + 1) == p.y * f_w + f_w;
  }

  lemma AtInjective(p: Point, q: Point, f_w: int, f_h: int)
    requires f_w > 0 && InWindow(p, f_w, f_h) && InWindow(q, f_w, f_h) && At(p, f_w) == At(q, f_w)
    ensures p == q
  {
    var d := p.y - q.y;
    MulAway(f_w, d);
    assert f_w * d == p.y * f_w - q.y * f_w;
  }

  /** Some of the first k dots is at this place of the buffer. */
  ghost predicate Plotted(a: Point, b: Point, f_w: int, k: nat, place: int) {
    exists i: nat :: i < k && At(Dot(a, b, i), f_w) == place
  }

  /** The buffer s with the first k dots drawn in it. */
  ghost predicate Drawn(s: seq<int>, t: seq<int>, a: Point, b: Point, f_w: int, k: nat, color: int) {
    && |s| == |t|
    && forall place :: 0 <= place < |s| ==> t[place] == if Plotted(a, b, f_w, k, place) then color else s[place]
  }

  lemma DrawOne(s: seq<int>, t: seq<int>, a: Point, b: Point, f_w: int, k: nat, color: int)
    requires Drawn(s, t, a, b, f_w, k, color)
    requires 0 <= At(Dot(a, b, k), f_w) < |t|
    ensures Drawn(s, t[At(Dot(a, b, k), f_w) := color], a, b, f_w, k + 1, color)
  {
    forall place | 0 <= place < |s|
      ensures Plotted(a, b, f_w, k + 1, place) <==> Plotted(a, b, f_w, k, place) || place == At(Dot(a, b, k), f_w)
    {
    }
  }

  lemma DrawNext(s: seq<int>, t: seq<int>, a: Point, b: Point, f_w: int, f_h: int, k: nat, color: int, p: Point)
    requires f_w > 0 && InWindow(a, f_w, f_h) && InWindow(b, f_w, f_h) && |t| == f_w * f_h
    requires Drawn(s, t, a, b, f_w, k, color) && k <= Steps(a, b) && p == Dot(a, b, k)
    ensures 0 <= p.y * f_w + p.x < |t|
    ensures Drawn(s, t[p.y * f_w + p.x := color], a, b, f_w, k + 1, color)
  {
    DotRange(a, b, k);
    AtRange(p, f_w, f_h);
    DrawOne(s, t, a, b, f_w, k, color);
  }

  /** The pixel p of the window is coloured exactly when it is on the line. */
  lemma PlottedIffOnLine(a: Point, b: Point, p: Point, f_w: int, f_h: int)
    requires f_w > 0 && InWindow(a, f_w, f_h) && InWindow(b, f_w, f_h) && InWindow(p, f_w, f_h)
    ensures Plotted(a, b, f_w, Steps(a, b) + 1, At(p, f_w)) <==> OnLine(p, a, b)
  {
    DotIffOnLine(a, b, p);
    forall i: nat | i < Steps(a, b) + 1 && At(Dot(a, b, i), f_w) == At(p, f_w) ensures p == Dot(a, b, i) {
      DotRange(a, b, i);
      AtInjective(Dot(a, b, i), p, f_w, f_h);
    }
  }

  /** AM_drawFline: colours the pixels of the line and nothing else. */
  method DrawFline(fl: FLine, fb: array<int>, f_w: int, f_h: int, color: int)
    requires f_w > 0 && f_h > 0 && fb.Length == f_w * f_h
    modifies fb
    ensures InWindow(fl.a, f_w, f_h) && InWindow(fl.b, f_w, f_h) ==>
      Drawn(old(fb[..]), fb[..], fl.a, fl.b, f_w, Steps(fl.a, fl.b) + 1, color)
    ensures !(InWindow(fl.a, f_w, f_h) && InWindow(fl.b, f_w, f_h)) ==> fb[..] == old(fb[..])
  {
    if fl.a.x < 0 || fl.a.x >= f_w || fl.a.y < 0 || fl.a.y >= f_h ||
       fl.b.x < 0 || fl.b.x >= f_w || fl.b.y < 0 || fl.b.y >= f_h {
      return;
    }
    var dx := fl.b.x - fl.a.x;
    var ax := 2 * (if dx < 0 then -dx else dx);
    var sx := if dx < 0 then -1 else 1;
    var dy := fl.b.y - fl.a.y;
    var ay := 2 * (if dy < 0 then -dy else dy);
    var sy := if dy < 0 then -1 else 1;
    if ax > ay {
      WalkX(fl.a, fl.b, fb, f_w, f_h, ax, ay, sx, sy, color);
    } else {
      WalkY(fl.a, fl.b, fb, f_w, f_h, ax, ay, sx, sy, color);
    }
  }

  method WalkX(a: Point, b: Point, fb: array<int>, f_w: int, ghost f_h: int, ax: int, ay: int, sx: int, sy: int, color: int)
    requires f_w > 0 && f_h > 0 && fb.Length == f_w * f_h
    requires InWindow(a, f_w, f_h) && InWindow(b, f_w, f_h)
    requires ax == 2 * Abs(b.x - a.x) && ay == 2 * Abs(b.y - a.y) && ax > ay
    requires sx == (if b.x < a.x then -1 else 1) && sy == (if b.y < a.y then -1 else 1)
    modifies fb
    ensures Drawn(old(fb[..]), fb[..], a, b, f_w, Steps(a, b) + 1, color)
  {
    ghost var s := fb[..];
    ghost var n, m := Abs(b.x - a.x), Abs(b.y - a.y);
    ghost var i: nat, j: nat := 0, 0;
    var x, y := a.x, a.y;
    var d := ay - ax / 2;
    while true
      invariant i <= n && (j, d) == Walk(n, m, i)
      invariant x == Go(a.x, b.x - a.x, i) && y == Go(a.y, b.y - a.y, j)
      invariant Drawn(s, fb[..], a, b, f_w, i, color)
      decreases n - i
    {
      DrawNext(s, fb[..], a, b, f_w, f_h, i, color, Point(x, y));
      fb[y * f_w + x] := color;
      if x == b.x {
        return;
      }
      if d >= 0 {
        y := y + sy;
        d := d - ax;
        j := j + 1;
      }
      x := x + sx;
      d := d + ay;
      i := i + 1;
    }
  }

  method WalkY(a: Point, b: Point, fb: array<int>, f_w: int, ghost f_h: int, ax: int, ay: int, sx: int, sy: int, color: int)
    requires f_w > 0 && f_h > 0 && fb.Length == f_w * f_h
    requires InWindow(a, f_w, f_h) && InWindow(b, f_w, f_h)
    requires ax == 2 * Abs(b.x - a.x) && ay == 2 * Abs(b.y - a.y) && ax <= ay
    requires sx == (if b.x < a.x then -1 else 1) && sy == (if b.y < a.y then -1 else 1)
    modifies fb
    ensures Drawn(old(fb[..]), fb[..], a, b, f_w, Steps(a, b) + 1, color)
  {
    ghost var s := fb[..];
    ghost var n, m := Abs(b.y - a.y), Abs(b.x - a.x);
    ghost var i: nat, j: nat := 0, 0;
    var x, y := a.x, a.y;
    var d := ax - ay / 2;
    while true
      invariant i <= n && (j, d) == Walk(n, m, i)
      invariant x == Go(a.x, b.x - a.x, j) && y == Go(a.y, b.y - a.y, i)
      invariant Drawn(s, fb[..], a, b, f_w, i, color)
      decreases n - i
    {
      DrawNext(s, fb[..], a, b, f_w, f_h, i, color, Point(x, y));
      fb[y * f_w + x] := color;
      if y == b.y {
        return;
      }
      if d >= 0 {
        x := x + sx;
        d := d - ay;
        j := j + 1;
      }
      y := y + sy;
      d := d + ax;
      i := i + 1;
    }
  }

  /** AM_drawMline: after a successful clip the drawing guard never fires. */
  method DrawMline(fl: FLine, fb: array<int>, f_w: int, f_h: int, color: int) returns (drawn: bool)
    requires f_w > 0 && f_h > 0 && fb.Length == f_w * f_h
    modifies fl, fb
    ensures drawn == ClipFrom(old(fl.a), old(fl.b), f_w, f_h).ok
    ensures !drawn ==> fb[..] == old(fb[..])
    ensures drawn ==> var r := ClipFrom(old(fl.a), old(fl.b), f_w, f_h);
      Drawn(old(fb[..]), fb[..], r.a, r.b, f_w, Steps(r.a, r.b) + 1, color)
  {
    ClipStaysOnLine(fl.a, fl.b, f_w, f_h);
    drawn := fl.Clip(f_w, f_h);
    if drawn {
      DrawFline(fl, fb, f_w, f_h, color);
    }
  }
}
