/**
  Points and axis-aligned rectangles as both front-ends use them: egui's `Pos2`/`Rect`
  in the Rust app and hyprutils' `Vector2D` pairs in the Wayland app. Coordinates are
  reals; floating-point rounding and NaN are not modelled.
*/
module Geometry {
  import opened Common

  datatype Point = Point(x: real, y: real) {
    function Plus(o: Point): Point { Point(x + o.x, y + o.y) }
    function Minus(o: Point): Point { Point(x - o.x, y - o.y) }
  }

  const ORIGIN := Point(0.0, 0.0)

  /** A rectangle given by two corners; only a normalized one has min <= max. */
  datatype Rect = Rect(min: Point, max: Point) {
    function Width(): real { max.x - min.x }
    function Height(): real { max.y - min.y }
    function LeftTop(): Point { min }
    function RightTop(): Point { Point(max.x, min.y) }
    function LeftBottom(): Point { Point(min.x, max.y) }
    function RightBottom(): Point { max }
  }

  predicate IsNormalized(r: Rect) {
    r.min.x <= r.max.x && r.min.y <= r.max.y
  }

  /**
    `RectExt::normalized`: the same two x values and the same two y values,
    reordered so that the minimum corner really is the minimum.
  */
  function Normalized(r: Rect): (n: Rect)
    ensures IsNormalized(n)
  {
    Rect(Point(Min(r.min.x, r.max.x), Min(r.min.y, r.max.y)),
         Point(Max(r.min.x, r.max.x), Max(r.min.y, r.max.y)))
  }

  /** Normalizing only reorders: the two x values and the two y values are kept. */
  lemma NormalizedKeepsValues(r: Rect)
    ensures var n := Normalized(r);
      && multiset{n.min.x, n.max.x} == multiset{r.min.x, r.max.x}
      && multiset{n.min.y, n.max.y} == multiset{r.min.y, r.max.y}
  {
  }

  /**
    A normalized rectangle is determined by its two x values and its two y values:
    this is what makes Normalized a normal form.
  */
  lemma NormalFormUnique(a: Rect, b: Rect)
    requires IsNormalized(a) && IsNormalized(b)
    requires multiset{a.min.x, a.max.x} == multiset{b.min.x, b.max.x}
    requires multiset{a.min.y, a.max.y} == multiset{b.min.y, b.max.y}
    ensures a == b
  {
    PairOrder(a.min.x, a.max.x, b.min.x, b.max.x);
    PairOrder(a.min.y, a.max.y, b.min.y, b.max.y);
  }

  lemma PairOrder(p: real, q: real, u: real, v: real)
    requires p <= q && u <= v
    requires multiset{p, q} == multiset{u, v}
    ensures p == u && q == v
  {
    assert p in multiset{u, v} && q in multiset{u, v};
    assert u in multiset{p, q} && v in multiset{p, q};
  }

  /** Normalizing twice is normalizing once. */
  lemma NormalizedIdempotent(r: Rect)
    ensures Normalized(Normalized(r)) == Normalized(r)
  {
    var n := Normalized(r);
    NormalizedKeepsValues(n);
    NormalFormUnique(Normalized(n), n);
  }

  /** A rectangle that is already normalized is left exactly as it is. */
  lemma NormalizedFixesNormal(r: Rect)
    requires IsNormalized(r)
    ensures Normalized(r) == r
  {
    NormalizedKeepsValues(r);
    NormalFormUnique(Normalized(r), r);
  }

  /**
    egui's `Rect::from_two_pos`: the smallest rectangle with both points as corners,
    whichever corners they are.
  */
  function FromTwoPos(a: Point, b: Point): (r: Rect)
    ensures IsNormalized(r)
  {
    Normalized(Rect(a, b))
  }

  /** The rectangle spans exactly the two x values and the two y values of its points. */
  lemma FromTwoPosSpans(a: Point, b: Point)
    ensures var r := FromTwoPos(a, b);
      && multiset{r.min.x, r.max.x} == multiset{a.x, b.x}
      && multiset{r.min.y, r.max.y} == multiset{a.y, b.y}
  {
    NormalizedKeepsValues(Rect(a, b));
  }

  /** egui's `Rect::from_min_size`. */
  function FromMinSize(p: Point, size: Point): Rect {
    Rect(p, p.Plus(size))
  }

  function DistSq(p: Point, q: Point): real {
    (p.x - q.x) * (p.x - q.x) + (p.y - q.y) * (p.y - q.y)
  }

  /**
    `p.distance(q) < radius` for a positive radius, stated without a square root:
    both sides are non-negative, so comparing squares is equivalent.
  */
  predicate Near(p: Point, q: Point, radius: real) {
    DistSq(p, q) < radius * radius
  }
}
