/** Line-of-sight obstruction of a radio path by one vehicle body.

    Coordinates are exact reals. The cosine and sine of the vehicle heading are
    carried in the Vehicle value (with c*c + s*s == 1 where it matters), and the
    Euclidean sender-receiver distance is a parameter `d`. The floating-point
    "not a number" answer of the obstruction query is the `Clear` constructor. */
module VehicleObstacle {

  datatype Option<T> = None | Some(value: T)

  /** A point or a vector in the plane. */
  datatype Coord = Coord(x: real, y: real) {
    function Plus(o: Coord): Coord { Coord(x + o.x, y + o.y) }
    function Minus(o: Coord): Coord { Coord(x - o.x, y - o.y) }
  }

  function SqNorm(v: Coord): real { v.x * v.x + v.y * v.y }

  /** Squared Euclidean distance between two points. */
  function SqDist(a: Coord, b: Coord): real { SqNorm(b.Minus(a)) }

  /** The 2-D cross product (the determinant of the two vectors). */
  function Cross(u: Coord, v: Coord): real { u.x * v.y - u.y * v.x }

  /** The point at fraction t along the segment from `from` to `to`. */
  function PointAt(from: Coord, to: Coord, t: real): Coord
  {
    Coord(from.x + t * (to.x - from.x), from.y + t * (to.y - from.y))
  }

  // ---------------------------------------------------------------------------
  // rotate2d and the vehicle footprint
  // ---------------------------------------------------------------------------

  /** Rotation of v by the angle whose cosine is c and whose sine is s. */
  function Rotate2d(v: Coord, c: real, s: real): (r: Coord)
    ensures c * c + s * s == 1.0 ==> SqNorm(r) == SqNorm(v)
  {
    var r := Coord(v.x * c - v.y * s, v.x * s + v.y * c);
    assert SqNorm(r) == (v.x * v.x + v.y * v.y) * (c * c + s * s);
    r
  }

  /** Rotating by the opposite angle undoes a rotation. */
  lemma RotateInverse(v: Coord, c: real, s: real)
    requires c * c + s * s == 1.0
    ensures Rotate2d(Rotate2d(v, c, s), c, -s) == v
  {
    var r := Rotate2d(v, c, s);
    calc {
      r.x * c + r.y * s;
      (v.x * c - v.y * s) * c + (v.x * s + v.y * c) * s;
      v.x * (c * c + s * s);
    }
    calc {
      -r.x * s + r.y * c;
      -(v.x * c - v.y * s) * s + (v.x * s + v.y * c) * c;
      v.y * (c * c + s * s);
    }
  }

  /** Rotation is linear, so it preserves the distance between two points. */
  lemma RotatePreservesDistance(u: Coord, v: Coord, c: real, s: real)
    requires c * c + s * s == 1.0
    ensures SqDist(Rotate2d(u, c, s), Rotate2d(v, c, s)) == SqDist(u, v)
  {
    var w := v.Minus(u);
    assert Rotate2d(v, c, s).Minus(Rotate2d(u, c, s)) == Rotate2d(w, c, s) by {
      assert (v.x * c - v.y * s) - (u.x * c - u.y * s) == w.x * c - w.y * s;
      assert (v.x * s + v.y * c) - (u.x * s + u.y * c) == w.x * s + w.y * c;
    }
  }

  /** A vehicle obstacle at the instant of a query: the mobility position, the
      cosine and sine of the heading angle, and the body dimensions. */
  datatype Vehicle = Vehicle(position: Coord, cosHeading: real, sinHeading: real,
                             length: real, width: real, antennaOffset: real)

  /** The footprint: rear-left, front-left, front-right and rear-right corner
      of the body, each rotated by minus the heading and moved to the position. */
  function GetShape(v: Vehicle): (shape: seq<Coord>)
    ensures |shape| == 4
  {
    var l := v.length;
    var o := v.antennaOffset;
    var w := v.width / 2.0;
    var p := v.position;
    var c, s := v.cosHeading, -v.sinHeading;  // cos(-a), sin(-a)
    [ p.Plus(Rotate2d(Coord(-(l - o), -w), c, s)),
      p.Plus(Rotate2d(Coord(o, -w), c, s)),
      p.Plus(Rotate2d(Coord(o, w), c, s)),
      p.Plus(Rotate2d(Coord(-(l - o), w), c, s)) ]
  }

  /** Corner k of the body in the vehicle's own frame: x runs from the rear
      (o - l) to the antenna end (o), y from -width/2 to width/2. */
  function BodyCorner(v: Vehicle, k: nat): Coord
    requires k < 4
  {
    Coord(if k == 1 || k == 2 then v.antennaOffset else v.antennaOffset - v.length,
          if k < 2 then -v.width / 2.0 else v.width / 2.0)
  }

  /** Moving the footprint back to the vehicle's frame (subtract the position,
      rotate by the heading) gives the four body corners, in order. */
  lemma ShapeInVehicleFrame(v: Vehicle, k: nat)
    requires k < 4
    requires v.cosHeading * v.cosHeading + v.sinHeading * v.sinHeading == 1.0
    ensures Rotate2d(GetShape(v)[k].Minus(v.position), v.cosHeading, v.sinHeading) == BodyCorner(v, k)
  {
    var c, s := v.cosHeading, v.sinHeading;
    var corner := BodyCorner(v, k);
    assert GetShape(v)[k].Minus(v.position) == Rotate2d(corner, c, -s);
    RotateInverse(corner, c, -s);
  }

  /** Distances within the footprint equal those between the body corners. */
  lemma ShapeDistance(v: Vehicle, i: nat, j: nat)
    requires i < 4 && j < 4
    requires v.cosHeading * v.cosHeading + v.sinHeading * v.sinHeading == 1.0
    ensures SqDist(GetShape(v)[i], GetShape(v)[j]) == SqDist(BodyCorner(v, i), BodyCorner(v, j))
  {
    var c, s := v.cosHeading, -v.sinHeading;
    var shape := GetShape(v);
    assert shape[i] == v.position.Plus(Rotate2d(BodyCorner(v, i), c, s));
    assert shape[j] == v.position.Plus(Rotate2d(BodyCorner(v, j), c, s));
    assert shape[j].Minus(shape[i])
        == Rotate2d(BodyCorner(v, j), c, s).Minus(Rotate2d(BodyCorner(v, i), c, s));
    RotatePreservesDistance(BodyCorner(v, i), BodyCorner(v, j), c, s);
  }

  /** Consecutive footprint edges (cyclically) have squared lengths
      length², width², length², width², whatever the position and heading. */
  lemma ShapeEdgeLengths(v: Vehicle)
    requires v.cosHeading * v.cosHeading + v.sinHeading * v.sinHeading == 1.0
    ensures var shape := GetShape(v);
      && SqDist(shape[0], shape[1]) == v.length * v.length
      && SqDist(shape[1], shape[2]) == v.width * v.width
      && SqDist(shape[2], shape[3]) == v.length * v.length
      && SqDist(shape[3], shape[0]) == v.width * v.width
  {
    ShapeDistance(v, 0, 1);
    ShapeDistance(v, 1, 2);
    ShapeDistance(v, 2, 3);
    ShapeDistance(v, 3, 0);
  }

  // ---------------------------------------------------------------------------
  // isPointInObstacle
  // ---------------------------------------------------------------------------

  /** Index of the cyclic predecessor of vertex i in a polygon of n vertices. */
  function Pred(n: nat, i: nat): (j: nat)
    requires i < n
    ensures j < n && i == (if j == n - 1 then 0 else j + 1)
  {
    if i == 0 then n - 1 else i - 1
  }

  /** The half-open y-range test of the edge between vertices a and b. */
  predicate InYRange(point: Coord, a: Coord, b: Coord)
    ensures InYRange(point, a, b) ==> a.y != b.y
    ensures InYRange(point, a, b) <==>
      if a.y <= b.y then a.y <= point.y < b.y else b.y <= point.y < a.y
  {
    var inYRangeUp := point.y >= a.y && point.y < b.y;
    var inYRangeDown := point.y >= b.y && point.y < a.y;
    inYRangeUp || inYRangeDown
  }

  /** Where the horizontal line through `point` meets the edge from a to b. */
  function CrossingX(point: Coord, a: Coord, b: Coord): (r: real)
    requires InYRange(point, a, b)
    ensures exists lam :: 0.0 <= lam <= 1.0 && PointAt(a, b, lam) == Coord(r, point.y)
  {
    var r := a.x + (point.y - a.y) * (b.x - a.x) / (b.y - a.y);
    CrossingOnEdge(point, a, b, r);
    r
  }

  lemma CrossingOnEdge(point: Coord, a: Coord, b: Coord, r: real)
    requires InYRange(point, a, b)
    requires r == a.x + (point.y - a.y) * (b.x - a.x) / (b.y - a.y)
    ensures exists lam :: 0.0 <= lam <= 1.0 && PointAt(a, b, lam) == Coord(r, point.y)
  {
    var num, den := point.y - a.y, b.y - a.y;
    var lam := num / den;
    assert lam * den == num;
    assert (1.0 - lam) * den == den - num;
    if den > 0.0 {
      assert 0.0 <= num < den;
      ProductSign(lam, den);
      ProductSign(1.0 - lam, den);
    } else {
      assert den <= num < 0.0;
      ProductSign(lam, -den);
      ProductSign(1.0 - lam, -den);
    }
    assert a.y + lam * den == point.y;
    assert lam * (b.x - a.x) == num * (b.x - a.x) / den;
    assert PointAt(a, b, lam) == Coord(r, point.y);
  }

  /** With a positive factor q, the sign of p * q is the sign of p. */
  lemma ProductSign(p: real, q: real)
    requires q > 0.0
    ensures p > 0.0 <==> p * q > 0.0
    ensures p >= 0.0 <==> p * q >= 0.0
  {
  }

  /** Edge (a, b) toggles the inside flag: the ray from `point` towards +x crosses it. */
  predicate EdgeToggles(point: Coord, a: Coord, b: Coord)
  {
    InYRange(point, a, b) && point.x < CrossingX(point, a, b)
  }

  /** Edge i of a polygon joins vertex i and its cyclic predecessor. */
  predicate EdgeIToggles(point: Coord, shape: seq<Coord>, i: nat)
    requires i < |shape|
  {
    EdgeToggles(point, shape[i], shape[Pred(|shape|, i)])
  }

  /** The number of toggling edges among edges 0 .. k-1. */
  function CountToggles(point: Coord, shape: seq<Coord>, k: nat): nat
    requires k <= |shape|
  {
    if k == 0 then 0
    else CountToggles(point, shape, k - 1) + (if EdgeIToggles(point, shape, k - 1) then 1 else 0)
  }

  /** Ray-casting classification: inside iff an odd number of edges toggle. */
  predicate Inside(point: Coord, shape: seq<Coord>)
  {
    CountToggles(point, shape, |shape|) % 2 == 1
  }

  /** The count visits each edge exactly once: it is the size of the set of
      toggling edge indices. */
  lemma {:induction false} CountTogglesIsEdgeCount(point: Coord, shape: seq<Coord>, k: nat)
    requires k <= |shape|
    ensures CountToggles(point, shape, k) == |set i | 0 <= i < k && EdgeIToggles(point, shape, i)|
  {
    if k > 0 {
      CountTogglesIsEdgeCount(point, shape, k - 1);
      var before := set i | 0 <= i < k - 1 && EdgeIToggles(point, shape, i);
      var after := set i | 0 <= i < k && EdgeIToggles(point, shape, i);
      if EdgeIToggles(point, shape, k - 1) {
        assert after == before + {k - 1};
        assert k - 1 !in before;
        assert |after| == |before| + 1;
      } else {
        assert after == before;
      }
    }
  }

  method IsPointInObstacle(point: Coord, shape: seq<Coord>) returns (isInside: bool)
    ensures isInside == Inside(point, shape)
  {
    isInside := false;
    var n := |shape|;
    var i, j := 0, n - 1;
    while i < n
      invariant 0 <= i <= n
      invariant i < n ==> j == Pred(n, i)
      invariant isInside == (CountToggles(point, shape, i) % 2 == 1)
    {
      var inYRangeUp := point.y >= shape[i].y && point.y < shape[j].y;
      var inYRangeDown := point.y >= shape[j].y && point.y < shape[i].y;
      var inYRange := inYRangeUp || inYRangeDown;
      if inYRange {
        var intersects := point.x < CrossingX(point, shape[i], shape[j]);
        if intersects {
          isInside := !isInside;
        }
      }
      j, i := i, i + 1;
    }
  }

  // ---------------------------------------------------------------------------
  // segmentsIntersectAt
  // ---------------------------------------------------------------------------

  /** Fraction along p1From -> p1To at which the two segments meet, both
      segments closed at their ends, or -1 when they do not meet. With
      p1Vec = p1To - p1From, p2Vec = p2To - p2From and p1p2 = p1From - p2From,
      the determinant is D = Cross(p1Vec, p2Vec) and Cramer's rule gives the
      fractions Cross(p2Vec, p1p2) / D and Cross(p1Vec, p1p2) / D. D is zero for
      parallel, collinear and zero-length segments; this definition answers -1
      there (SegmentsIntersectAtAsWritten shows what the unguarded division does). */
  function SegmentsIntersectAt(p1From: Coord, p1To: Coord, p2From: Coord, p2To: Coord): (r: real)
    ensures r == -1.0 || 0.0 <= r <= 1.0
  {
    var p1Vec := p1To.Minus(p1From);
    var p2Vec := p2To.Minus(p2From);
    var p1p2 := p1From.Minus(p2From);
    var D := Cross(p1Vec, p2Vec);
    if D == 0.0 then -1.0
    else
      var p1Frac := Cross(p2Vec, p1p2) / D;
      if p1Frac < 0.0 || p1Frac > 1.0 then -1.0
      else
        var p2Frac := Cross(p1Vec, p1p2) / D;
        if p2Frac < 0.0 || p2Frac > 1.0 then -1.0
        else p1Frac
  }

  /** Cramer's rule for d + t * a - s * b == 0, with a nonzero determinant. */
  lemma CramerSolves(a: Coord, b: Coord, d: Coord)
    requires Cross(a, b) != 0.0
    ensures var t, s := Cross(b, d) / Cross(a, b), Cross(a, d) / Cross(a, b);
      d.x + t * a.x - s * b.x == 0.0 && d.y + t * a.y - s * b.y == 0.0
  {
    var D := Cross(a, b);
    var t, s := Cross(b, d) / D, Cross(a, d) / D;
    assert t * D == Cross(b, d) && s * D == Cross(a, d);
    calc {
      D * (d.x + t * a.x - s * b.x);
      D * d.x + (t * D) * a.x - (s * D) * b.x;
      D * d.x + Cross(b, d) * a.x - Cross(a, d) * b.x;
      0.0;
    }
    calc {
      D * (d.y + t * a.y - s * b.y);
      D * d.y + (t * D) * a.y - (s * D) * b.y;
      D * d.y + Cross(b, d) * a.y - Cross(a, d) * b.y;
      0.0;
    }
    ZeroProduct(D, d.x + t * a.x - s * b.x);
    ZeroProduct(D, d.y + t * a.y - s * b.y);
  }

  /** The solution of d + t * a - s * b == 0 is unique when Cross(a, b) != 0. */
  lemma CramerUnique(a: Coord, b: Coord, d: Coord, t: real, s: real)
    requires Cross(a, b) != 0.0
    requires d.x + t * a.x - s * b.x == 0.0 && d.y + t * a.y - s * b.y == 0.0
    ensures Cross(b, d) / Cross(a, b) == t && Cross(a, d) / Cross(a, b) == s
  {
    var D := Cross(a, b);
    calc {
      Cross(b, d);
      b.x * d.y - b.y * d.x;
      b.x * (s * b.y - t * a.y) - b.y * (s * b.x - t * a.x);
      t * D;
    }
    calc {
      Cross(a, d);
      a.x * d.y - a.y * d.x;
      a.x * (s * b.y - t * a.y) - a.y * (s * b.x - t * a.x);
      s * D;
    }
  }

  lemma ZeroProduct(p: real, q: real)
    requires p != 0.0 && p * q == 0.0
    ensures q == 0.0
  {
  }

  /** Soundness: an answer other than -1 is a point of both segments. */
  lemma SegmentsIntersectAtSound(p1From: Coord, p1To: Coord, p2From: Coord, p2To: Coord)
    ensures var t := SegmentsIntersectAt(p1From, p1To, p2From, p2To);
      t != -1.0 ==> exists s :: 0.0 <= s <= 1.0 && PointAt(p1From, p1To, t) == PointAt(p2From, p2To, s)
  {
    var a, b, d := p1To.Minus(p1From), p2To.Minus(p2From), p1From.Minus(p2From);
    var t := SegmentsIntersectAt(p1From, p1To, p2From, p2To);
    if t != -1.0 {
      var s := Cross(a, d) / Cross(a, b);
      CramerSolves(a, b, d);
      assert 0.0 <= s <= 1.0;
      assert PointAt(p1From, p1To, t) == PointAt(p2From, p2To, s);
    }
  }

  /** Completeness: when the segments are not parallel and share a point at
      fractions t and s within both, the answer is exactly t. */
  lemma SegmentsIntersectAtComplete(p1From: Coord, p1To: Coord, p2From: Coord, p2To: Coord, t: real, s: real)
    requires Cross(p1To.Minus(p1From), p2To.Minus(p2From)) != 0.0
    requires 0.0 <= t <= 1.0 && 0.0 <= s <= 1.0
    requires PointAt(p1From, p1To, t) == PointAt(p2From, p2To, s)
    ensures SegmentsIntersectAt(p1From, p1To, p2From, p2To) == t
  {
    var a, b, d := p1To.Minus(p1From), p2To.Minus(p2From), p1From.Minus(p2From);
    CramerUnique(a, b, d, t, s);
  }

  /** An IEEE-754 double as far as segmentsIntersectAt's range tests see it. */
  datatype Double = Finite(v: real) | Infinity | NaN

  /** IEEE division: a nonzero numerator over zero is an infinity (of either
      sign, both fail the range test), zero over zero is NaN. */
  function IeeeDivide(num: real, den: real): Double
  {
    if den != 0.0 then Finite(num / den)
    else if num == 0.0 then NaN
    else Infinity
  }

  /** `x < 0 || x > 1`; every comparison with NaN is false. */
  predicate OutsideUnit(x: Double)
  {
    match x
    case Finite(v) => v < 0.0 || v > 1.0
    case Infinity => true
    case NaN => false
  }

  /** segmentsIntersectAt as written: no guard on D, IEEE division. */
  function SegmentsIntersectAtAsWritten(p1From: Coord, p1To: Coord, p2From: Coord, p2To: Coord): (r: Double)
    ensures Cross(p1To.Minus(p1From), p2To.Minus(p2From)) != 0.0 ==>
      r == Finite(SegmentsIntersectAt(p1From, p1To, p2From, p2To))
  {
    var p1Vec := p1To.Minus(p1From);
    var p2Vec := p2To.Minus(p2From);
    var p1p2 := p1From.Minus(p2From);
    var D := Cross(p1Vec, p2Vec);
    var p1Frac := IeeeDivide(Cross(p2Vec, p1p2), D);
    if OutsideUnit(p1Frac) then Finite(-1.0)
    else
      var p2Frac := IeeeDivide(Cross(p1Vec, p1p2), D);
      if OutsideUnit(p2Frac) then Finite(-1.0)
      else p1Frac
  }

  /** Collinear segments (every cross product zero) make the as-written
      intersector answer NaN, which is neither -1 nor a fraction in [0, 1]; the
      caller's `inter != -1` test records it as a crossing. The guarded
      definition answers -1. */
  lemma CollinearSegmentsGiveNaN(p1From: Coord, p1To: Coord, p2From: Coord, p2To: Coord)
    requires Cross(p1To.Minus(p1From), p2To.Minus(p2From)) == 0.0
    requires Cross(p2To.Minus(p2From), p1From.Minus(p2From)) == 0.0
    requires Cross(p1To.Minus(p1From), p1From.Minus(p2From)) == 0.0
    ensures SegmentsIntersectAtAsWritten(p1From, p1To, p2From, p2To) == NaN
    ensures SegmentsIntersectAt(p1From, p1To, p2From, p2To) == -1.0
  {
  }

  // ---------------------------------------------------------------------------
  // getIntersectionPoint
  // ---------------------------------------------------------------------------

  /** The answer of one obstruction query: `Clear` stands for the NaN result,
      `Blocked(x)` for a distance x from the sender. */
  datatype Answer = Clear | Blocked(distance: real)

  /** The intersection fraction of the path with edge i (vertex i and its
      cyclic predecessor), -1 for none. */
  function EdgeFrac(sender: Coord, receiver: Coord, shape: seq<Coord>, i: nat): real
    requires i < |shape|
  {
    SegmentsIntersectAt(sender, receiver, shape[i], shape[Pred(|shape|, i)])
  }

  /** The smallest intersection fraction among edges 0 .. k-1, if any. */
  function FirstCrossing(sender: Coord, receiver: Coord, shape: seq<Coord>, k: nat): (r: Option<real>)
    requires k <= |shape|
    ensures r.None? <==> forall i :: 0 <= i < k ==> EdgeFrac(sender, receiver, shape, i) == -1.0
    ensures r.Some? ==> 0.0 <= r.value <= 1.0
    ensures r.Some? ==> forall i :: 0 <= i < k && EdgeFrac(sender, receiver, shape, i) != -1.0 ==>
      r.value <= EdgeFrac(sender, receiver, shape, i)
  {
    if k == 0 then None
    else
      var t := EdgeFrac(sender, receiver, shape, k - 1);
      match FirstCrossing(sender, receiver, shape, k - 1)
      case None => if t == -1.0 then None else Some(t)
      case Some(m) => if t != -1.0 && t < m then Some(t) else Some(m)
  }

  /** The smallest fraction is the fraction of one of the edges. */
  lemma {:induction false} FirstCrossingIsAnEdge(sender: Coord, receiver: Coord, shape: seq<Coord>, k: nat)
    requires k <= |shape|
    requires FirstCrossing(sender, receiver, shape, k).Some?
    ensures exists i :: 0 <= i < k && EdgeFrac(sender, receiver, shape, i) == FirstCrossing(sender, receiver, shape, k).value
  {
    var t := EdgeFrac(sender, receiver, shape, k - 1);
    var prev := FirstCrossing(sender, receiver, shape, k - 1);
    if prev.Some? && !(t != -1.0 && t < prev.value) {
      FirstCrossingIsAnEdge(sender, receiver, shape, k - 1);
    }
  }

  /** The distance from the start of a path of length d at fraction t. */
  function DistanceAt(t: real, d: real): real { t * d }

  /** The obstruction query on a footprint, for a path of length d. */
  function Obstruction(shape: seq<Coord>, sender: Coord, receiver: Coord, d: real): Answer
  {
    if Inside(sender, shape) then Blocked(0.0)
    else
      match FirstCrossing(sender, receiver, shape, |shape|)
      case None => if Inside(receiver, shape) then Blocked(d) else Clear
      case Some(t) => Blocked(DistanceAt(t, d))
  }

  /** The three outcomes: a sender inside blocks at distance 0; the path is
      clear exactly when both ends are outside and no edge is crossed; a
      receiver inside with no edge crossed blocks at the full distance d. */
  lemma ObstructionCases(shape: seq<Coord>, sender: Coord, receiver: Coord, d: real)
    ensures Inside(sender, shape) ==> Obstruction(shape, sender, receiver, d) == Blocked(0.0)
    ensures Obstruction(shape, sender, receiver, d) == Clear <==>
      && !Inside(sender, shape)
      && !Inside(receiver, shape)
      && forall i :: 0 <= i < |shape| ==> EdgeFrac(sender, receiver, shape, i) == -1.0
    ensures !Inside(sender, shape) && Inside(receiver, shape)
      && (forall i :: 0 <= i < |shape| ==> EdgeFrac(sender, receiver, shape, i) == -1.0)
      ==> Obstruction(shape, sender, receiver, d) == Blocked(d)
  {
  }

  /** A blocking answer is a distance along the path: between 0 and d. */
  lemma ObstructionWithinPath(shape: seq<Coord>, sender: Coord, receiver: Coord, d: real)
    requires d >= 0.0
    ensures Obstruction(shape, sender, receiver, d).Blocked? ==>
      0.0 <= Obstruction(shape, sender, receiver, d).distance <= d
  {
    if !Inside(sender, shape) && FirstCrossing(sender, receiver, shape, |shape|).Some? {
      ScaleWithin(FirstCrossing(sender, receiver, shape, |shape|).value, d);
    }
  }

  lemma ScaleWithin(t: real, d: real)
    requires 0.0 <= t <= 1.0 && d >= 0.0
    ensures 0.0 <= DistanceAt(t, d) <= d
  {
    assert d - t * d == (1.0 - t) * d;
  }

  /** When the sender is outside and some edge is crossed, the answer is d
      times a fraction t at which the path meets an edge, and no edge that is
      not parallel to the path meets it at a smaller fraction. */
  lemma FirstCrossingIsFirstContact(shape: seq<Coord>, sender: Coord, receiver: Coord, d: real)
    requires !Inside(sender, shape)
    requires exists i :: 0 <= i < |shape| && EdgeFrac(sender, receiver, shape, i) != -1.0
    ensures exists t ::
      && 0.0 <= t <= 1.0
      && Obstruction(shape, sender, receiver, d) == Blocked(DistanceAt(t, d))
      && (exists i, s :: 0 <= i < |shape| && 0.0 <= s <= 1.0
            && PointAt(sender, receiver, t) == PointAt(shape[i], shape[Pred(|shape|, i)], s))
      && (forall i, t', s :: 0 <= i < |shape| && 0.0 <= t' <= 1.0 && 0.0 <= s <= 1.0
            && Cross(receiver.Minus(sender), shape[Pred(|shape|, i)].Minus(shape[i])) != 0.0
            && PointAt(sender, receiver, t') == PointAt(shape[i], shape[Pred(|shape|, i)], s)
            ==> t <= t')
  {
    var n := |shape|;
    var first := FirstCrossing(sender, receiver, shape, n);
    var t := first.value;
    FirstCrossingIsAnEdge(sender, receiver, shape, n);
    var i :| 0 <= i < n && EdgeFrac(sender, receiver, shape, i) == t;
    SegmentsIntersectAtSound(sender, receiver, shape[i], shape[Pred(n, i)]);
    forall k, t', s | 0 <= k < n && 0.0 <= t' <= 1.0 && 0.0 <= s <= 1.0
      && Cross(receiver.Minus(sender), shape[Pred(n, k)].Minus(shape[k])) != 0.0
      && PointAt(sender, receiver, t') == PointAt(shape[k], shape[Pred(n, k)], s)
      ensures t <= t'
    {
      SegmentsIntersectAtComplete(sender, receiver, shape[k], shape[Pred(n, k)], t', s);
      assert EdgeFrac(sender, receiver, shape, k) == t';
    }
  }

  method GetIntersectionPoint(v: Vehicle, senderPos: Coord, receiverPos: Coord, d: real) returns (r: Answer)
    ensures r == Obstruction(GetShape(v), senderPos, receiverPos, d)
  {
    var shape := GetShape(v);

    var senderInside := IsPointInObstacle(senderPos, shape);
    if senderInside {
      return Blocked(0.0);
    }

    // running minimum of the multiset of crossing fractions
    var first := 0.0;
    var doesIntersect := false;
    var n := |shape|;
    var i, j := 0, n - 1;
    while i < n
      invariant 0 <= i <= n
      invariant i < n ==> j == Pred(n, i)
      invariant doesIntersect == FirstCrossing(senderPos, receiverPos, shape, i).Some?
      invariant doesIntersect ==> first == FirstCrossing(senderPos, receiverPos, shape, i).value
    {
      var c1, c2 := shape[i], shape[j];
      var inter := SegmentsIntersectAt(senderPos, receiverPos, c1, c2);
      assert inter == EdgeFrac(senderPos, receiverPos, shape, i);
      if inter != -1.0 {
        if !doesIntersect || inter < first {
          first := inter;
        }
        doesIntersect := true;
      }
      j, i := i, i + 1;
    }

    if !doesIntersect {
      assert FirstCrossing(senderPos, receiverPos, shape, |shape|) == None;
      var receiverInside := IsPointInObstacle(receiverPos, shape);
      if receiverInside {
        return Blocked(d);
      }
      return Clear;
    }
    assert FirstCrossing(senderPos, receiverPos, shape, |shape|) == Some(first);
    return Blocked(DistanceAt(first, d));
  }
}
