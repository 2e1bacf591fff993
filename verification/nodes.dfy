/** Cities of a TSP instance (src/de/metal_land/tsp/Node.java): an immutable record of a
    name and integer coordinates, the TSPLIB pseudo-Euclidean distance between two cities
    and the ordering of cities by name. */
module Nodes {

  import Util

  /** A city. Java gives `name`, `x` and `y` no setters, so a datatype value models it. */
  datatype Node = Node(name: string, x: int, y: int)

  /** dx*dx + dy*dy, the value `a * a + b * b` in `distanceTo`. */
  function SquaredSpan(p: Node, q: Node): nat
  {
    var dx := p.x - q.x;
    var dy := p.y - q.y;
    SquareNonNegative(dx);
    SquareNonNegative(dy);
    dx * dx + dy * dy
  }

  lemma SquareNonNegative(d: int)
    ensures d * d >= 0
  {
    if d < 0 {
      assert d * d == (-d) * (-d);
    }
  }

  /** The Java expression `a * a + b * b` does not overflow. */
  predicate Fits(p: Node, q: Node)
  {
    SquaredSpan(p, q) < Util.IntLimit
  }

  /** The integer square root, rounded down. */
  function FloorSqrt(q: nat): (r: nat)
    ensures r * r <= q < (r + 1) * (r + 1)
    decreases q
  {
    if q == 0 then 0
    else if q < 4 then 1
    else
      var t := FloorSqrt(q / 4);
      FloorSqrtStep(q, t);
      var s := 2 * t;
      if (s + 1) * (s + 1) <= q then s + 1 else s
  }

  /** Doubling the root of q div 4 brackets the root of q. */
  lemma FloorSqrtStep(q: nat, t: nat)
    requires t * t <= q / 4 < (t + 1) * (t + 1)
    ensures (2 * t) * (2 * t) <= q < (2 * t + 2) * (2 * t + 2)
  {
    var m := q / 4;
    assert 4 * m <= q < 4 * m + 4;
    assert (2 * t) * (2 * t) == 4 * (t * t);
    assert (2 * t + 2) * (2 * t + 2) == 4 * ((t + 1) * (t + 1));
  }

  /** Expansions of the squares around a root s, for the rounding argument. */
  lemma SquaresAround(s: nat)
    ensures (s + 1) * (s + 1) == s * s + 2 * s + 1
    ensures (2 * s + 1) * (2 * s + 1) == 4 * (s * s) + 4 * s + 1
    ensures (2 * s + 3) * (2 * s + 3) == 4 * (s * s) + 12 * s + 9
    ensures s > 0 ==> (2 * s - 1) * (2 * s - 1) == 4 * (s * s) - 4 * s + 1
  {
  }

  /** `Math.round(Math.sqrt(q))` for an integer q: the square root rounded to the nearest
      integer, halves upward. sqrt(q) >= s + 1/2 holds exactly when q > s*s + s. */
  function RoundSqrt(q: nat): (r: nat)
    ensures 4 * q < (2 * r + 1) * (2 * r + 1)
    ensures r > 0 ==> (2 * r - 1) * (2 * r - 1) < 4 * q
  {
    var s := FloorSqrt(q);
    SquaresAround(s);
    SquaresAround(s + 1);
    if q > s * s + s then s + 1 else s
  }

  /** `distanceTo`: the TSPLIB "ATT" pseudo-Euclidean distance with an integer division by 10.
      The source rounds the real square root and adds one when rounding went down; the result
      is the least r with r*r >= (dx*dx + dy*dy) div 10, the integer ceiling of its square root. */
  function DistanceTo(p: Node, q: Node): (r: nat)
    requires Fits(p, q)
    ensures r * r >= SquaredSpan(p, q) / 10
    ensures r > 0 ==> (r - 1) * (r - 1) < SquaredSpan(p, q) / 10
  {
    var calculated := SquaredSpan(p, q) / 10;
    var rounded := RoundSqrt(calculated);
    RoundedToCeiling(calculated, rounded);
    if rounded * rounded < calculated then rounded + 1 else rounded
  }

  /** The correction step of `distanceTo`: from the rounded root r of q, adding one when
      r*r < q gives the least value whose square is at least q. */
  lemma RoundedToCeiling(q: nat, r: nat)
    requires 4 * q < (2 * r + 1) * (2 * r + 1)
    requires r > 0 ==> (2 * r - 1) * (2 * r - 1) < 4 * q
    ensures r * r < q ==> (r + 1) * (r + 1) >= q
    ensures r * r >= q && r > 0 ==> (r - 1) * (r - 1) < q
  {
    SquaresAround(r);
    if r > 0 {
      SquaresAround(r - 1);
    }
  }

  lemma SquaredSpanSymmetric(p: Node, q: Node)
    ensures SquaredSpan(p, q) == SquaredSpan(q, p)
  {
    assert (p.x - q.x) * (p.x - q.x) == (q.x - p.x) * (q.x - p.x);
    assert (p.y - q.y) * (p.y - q.y) == (q.y - p.y) * (q.y - p.y);
  }

  /** `distanceTo` is symmetric. */
  lemma DistanceSymmetric(p: Node, q: Node)
    requires Fits(p, q)
    ensures Fits(q, p)
    ensures DistanceTo(p, q) == DistanceTo(q, p)
  {
    SquaredSpanSymmetric(p, q);
  }

  /** Two values that both are the least r with r*r >= q are equal. */
  lemma CeilSqrtUnique(q: nat, r: nat, r': nat)
    requires r * r >= q && (r > 0 ==> (r - 1) * (r - 1) < q)
    requires r' * r' >= q && (r' > 0 ==> (r' - 1) * (r' - 1) < q)
    ensures r == r'
  {
    if r < r' {
      assert r <= r' - 1;
      assert r * r <= (r' - 1) * (r' - 1) by { MonotoneSquare(r, r' - 1); }
    } else if r' < r {
      assert r' <= r - 1;
      assert r' * r' <= (r - 1) * (r - 1) by { MonotoneSquare(r', r - 1); }
    }
  }

  lemma MonotoneSquare(a: nat, b: nat)
    requires a <= b
    ensures a * a <= b * b
  {
    assert a * a <= a * b <= b * b;
  }

  /** The value r of `distanceTo` is determined by r*r >= q and (r-1)*(r-1) < q. */
  lemma DistanceIs(p: Node, q: Node, r: nat)
    requires Fits(p, q)
    requires r * r >= SquaredSpan(p, q) / 10
    requires r > 0 ==> (r - 1) * (r - 1) < SquaredSpan(p, q) / 10
    ensures DistanceTo(p, q) == r
  {
    CeilSqrtUnique(SquaredSpan(p, q) / 10, DistanceTo(p, q), r);
  }

  /** A city is at distance 0 from itself, and so is any city closer than sqrt(10). */
  lemma DistanceNearIsZero(p: Node, q: Node)
    requires SquaredSpan(p, q) < 10
    ensures Fits(p, q) && DistanceTo(p, q) == 0
  {
    DistanceIs(p, q, 0);
  }

  lemma DistanceSelf(p: Node)
    ensures Fits(p, p) && DistanceTo(p, p) == 0
  {
    DistanceNearIsZero(p, p);
  }

  /** Java's `String.compareTo`: the difference of the first differing characters, or else
      the difference of the lengths. */
  function CompareNames(a: string, b: string): (c: int)
    ensures c == 0 <==> a == b
    decreases |a|
  {
    if a == [] || b == [] then |a| - |b|
    else if a[0] != b[0] then a[0] as int - b[0] as int
    else
      assert a == [a[0]] + a[1..] && b == [b[0]] + b[1..];
      CompareNames(a[1..], b[1..])
  }

  /** `Node.compareTo`: cities are ordered by name only. */
  function CompareTo(p: Node, q: Node): (c: int)
    ensures c == 0 <==> p.name == q.name
  {
    CompareNames(p.name, q.name)
  }

  /** The name order is antisymmetric: swapping the arguments negates the result. */
  lemma {:induction false} CompareNamesAntisymmetric(a: string, b: string)
    ensures CompareNames(a, b) == -CompareNames(b, a)
    decreases |a|
  {
    if a != [] && b != [] && a[0] == b[0] {
      CompareNamesAntisymmetric(a[1..], b[1..]);
    }
  }

  /** The name order is transitive, as the TreeMap keyed by `Node.compareTo` relies on. */
  lemma {:induction false} CompareNamesTransitive(a: string, b: string, c: string)
    requires CompareNames(a, b) < 0 && CompareNames(b, c) < 0
    ensures CompareNames(a, c) < 0
    decreases |a|
  {
    if a != [] && b != [] && c != [] && a[0] == b[0] && b[0] == c[0] {
      CompareNamesTransitive(a[1..], b[1..], c[1..]);
    }
  }
}
