/** The crossing removal `TSP.optimize` (src/de/metal_land/tsp/TSP.java). One pass walks the
    route; for the city at position p it looks up `indexOf` that city (its first occurrence, ci),
    shrinks the look-ahead `distance` near the end of the route, and tests whether the edge
    (ci, ci+1) crosses the edge (ci+2, ci+3); the inner loop repeats that same test `distance`
    times, since its index never moves. On a crossing the two cities between the edges swap
    places and the route is optimized again. */
module Crossing {

  import opened Nodes
  import opened Geometry
  import Util

  /** `List.indexOf`: the first position of x, or -1. */
  function IndexOf(s: seq<Node>, x: Node): (r: int)
    ensures -1 <= r < |s|
    ensures r == -1 <==> x !in s
    ensures r >= 0 ==> s[r] == x && x !in s[..r]
    decreases |s|
  {
    if s == [] then -1
    else if s[0] == x then 0
    else
      var r := IndexOf(s[1..], x);
      assert s == [s[0]] + s[1..];
      if r == -1 then -1
      else
        assert s[..r + 1] == [s[0]] + s[1..][..r];
        r + 1
  }

  /** The edge (i, i+1) and the edge (i+2, i+3) meet, as `linesIntersect(nodeNext, node,
      currentNode, routeList.get(currentIndex + 1))` tests it. */
  predicate EdgesCross(s: seq<Node>, i: nat)
    requires i + 3 < |s|
  {
    LinesIntersect(s[i + 3].x, s[i + 3].y, s[i + 2].x, s[i + 2].y, s[i].x, s[i].y, s[i + 1].x, s[i + 1].y)
  }

  /** The rewritten route: the cities at positions i+1 and i+2 exchanged. */
  function SwapAfter(s: seq<Node>, i: nat): seq<Node>
    requires i + 3 <= |s|
  {
    s[i + 1 := s[i + 2]][i + 2 := s[i + 1]]
  }

  /** The list reassembled from `sublist(0, i+1)`, `reverseList(sublist(i+1, i+3))` and
      `sublist(i+3, size)` is that exchange. */
  lemma ReassemblyIsSwap(s: seq<Node>, i: nat)
    requires i + 3 <= |s|
    ensures s[..i + 1] + Util.Reverse(s[i + 1..i + 3]) + s[i + 3..] == SwapAfter(s, i)
  {
    var mid := s[i + 1..i + 3];
    assert Util.Reverse(mid) == [s[i + 2], s[i + 1]] by {
      assert mid == [s[i + 1], s[i + 2]];
    }
  }

  /** The rewrite leaves every other position alone, so the new route holds the same
      cities. */
  lemma SwapAfterExchanges(s: seq<Node>, i: nat)
    requires i + 3 <= |s|
    ensures var t := SwapAfter(s, i);
      && |t| == |s|
      && (forall k :: 0 <= k < |s| && k != i + 1 && k != i + 2 ==> t[k] == s[k])
      && multiset(t) == multiset(s)
  {
    var t := SwapAfter(s, i);
    assert s == s[..i + 1] + [s[i + 1], s[i + 2]] + s[i + 3..];
    assert t == s[..i + 1] + [s[i + 2], s[i + 1]] + s[i + 3..];
    assert multiset([s[i + 2], s[i + 1]]) == multiset([s[i + 1], s[i + 2]]);
  }

  /** What one pass of `optimize` finds: a crossing after the city at position ci (the route
      is then rewritten there), no crossing, or the IndexOutOfBoundsException of
      `routeList.get`. */
  datatype Pass = CrossingAt(ci: nat) | NoCrossing | OutOfBounds

  /** The outer `for` loop of `optimize` as written, from position p with look-ahead
      `distance`. */
  function Scan(s: seq<Node>, p: nat, distance: int): (r: Pass)
    ensures r.CrossingAt? ==> r.ci + 3 < |s| && EdgesCross(s, r.ci)
    decreases |s| - p
  {
    if p >= |s| then NoCrossing
    else
      var ci := IndexOf(s, s[p]);
      var nearEnd := ci >= |s| - distance;
      var d := if nearEnd then distance - 1 else distance;
      if nearEnd && d <= 4 then NoCrossing
      else if d <= 0 then Scan(s, p + 1, d)
      else if ci + 3 >= |s| then OutOfBounds
      else if EdgesCross(s, ci) then CrossingAt(ci)
      else Scan(s, p + 1, d)
  }

  /** The pass with the evident intent of the "don't move over the end" guard: a position with
      no edge pair left to test is skipped instead of read past the end. */
  function GuardedScan(s: seq<Node>, p: nat, distance: int): (r: Pass)
    ensures r.CrossingAt? ==> r.ci + 3 < |s| && EdgesCross(s, r.ci)
    decreases |s| - p
  {
    if p >= |s| then NoCrossing
    else
      var ci := IndexOf(s, s[p]);
      var nearEnd := ci >= |s| - distance;
      var d := if nearEnd then distance - 1 else distance;
      if nearEnd && d <= 4 then NoCrossing
      else if d <= 0 then GuardedScan(s, p + 1, d)
      else if ci + 3 >= |s| then GuardedScan(s, p + 1, d)
      else if EdgesCross(s, ci) then CrossingAt(ci)
      else GuardedScan(s, p + 1, d)
  }

  /** Whenever the pass as written does not throw, the guarded pass gives the same answer. */
  lemma {:induction false} GuardedScanAgrees(s: seq<Node>, p: nat, distance: int)
    requires Scan(s, p, distance) != OutOfBounds
    ensures GuardedScan(s, p, distance) == Scan(s, p, distance)
    decreases |s| - p
  {
    if p < |s| {
      var ci := IndexOf(s, s[p]);
      var d := if ci >= |s| - distance then distance - 1 else distance;
      if !(ci >= |s| - distance && d <= 4) && (d <= 0 || (ci + 3 < |s| && !EdgesCross(s, ci))) {
        GuardedScanAgrees(s, p + 1, d);
      }
    }
  }

  /** The guarded pass never throws. */
  lemma {:induction false} GuardedScanNeverThrows(s: seq<Node>, p: nat, distance: int)
    ensures GuardedScan(s, p, distance) != OutOfBounds
    decreases |s| - p
  {
    if p < |s| {
      var ci := IndexOf(s, s[p]);
      var d := if ci >= |s| - distance then distance - 1 else distance;
      if !(ci >= |s| - distance && d <= 4) {
        GuardedScanNeverThrows(s, p + 1, d);
      }
    }
  }

  /** No two consecutive edges of the route two apart cross. */
  predicate CrossingFree(s: seq<Node>)
  {
    forall i: nat :: i + 3 < |s| ==> !EdgesCross(s, i)
  }

  /** On a crossing-free route the guarded pass finds no crossing. */
  lemma GuardedScanCrossingFree(s: seq<Node>, p: nat, distance: int)
    requires CrossingFree(s)
    ensures GuardedScan(s, p, distance) == NoCrossing
  {
    GuardedScanNeverThrows(s, p, distance);
  }

  /** max(0, x). */
  function Max0(x: int): nat
  {
    if x > 0 then x else 0
  }

  /** The positions whose edge pair a full pass over a route of n distinct cities tests. The
      look-ahead stays 30 up to position n-30 and then loses one per position, so the break
      at 4 comes at position 25 + max(0, n-30); only positions with an edge pair after them
      have one to test. */
  predicate Tested(n: nat, i: nat)
  {
    i + 3 < n && i < 25 + Max0(n - 30)
  }

  /** The look-ahead a full pass over a route of n distinct cities carries into position p. */
  function LookAhead(n: nat, p: nat): int
  {
    30 - Max0(p - Max0(n - 30))
  }

  /** One position of a full guarded pass over a route without repeated cities: the break
      at position 25 + max(0, n-30), a skip where no edge pair is left or the edges do not
      cross, and the crossing otherwise. */
  lemma GuardedScanStep(s: seq<Node>, p: nat)
    requires Util.Distinct(s)
    requires p < |s| && p <= 25 + Max0(|s| - 30)
    ensures GuardedScan(s, p, LookAhead(|s|, p)) ==
      if p == 25 + Max0(|s| - 30) then NoCrossing
      else if p + 3 >= |s| || !EdgesCross(s, p) then GuardedScan(s, p + 1, LookAhead(|s|, p + 1))
      else CrossingAt(p)
  {
    IndexOfDistinct(s, p);
    var n, m := |s|, Max0(|s| - 30);
    var distance := LookAhead(n, p);
    GuardedScanAt(s, p, distance);
    assert p >= n - distance <==> p >= m;
    var d := if p >= m then distance - 1 else distance;
    assert d == LookAhead(n, p + 1);
    assert p >= m && d <= 4 <==> p == m + 25;
  }

  /** One position of the guarded pass, at a city `indexOf` finds at its own position. */
  lemma GuardedScanAt(s: seq<Node>, p: nat, distance: int)
    requires p < |s| && IndexOf(s, s[p]) == p
    ensures var d := if p >= |s| - distance then distance - 1 else distance;
      GuardedScan(s, p, distance) ==
        if p >= |s| - distance && d <= 4 then NoCrossing
        else if d <= 0 || p + 3 >= |s| || !EdgesCross(s, p) then GuardedScan(s, p + 1, d)
        else CrossingAt(p)
  {
  }

  /** No tested position from p on has a crossing. */
  ghost predicate UncrossedFrom(s: seq<Node>, p: nat)
  {
    forall i: nat :: p <= i && Tested(|s|, i) ==> !EdgesCross(s, i)
  }

  /** Position c is tested, and is the first position from p on with a crossing. */
  ghost predicate FirstCrossingFrom(s: seq<Node>, p: nat, c: nat)
  {
    p <= c && Tested(|s|, c) && EdgesCross(s, c) && forall i: nat :: p <= i < c ==> !EdgesCross(s, i)
  }

  /** On a route without repeated cities the guarded pass from position p, with the
      look-ahead a full pass brings there, finds no crossing exactly when no tested position
      from p on has one, and a crossing it reports is the first tested one from p on. */
  lemma {:induction false} GuardedScanWindow(s: seq<Node>, p: nat)
    requires Util.Distinct(s)
    requires p <= 25 + Max0(|s| - 30)
    ensures var r := GuardedScan(s, p, LookAhead(|s|, p));
      && (r == NoCrossing <==> UncrossedFrom(s, p))
      && (r.CrossingAt? ==> FirstCrossingFrom(s, p, r.ci))
    decreases |s| - p
  {
    if p >= |s| || p == 25 + Max0(|s| - 30) {
      UncrossedPast(s, p);
    } else {
      GuardedScanStep(s, p);
      if p + 3 >= |s| || !EdgesCross(s, p) {
        GuardedScanWindow(s, p + 1);
        UncrossedStep(s, p);
        var r := GuardedScan(s, p + 1, LookAhead(|s|, p + 1));
        if r.CrossingAt? {
          FirstCrossingStep(s, p, r.ci);
        }
      } else {
        FirstCrossingHere(s, p);
      }
    }
  }

  /** Past the break, or past the end, no position is tested. */
  lemma UncrossedPast(s: seq<Node>, p: nat)
    requires p >= |s| || p >= 25 + Max0(|s| - 30)
    ensures UncrossedFrom(s, p)
  {
  }

  /** Whether tested positions from p on are uncrossed, position by position. */
  lemma UncrossedStep(s: seq<Node>, p: nat)
    requires p + 3 >= |s| || !EdgesCross(s, p)
    ensures UncrossedFrom(s, p) <==> UncrossedFrom(s, p + 1)
  {
  }

  /** A position without a crossing does not change which crossing comes first. */
  lemma FirstCrossingStep(s: seq<Node>, p: nat, c: nat)
    requires p + 3 >= |s| || !EdgesCross(s, p)
    requires FirstCrossingFrom(s, p + 1, c)
    ensures FirstCrossingFrom(s, p, c)
  {
  }

  /** A tested position with a crossing is the first crossing from there. */
  lemma FirstCrossingHere(s: seq<Node>, p: nat)
    requires p < 25 + Max0(|s| - 30) && p + 3 < |s| && EdgesCross(s, p)
    ensures FirstCrossingFrom(s, p, p) && !UncrossedFrom(s, p)
  {
  }

  /** On a route without repeated cities a full guarded pass never throws; it finds no
      crossing exactly when no tested position has one, and a crossing it reports is the
      first one. */
  lemma GuardedFullScanWindow(s: seq<Node>)
    requires Util.Distinct(s)
    ensures var r := GuardedFullScan(s);
      && r != OutOfBounds
      && (r == NoCrossing <==> UncrossedFrom(s, 0))
      && (r.CrossingAt? ==> FirstCrossingFrom(s, 0, r.ci))
  {
    assert LookAhead(|s|, 0) == 30;
    GuardedScanWindow(s, 0);
    GuardedScanNeverThrows(s, 0, 30);
  }

  /** On a route without repeated cities a full pass as written that finds no crossing has
      checked every tested position, and a crossing it reports is the first one. */
  lemma FullScanWindow(s: seq<Node>)
    requires Util.Distinct(s)
    ensures var r := FullScan(s);
      && (r == NoCrossing ==> UncrossedFrom(s, 0))
      && (r.CrossingAt? ==> FirstCrossingFrom(s, 0, r.ci))
  {
    if FullScan(s) != OutOfBounds {
      GuardedScanAgrees(s, 0, 30);
    }
    GuardedFullScanWindow(s);
  }

  /** The pass as written throws on every crossing-free route of 3 to 27 distinct cities: the
      look-ahead starts at 30 and loses one per city, so the break at 4 would only come at
      position 25, while the edge pair of position |s|-3 already runs past the end. */
  lemma {:induction false} ShortRoutesThrow(s: seq<Node>, p: nat)
    requires 3 <= |s| <= 27 && Util.Distinct(s) && CrossingFree(s)
    requires p <= |s| - 3
    ensures Scan(s, p, 30 - p) == OutOfBounds
    decreases |s| - p
  {
    IndexOfDistinct(s, p);
    if p < |s| - 3 {
      assert !EdgesCross(s, p);
      ShortRoutesThrow(s, p + 1);
    }
  }

  /** In a route without repeated cities `indexOf` finds each city at its own position. */
  lemma IndexOfDistinct(s: seq<Node>, k: nat)
    requires Util.Distinct(s) && k < |s|
    ensures IndexOf(s, s[k]) == k
  {
    var r := IndexOf(s, s[k]);
    assert s[k] in s;
    assert s[r] == s[k];
  }

  /** The four corners of the unit square, visited in order: the route has no crossing, yet
      the pass as written throws, while the guarded pass reports no crossing. */
  lemma SquareCounterexample()
    ensures var square := [Node("1", 0, 0), Node("2", 1, 0), Node("3", 1, 1), Node("4", 0, 1)];
      && CrossingFree(square)
      && Scan(square, 0, 30) == OutOfBounds
      && GuardedScan(square, 0, 30) == NoCrossing
  {
    var square := [Node("1", 0, 0), Node("2", 1, 0), Node("3", 1, 1), Node("4", 0, 1)];
    assert !EdgesCross(square, 0);
    assert CrossingFree(square);
    ShortRoutesThrow(square, 0);
    GuardedScanCrossingFree(square, 0, 30);
  }

  /** The reassembly after a crossing at position i: the sublist up to i+1, the reversed
      sublist of the two cities after it, and the rest. */
  method Reassemble(routeList: seq<Node>, i: nat) returns (modifiedList: seq<Node>)
    requires i + 3 < |routeList| < Util.IntLimit
    ensures modifiedList == SwapAfter(routeList, i)
  {
    var part1 := Util.Sublist(routeList, 0, i + 1);
    var middle := Util.Sublist(routeList, i + 1, i + 3);
    var reversePart := Util.ReverseList(middle.value);
    var part2 := Util.Sublist(routeList, i + 3, |routeList|);
    modifiedList := part1.value + reversePart + part2.value;
    ReassemblyIsSwap(routeList, i);
  }

  /** One pass of `optimize` over `routeList`: the outer loop over the cities. With `guarded`
      a position without an edge pair left is skipped instead of read past the end. On a
      crossing the rewritten list comes back too. */
  method OptimizePass(routeList: seq<Node>, guarded: bool) returns (result: Pass, modifiedList: seq<Node>)
    requires |routeList| < Util.IntLimit
    ensures result == ScanOf(guarded, routeList, 0, 30)
    ensures result.CrossingAt? ==> modifiedList == SwapAfter(routeList, result.ci)
  {
    var distance := 30;
    var p := 0;
    while p < |routeList|
      invariant 0 <= p <= |routeList|
      invariant ScanOf(guarded, routeList, p, distance) == ScanOf(guarded, routeList, 0, 30)
    {
      var done;
      result, modifiedList, distance, done := VisitPosition(routeList, p, distance, guarded);
      if done {
        return;
      }
      p := p + 1;
    }
    return NoCrossing, [];
  }

  /** The pass as written, or the guarded pass. */
  function ScanOf(guarded: bool, s: seq<Node>, p: nat, distance: int): (r: Pass)
    ensures r.CrossingAt? ==> r.ci + 3 < |s| && EdgesCross(s, r.ci)
  {
    if guarded then GuardedScan(s, p, distance) else Scan(s, p, distance)
  }

  /** The body of the outer loop for the city at position p: the `indexOf` lookup, the
      look-ahead update with its break, and the inner loop. Either the pass ends here, with
      what it returns, or it goes on at p+1 with the new look-ahead. */
  method VisitPosition(routeList: seq<Node>, p: nat, distance: int, guarded: bool)
    returns (result: Pass, modifiedList: seq<Node>, newDistance: int, done: bool)
    requires p < |routeList| < Util.IntLimit
    ensures done ==> result == ScanOf(guarded, routeList, p, distance)
    ensures done && result.CrossingAt? ==> modifiedList == SwapAfter(routeList, result.ci)
    ensures !done ==> ScanOf(guarded, routeList, p + 1, newDistance) == ScanOf(guarded, routeList, p, distance)
  {
    newDistance := distance;
    var currentNode := routeList[p];
    var currentIndex := IndexOf(routeList, currentNode);
    if currentIndex >= |routeList| - newDistance {
      newDistance := newDistance - 1;
      if newDistance <= 4 {
        return NoCrossing, [], newDistance, true;
      }
    }
    result, modifiedList := TestEdges(routeList, currentIndex, newDistance, guarded);
    done := !result.NoCrossing?;
  }

  /** The inner loop of a pass, which repeats the crossing test at `currentIndex` `distance`
      times and rewrites the route at the first crossing. As written it reads past the end
      when no edge pair is left; guarded it stops there. */
  method TestEdges(routeList: seq<Node>, currentIndex: nat, distance: int, guarded: bool)
    returns (result: Pass, modifiedList: seq<Node>)
    requires currentIndex < |routeList| < Util.IntLimit
    ensures distance <= 0 ==> result == NoCrossing
    ensures distance > 0 && currentIndex + 3 >= |routeList| ==> result == if guarded then NoCrossing else OutOfBounds
    ensures distance > 0 && currentIndex + 3 < |routeList| ==>
      result == if EdgesCross(routeList, currentIndex) then CrossingAt(currentIndex) else NoCrossing
    ensures result.CrossingAt? ==> modifiedList == SwapAfter(routeList, currentIndex)
  {
    modifiedList := [];
    var currentNode := routeList[currentIndex];
    var index := currentIndex + 2;
    var i := 0;
    while i < distance
      invariant i == 0 || (index + 1 < |routeList| && !EdgesCross(routeList, currentIndex))
    {
      if index + 1 >= |routeList| {
        if guarded {
          return NoCrossing, [];
        }
        return OutOfBounds, [];
      }
      var node, nodeNext := routeList[index], routeList[index + 1];
      var next := routeList[currentIndex + 1];
      if LinesIntersect(nodeNext.x, nodeNext.y, node.x, node.y, currentNode.x, currentNode.y, next.x, next.y) {
        modifiedList := Reassemble(routeList, currentIndex);
        return CrossingAt(currentIndex), modifiedList;
      }
      i := i + 1;
    }
    return NoCrossing, [];
  }

  /** How `optimize` ends: with the route no further pass rewrites, with the exception of a
      pass, or, in this model, with the pass budget used up. */
  datatype Optimized = Optimized(route: seq<Node>) | Threw | OutOfFuel

  /** The pass `optimize` makes over a whole route, as written. */
  function FullScan(s: seq<Node>): (r: Pass)
    ensures r.CrossingAt? ==> r.ci + 3 < |s| && EdgesCross(s, r.ci)
  {
    Scan(s, 0, 30)
  }

  /** The guarded pass over a whole route. */
  function GuardedFullScan(s: seq<Node>): (r: Pass)
    ensures r.CrossingAt? ==> r.ci + 3 < |s| && EdgesCross(s, r.ci)
  {
    GuardedScan(s, 0, 30)
  }

  /** A pass reports a crossing only where a pair of edges is left to rewrite. */
  ghost predicate InRange(pass: seq<Node> -> Pass)
  {
    forall s :: pass(s).CrossingAt? ==> pass(s).ci + 3 < |s|
  }

  /** The recursion of `optimize` over a given pass: rewrite at each crossing found and start
      over, until a pass finds none or throws; at most `fuel` rewrites. */
  function Repeat(route: seq<Node>, fuel: nat, pass: seq<Node> -> Pass): Optimized
    requires InRange(pass)
    decreases fuel
  {
    match pass(route)
    case NoCrossing => Optimized(route)
    case OutOfBounds => Threw
    case CrossingAt(ci) => if fuel == 0 then OutOfFuel else Repeat(SwapAfter(route, ci), fuel - 1, pass)
  }

  /** What the recursion returns holds the same cities as the input, and the pass finds no
      crossing in it. */
  lemma {:induction false} RepeatPermutes(route: seq<Node>, fuel: nat, pass: seq<Node> -> Pass)
    requires InRange(pass)
    ensures var r := Repeat(route, fuel, pass);
      r.Optimized? ==>
        && |r.route| == |route|
        && multiset(r.route) == multiset(route)
        && pass(r.route) == NoCrossing
    decreases fuel
  {
    match pass(route)
    case NoCrossing =>
    case OutOfBounds =>
    case CrossingAt(ci) =>
      if fuel > 0 {
        SwapAfterExchanges(route, ci);
        RepeatPermutes(SwapAfter(route, ci), fuel - 1, pass);
      }
  }

  /** Over a pass that never throws, the recursion never throws. */
  lemma {:induction false} RepeatNeverThrows(route: seq<Node>, fuel: nat, pass: seq<Node> -> Pass)
    requires InRange(pass)
    requires forall s :: pass(s) != OutOfBounds
    ensures Repeat(route, fuel, pass) != Threw
    decreases fuel
  {
    match pass(route)
    case NoCrossing =>
    case OutOfBounds =>
    case CrossingAt(ci) =>
      if fuel > 0 {
        RepeatNeverThrows(SwapAfter(route, ci), fuel - 1, pass);
      }
  }

  /** Two passes that agree wherever the first does not throw give the same recursion
      wherever the first does not throw. */
  lemma {:induction false} RepeatAgrees(route: seq<Node>, fuel: nat, pass: seq<Node> -> Pass, other: seq<Node> -> Pass)
    requires InRange(pass) && InRange(other)
    requires forall s :: pass(s) != OutOfBounds ==> other(s) == pass(s)
    requires Repeat(route, fuel, pass) != Threw
    ensures Repeat(route, fuel, other) == Repeat(route, fuel, pass)
    decreases fuel
  {
    match pass(route)
    case NoCrossing =>
    case OutOfBounds =>
    case CrossingAt(ci) =>
      if fuel > 0 {
        RepeatAgrees(SwapAfter(route, ci), fuel - 1, pass, other);
      }
  }

  /** `optimize` as written. */
  function OptimizeSpec(route: seq<Node>, fuel: nat): Optimized
  {
    Repeat(route, fuel, FullScan)
  }

  /** An optimized route holds the same cities as the input, and a full pass over it finds
      no crossing; when the input has no repeated city, neither has the result, and no tested
      position of it has a crossing. A route whose own pass finds none comes back unchanged. */
  lemma OptimizePermutes(route: seq<Node>, fuel: nat)
    ensures var r := OptimizeSpec(route, fuel);
      && (r.Optimized? ==>
        && |r.route| == |route|
        && multiset(r.route) == multiset(route)
        && Scan(r.route, 0, 30) == NoCrossing)
      && (r.Optimized? && Util.Distinct(route) ==>
        && Util.Distinct(r.route)
        && UncrossedFrom(r.route, 0))
      && (Scan(route, 0, 30) == NoCrossing ==> r == Optimized(route))
  {
    RepeatPermutes(route, fuel, FullScan);
    var r := OptimizeSpec(route, fuel);
    if r.Optimized? && Util.Distinct(route) {
      Util.DistinctPermutation(route, r.route);
      FullScanWindow(r.route);
    }
  }

  /** `optimize` built on the guarded pass. */
  function GuardedOptimize(route: seq<Node>, fuel: nat): Optimized
  {
    Repeat(route, fuel, GuardedFullScan)
  }

  /** The guarded optimization never throws; what it returns holds the same cities as the
      input, and a full guarded pass over it finds no crossing. When the input has no
      repeated city, neither has the result, and no tested position of it has a crossing. */
  lemma GuardedOptimizeSound(route: seq<Node>, fuel: nat)
    ensures var r := GuardedOptimize(route, fuel);
      && r != Threw
      && (r.Optimized? ==>
        && |r.route| == |route|
        && multiset(r.route) == multiset(route)
        && GuardedScan(r.route, 0, 30) == NoCrossing)
      && (r.Optimized? && Util.Distinct(route) ==>
        && Util.Distinct(r.route)
        && UncrossedFrom(r.route, 0))
  {
    forall s
      ensures GuardedFullScan(s) != OutOfBounds
    {
      GuardedScanNeverThrows(s, 0, 30);
    }
    RepeatNeverThrows(route, fuel, GuardedFullScan);
    RepeatPermutes(route, fuel, GuardedFullScan);
    var r := GuardedOptimize(route, fuel);
    if r.Optimized? && Util.Distinct(route) {
      Util.DistinctPermutation(route, r.route);
      GuardedFullScanWindow(r.route);
    }
  }

  /** Whenever `optimize` as written does not throw, the guarded one ends the same way. */
  lemma GuardedOptimizeAgrees(route: seq<Node>, fuel: nat)
    requires OptimizeSpec(route, fuel) != Threw
    ensures GuardedOptimize(route, fuel) == OptimizeSpec(route, fuel)
  {
    forall s | FullScan(s) != OutOfBounds
      ensures GuardedFullScan(s) == FullScan(s)
    {
      GuardedScanAgrees(s, 0, 30);
    }
    RepeatAgrees(route, fuel, FullScan, GuardedFullScan);
  }

  /** `optimize` as written, or guarded. */
  function OptimizeOf(guarded: bool, route: seq<Node>, fuel: nat): (r: Optimized)
    ensures guarded ==> r != Threw
    ensures r.Optimized? ==> |r.route| == |route| && multiset(r.route) == multiset(route)
  {
    OptimizePermutes(route, fuel);
    GuardedOptimizeSound(route, fuel);
    if guarded then GuardedOptimize(route, fuel) else OptimizeSpec(route, fuel)
  }

  /** `optimize` with its tail call turned into a loop over passes: as written, or guarded. */
  method Optimize(route: seq<Node>, fuel: nat, guarded: bool) returns (result: Optimized)
    requires |route| < Util.IntLimit
    ensures !guarded ==> result == OptimizeSpec(route, fuel)
    ensures guarded ==> result == GuardedOptimize(route, fuel)
    ensures result == OptimizeOf(guarded, route, fuel)
  {
    ghost var pass := if guarded then GuardedFullScan else FullScan;
    var current := route;
    var budget := fuel;
    while true
      invariant |current| == |route|
      invariant Repeat(current, budget, pass) == Repeat(route, fuel, pass)
      decreases budget
    {
      var found, modifiedList := OptimizePass(current, guarded);
      assert found == pass(current);
      match found {
        case NoCrossing =>
          return Optimized(current);
        case OutOfBounds =>
          return Threw;
        case CrossingAt(_) =>
          if budget == 0 {
            return OutOfFuel;
          }
          current, budget := modifiedList, budget - 1;
      }
    }
  }
}
