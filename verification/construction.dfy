/** The nearest-neighbour construction of `TSP.greedy` (src/de/metal_land/tsp/TSP.java): from
    every city in turn a route is grown by appending the first city of the last city's ranking
    that is not on the route yet, and the shortest route so far is kept. */
module Construction {

  import opened Nodes
  import opened Wrappers
  import Util
  import Routes

  /** The ranking of every city holds exactly the other cities, as `calculateDistances`
      leaves it. */
  ghost predicate RankingsCover(nodes: seq<Node>, distances: map<Node, seq<Node>>)
  {
    forall v :: v in nodes ==> v in distances && (forall u :: u in distances[v] <==> u in nodes && u != v)
  }

  /** The scan over `distanceMap.navigableKeySet()` that breaks at the first city not on the
      route: its position in the ranking, or None when every city is on the route. */
  function FirstUnvisited(ranking: seq<Node>, route: seq<Node>): (k: Option<nat>)
    ensures k.Some? ==> k.value < |ranking| && ranking[k.value] !in route
    ensures k.Some? ==> forall j :: 0 <= j < k.value ==> ranking[j] in route
    ensures k.None? ==> forall j :: 0 <= j < |ranking| ==> ranking[j] in route
    decreases |ranking|
  {
    if ranking == [] then None
    else if ranking[0] !in route then Some(0)
    else match FirstUnvisited(ranking[1..], route)
      case None => None
      case Some(k) => Some(k + 1)
  }

  /** The ranking of v lists cities whose distance from v is computed without overflow, in
      ascending order of that distance. */
  predicate SortedByDistance(v: Node, ranking: seq<Node>)
  {
    && (forall i :: 0 <= i < |ranking| ==> Fits(v, ranking[i]))
    && (forall i, j :: 0 <= i < j < |ranking| ==> DistanceTo(v, ranking[i]) <= DistanceTo(v, ranking[j]))
  }

  /** Over a ranking sorted by distance from v, the first city not on the route is no farther
      from v than any ranked city not on the route. */
  lemma FirstUnvisitedNearest(v: Node, ranking: seq<Node>, route: seq<Node>, u: Node)
    requires SortedByDistance(v, ranking)
    requires u in ranking && u !in route
    ensures FirstUnvisited(ranking, route).Some?
    ensures var next := ranking[FirstUnvisited(ranking, route).value];
      Fits(v, next) && Fits(v, u) && DistanceTo(v, next) <= DistanceTo(v, u)
  {
    var j :| 0 <= j < |ranking| && ranking[j] == u;
    assert FirstUnvisited(ranking, route).value <= j;
  }

  /** The `while (!nodes.isEmpty())` loop of `greedy`, from the route built so far, the cities
      still in the copied list and the city placed last. Where the source would go wrong (no
      ranking for the last city, or a city outside the list), which `RankingsCover` of distinct
      cities rules out, the route built so far is the result. */
  function Construct(route: seq<Node>, remaining: seq<Node>, distances: map<Node, seq<Node>>, last: Node): seq<Node>
    decreases |remaining|
  {
    if remaining == [] || last !in distances then route
    else match FirstUnvisited(distances[last], route)
      case None => route
      case Some(k) =>
        var next := distances[last][k];
        if next !in remaining then route
        else Construct(route + [next], Routes.RemoveFirst(remaining, next), distances, next)
  }

  /** The route `greedy` builds from the city at position i. */
  function GreedyFrom(nodes: seq<Node>, distances: map<Node, seq<Node>>, i: nat): seq<Node>
    requires i < |nodes|
  {
    var start := nodes[i];
    Construct([start], Routes.RemoveFirst(nodes, start), distances, start)
  }

  /** The routes of the outer loop, one per start city, in list order. */
  function Candidates(nodes: seq<Node>, distances: map<Node, seq<Node>>): (c: seq<seq<Node>>)
    ensures |c| == |nodes|
    ensures forall i :: 0 <= i < |nodes| ==> c[i] == GreedyFrom(nodes, distances, i)
  {
    seq(|nodes|, i requires 0 <= i < |nodes| => GreedyFrom(nodes, distances, i))
  }

  /** `if (bestRoute == null || route.compareTo(bestRoute) < 0) setBestRoute(route)` for each
      candidate in order; `length` stands for the order `Route.compareTo` imposes. */
  function KeepBest(best: Option<seq<Node>>, candidates: seq<seq<Node>>, length: seq<Node> -> int): Option<seq<Node>>
    decreases |candidates|
  {
    if candidates == [] then best
    else
      var prev := KeepBest(best, candidates[..|candidates| - 1], length);
      var route := candidates[|candidates| - 1];
      if prev.None? || length(route) < length(prev.value) then Some(route) else prev
  }

  /** One more candidate: it is kept when there is none yet or it is strictly shorter. */
  lemma KeepBestStep(best: Option<seq<Node>>, candidates: seq<seq<Node>>, i: nat, length: seq<Node> -> int)
    requires i < |candidates|
    ensures var prev := KeepBest(best, candidates[..i], length);
      KeepBest(best, candidates[..i + 1], length)
      == if prev.None? || length(candidates[i]) < length(prev.value) then Some(candidates[i]) else prev
  {
    assert candidates[..i + 1][..i] == candidates[..i];
  }

  /** The kept route is no longer than any candidate nor the route kept before; when it is a
      candidate, it is the first of minimal length, and a route kept before is replaced only
      by a strictly shorter one. */
  lemma {:induction false} KeepBestIsFirstMinimum(best: Option<seq<Node>>, candidates: seq<seq<Node>>,
                                                 length: seq<Node> -> int)
    ensures var r := KeepBest(best, candidates, length);
      && (r.None? <==> best.None? && candidates == [])
      && (r.Some? ==> forall j :: 0 <= j < |candidates| ==> length(r.value) <= length(candidates[j]))
      && (best.Some? ==> r.Some? && length(r.value) <= length(best.value))
      && (r == best || exists k :: 0 <= k < |candidates| && r == Some(candidates[k])
                                   && (best.Some? ==> length(candidates[k]) < length(best.value))
                                   && forall j :: 0 <= j < k ==> length(candidates[j]) > length(candidates[k]))
    decreases |candidates|
  {
    if candidates != [] {
      var n := |candidates|;
      var init := candidates[..n - 1];
      KeepBestIsFirstMinimum(best, init, length);
      var prev := KeepBest(best, init, length);
      var r := KeepBest(best, candidates, length);
      assert forall j :: 0 <= j < n - 1 ==> candidates[j] == init[j];
      if r != prev {
        assert r == Some(candidates[n - 1]);
        if prev != best {
          var k :| 0 <= k < |init| && prev == Some(init[k])
                   && (best.Some? ==> length(init[k]) < length(best.value))
                   && forall j :: 0 <= j < k ==> length(init[j]) > length(init[k]);
          assert length(candidates[n - 1]) < length(candidates[k]);
        }
      } else if prev != best {
        var k :| 0 <= k < |init| && prev == Some(init[k])
                 && (best.Some? ==> length(init[k]) < length(best.value))
                 && forall j :: 0 <= j < k ==> length(init[j]) > length(init[k]);
        assert r == Some(candidates[k]);
      }
    }
  }

  /** Invariant of the construction loop: the route is not empty, ends with the city placed
      last, has no repeated city, and with the cities still in the list makes up all cities. */
  predicate Building(nodes: seq<Node>, route: seq<Node>, remaining: seq<Node>, last: Node)
  {
    && route != []
    && last == route[|route| - 1]
    && Util.Distinct(route)
    && multiset(route) + multiset(remaining) == multiset(nodes)
  }

  /** One iteration of the construction loop: the last city has a ranking, the scan finds a
      city, that city is still in the list, and the invariant holds again. */
  lemma ConstructStep(nodes: seq<Node>, distances: map<Node, seq<Node>>, route: seq<Node>,
                      remaining: seq<Node>, last: Node)
    requires Util.Distinct(nodes) && RankingsCover(nodes, distances)
    requires Building(nodes, route, remaining, last) && remaining != []
    ensures last in distances && FirstUnvisited(distances[last], route).Some?
    ensures var next := distances[last][FirstUnvisited(distances[last], route).value];
      && next in remaining
      && Building(nodes, route + [next], Routes.RemoveFirst(remaining, next), next)
  {
    assert last in multiset(route);
    assert last in nodes by {
      assert last in multiset(nodes);
    }
    var u := remaining[0];
    UnvisitedIsRanked(nodes, distances, route, remaining, last, u);
    var ranking := distances[last];
    var j :| 0 <= j < |ranking| && ranking[j] == u;
    var k := FirstUnvisited(ranking, route);
    assert k.Some?;
    var next := ranking[k.value];
    assert next in ranking;
    BuildingMoves(nodes, route, remaining, next);
  }

  /** A city still in the list is not on the route, and is in the ranking of the last city. */
  lemma UnvisitedIsRanked(nodes: seq<Node>, distances: map<Node, seq<Node>>, route: seq<Node>,
                          remaining: seq<Node>, last: Node, u: Node)
    requires Util.Distinct(nodes) && RankingsCover(nodes, distances)
    requires Building(nodes, route, remaining, last) && last in nodes && u in remaining
    ensures u !in route && last in distances && u in distances[last]
  {
    assert u in multiset(remaining);
    assert u in nodes by {
      assert u in multiset(nodes);
    }
    Util.DistinctCount(nodes, u);
    assert u !in route;
  }

  /** Moving from the list to the route a city of the list that is not on the route keeps
      the invariant. */
  lemma BuildingMoves(nodes: seq<Node>, route: seq<Node>, remaining: seq<Node>, next: Node)
    requires route != [] && Building(nodes, route, remaining, route[|route| - 1])
    requires next in nodes && next !in route
    ensures next in remaining
    ensures Building(nodes, route + [next], Routes.RemoveFirst(remaining, next), next)
  {
    assert multiset(route)[next] == 0;
    assert multiset(nodes)[next] >= 1;
    assert next in multiset(remaining);
    var route', remaining' := route + [next], Routes.RemoveFirst(remaining, next);
    assert multiset(route') + multiset(remaining') == multiset(nodes);
    assert Util.Distinct(route') by {
      forall a, b | 0 <= a < b < |route'|
        ensures route'[a] != route'[b]
      {
        if b == |route| {
          assert route'[a] in route;
        }
      }
    }
  }

  /** The city after position k is the first city of the ranking of the city at k that is not
      on the route up to k. */
  predicate RankedStep(distances: map<Node, seq<Node>>, r: seq<Node>, k: nat)
    requires k + 1 < |r|
  {
    && r[k] in distances
    && FirstUnvisited(distances[r[k]], r[..k + 1]).Some?
    && distances[r[k]][FirstUnvisited(distances[r[k]], r[..k + 1]).value] == r[k + 1]
  }

  /** Each chosen city from position `from` on is the first city of the previous city's ranking
      not yet on the route. */
  predicate RankedSteps(distances: map<Node, seq<Node>>, r: seq<Node>, from: nat)
  {
    forall k: nat :: from <= k < |r| - 1 ==> RankedStep(distances, r, k)
  }

  /** From a state satisfying the invariant, the construction completes: the route extends the
      one built so far to a permutation of all cities, and every step past it goes to the first
      unvisited city of the previous city's ranking. */
  lemma {:induction false} ConstructCompletes(nodes: seq<Node>, distances: map<Node, seq<Node>>,
                                              route: seq<Node>, remaining: seq<Node>, last: Node)
    requires Util.Distinct(nodes) && RankingsCover(nodes, distances)
    requires Building(nodes, route, remaining, last)
    ensures var r := Construct(route, remaining, distances, last);
      && |route| <= |r| && r[..|route|] == route
      && multiset(r) == multiset(nodes)
      && Util.Distinct(r)
      && RankedSteps(distances, r, |route| - 1)
    decreases |remaining|
  {
    if remaining == [] {
      assert multiset(route) == multiset(nodes);
    } else {
      ConstructStep(nodes, distances, route, remaining, last);
      var k := FirstUnvisited(distances[last], route).value;
      var next := distances[last][k];
      var remaining' := Routes.RemoveFirst(remaining, next);
      ConstructCompletes(nodes, distances, route + [next], remaining', next);
      var r := Construct(route + [next], remaining', distances, next);
      assert Construct(route, remaining, distances, last) == r;
      FirstStep(distances, r, route, next, k);
    }
  }

  /** The step from the last city of the route to the next one, added in front of the steps
      that follow. */
  lemma FirstStep(distances: map<Node, seq<Node>>, r: seq<Node>, route: seq<Node>, next: Node, k: nat)
    requires route != [] && route[|route| - 1] in distances
    requires FirstUnvisited(distances[route[|route| - 1]], route) == Some(k)
    requires distances[route[|route| - 1]][k] == next
    requires |route| + 1 <= |r| && r[..|route| + 1] == route + [next]
    requires RankedSteps(distances, r, |route|)
    ensures r[..|route|] == route
    ensures RankedSteps(distances, r, |route| - 1)
  {
    assert r[..|route|] == (route + [next])[..|route|];
    var i := |route| - 1;
    assert r[i] == route[i] && r[i + 1] == next;
    assert r[..i + 1] == route;
    assert RankedStep(distances, r, i);
  }

  /** The route `greedy` builds from position i starts there, visits every city exactly once,
      and always moves on to the first city of the previous city's ranking not yet visited;
      over rankings sorted by distance that is a nearest such city (`FirstUnvisitedNearest`). */
  lemma GreedyFromTour(nodes: seq<Node>, distances: map<Node, seq<Node>>, i: nat)
    requires i < |nodes|
    requires Util.Distinct(nodes) && RankingsCover(nodes, distances)
    ensures var r := GreedyFrom(nodes, distances, i);
      && |r| == |nodes| && r[0] == nodes[i]
      && multiset(r) == multiset(nodes)
      && Util.Distinct(r)
      && RankedSteps(distances, r, 0)
  {
    var start := nodes[i];
    assert start in nodes;
    var rest := Routes.RemoveFirst(nodes, start);
    assert multiset([start]) + multiset(rest) == multiset(nodes);
    ConstructCompletes(nodes, distances, [start], rest, start);
    var r := GreedyFrom(nodes, distances, i);
    assert |r| == |multiset(r)| == |multiset(nodes)| == |nodes|;
    assert r[0] == r[..1][0];
  }
}
