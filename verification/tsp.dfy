/** The solver object `TSP` (src/de/metal_land/tsp/TSP.java): it reads a TSPLIB file into its
    city list, ranks for every city the other cities by distance, builds a first route with a
    multi-start nearest-neighbour construction and improves it by a tabu search whose steps
    are cleaned of crossings by `optimize`. */
module Tsp {

  import opened Nodes
  import opened Wrappers
  import Util
  import TspReader
  import Ranking
  import Construction
  import Routes
  import Crossing

  /** The smallest tabu list size `setTabuListMaxSize` accepts. */
  const MinTabuListSize: int := 20

  /** `(size > 20) ? size : 20`: the size itself when above 20, else 20. */
  function ClampTabuSize(size: int): (r: int)
    ensures r >= MinTabuListSize && r >= size
    ensures r == size || r == MinTabuListSize
  {
    if size > MinTabuListSize then size else MinTabuListSize
  }

  /** Clamping is idempotent, and leaves sizes of at least 20 alone. */
  lemma ClampTabuSizeStable(size: int)
    ensures ClampTabuSize(ClampTabuSize(size)) == ClampTabuSize(size)
    ensures size >= MinTabuListSize ==> ClampTabuSize(size) == size
  {
  }

  /** Every distance between two cities of the list is computed without int overflow. */
  predicate AllFit(nodes: seq<Node>)
  {
    forall i, j :: 0 <= i < |nodes| && 0 <= j < |nodes| ==> Fits(nodes[i], nodes[j])
  }

  lemma AllFitFrom(nodes: seq<Node>, v: Node)
    requires AllFit(nodes) && v in nodes
    ensures Ranking.FitsFrom(v, nodes)
  {
    var k :| 0 <= k < |nodes| && nodes[k] == v;
  }

  /** The ranking `calculateDistances` puts for a city whose distances to the list are all
      computed without overflow (the empty ranking stands for the other cities, for which
      nothing is claimed). */
  function RankingIn(nodes: seq<Node>, v: Node): seq<Node>
  {
    if Ranking.FitsFrom(v, nodes) then Ranking.Ranking(nodes, v) else []
  }

  /** The map that puts, for each of the first i keys in order, the value f gives it. */
  ghost function PutAll(keys: seq<Node>, i: nat, f: Node -> seq<Node>): map<Node, seq<Node>>
    requires i <= |keys|
  {
    if i == 0 then map[] else PutAll(keys, i - 1, f)[keys[i - 1] := f(keys[i - 1])]
  }

  /** Each of the first i keys is in the map, with the value f gives it. */
  lemma {:induction false} PutAllHolds(keys: seq<Node>, i: nat, f: Node -> seq<Node>)
    requires i <= |keys|
    ensures forall k :: 0 <= k < i ==> keys[k] in PutAll(keys, i, f) && PutAll(keys, i, f)[keys[k]] == f(keys[k])
  {
    if i > 0 {
      PutAllHolds(keys, i - 1, f);
      var w := keys[i - 1];
      var prev, next := PutAll(keys, i - 1, f), PutAll(keys, i, f);
      forall k | 0 <= k < i
        ensures keys[k] in next && next[keys[k]] == f(keys[k])
      {
        if keys[k] != w {
          assert next[keys[k]] == prev[keys[k]];
        }
      }
    }
  }

  /** One more put, on top of a map that was there before. */
  lemma PutAllStep(base: map<Node, seq<Node>>, keys: seq<Node>, i: nat, f: Node -> seq<Node>)
    requires i < |keys|
    ensures (base + PutAll(keys, i, f))[keys[i] := f(keys[i])] == base + PutAll(keys, i + 1, f)
  {
    MapUnionUpdate(base, PutAll(keys, i, f), keys[i], f(keys[i]));
  }

  /** Updating a union updates its right-hand side. */
  lemma MapUnionUpdate<K, V>(a: map<K, V>, b: map<K, V>, k: K, x: V)
    ensures (a + b)[k := x] == a + b[k := x]
  {
  }

  /** The rankings `calculateDistances` has put after its first i rounds, one per city. */
  ghost function RankingsUpTo(nodes: seq<Node>, i: nat): map<Node, seq<Node>>
    requires i <= |nodes|
  {
    PutAll(nodes, i, v => RankingIn(nodes, v))
  }

  /** The rankings `calculateDistances` puts for the cities of the list. */
  ghost function RankingsOf(nodes: seq<Node>): map<Node, seq<Node>>
  {
    RankingsUpTo(nodes, |nodes|)
  }

  /** One more round of the outer loop of `calculateDistances`. */
  lemma RankingsUpToStep(base: map<Node, seq<Node>>, nodes: seq<Node>, i: nat)
    requires i < |nodes|
    ensures (base + RankingsUpTo(nodes, i))[nodes[i] := RankingIn(nodes, nodes[i])] == base + RankingsUpTo(nodes, i + 1)
  {
    PutAllStep(base, nodes, i, v => RankingIn(nodes, v));
  }

  /** After `calculateDistances`, every city of the list is ranked, with its ranking by
      distance. */
  lemma RankingsOfLookup(nodes: seq<Node>, distances: map<Node, seq<Node>>, v: Node)
    requires AllFit(nodes) && v in nodes
    ensures Ranking.FitsFrom(v, nodes)
    ensures v in distances + RankingsOf(nodes)
    ensures (distances + RankingsOf(nodes))[v] == Ranking.Ranking(nodes, v)
  {
    PutAllHolds(nodes, |nodes|, w => RankingIn(nodes, w));
    AllFitFrom(nodes, v);
  }

  /** After `calculateDistances` on cities with unique names, every city is ranked and its
      ranking holds exactly the other cities: the state `greedy` needs. */
  lemma RankingsOfCover(nodes: seq<Node>, distances: map<Node, seq<Node>>)
    requires Ranking.UniqueNames(nodes) && AllFit(nodes)
    ensures Util.Distinct(nodes)
    ensures Construction.RankingsCover(nodes, distances + RankingsOf(nodes))
  {
    forall v | v in nodes
      ensures v in distances + RankingsOf(nodes)
      ensures forall u :: u in (distances + RankingsOf(nodes))[v] <==> u in nodes && u != v
    {
      RankingsOfLookup(nodes, distances, v);
      Ranking.RankingOrder(nodes, v);
    }
  }

  /** After `calculateDistances` on cities with unique names, the ranking of a city lists
      the other cities in ascending order of distance. */
  lemma RankingsOfSorted(nodes: seq<Node>, distances: map<Node, seq<Node>>, v: Node)
    requires Ranking.UniqueNames(nodes) && AllFit(nodes) && v in nodes
    ensures v in distances + RankingsOf(nodes)
    ensures var ranking := (distances + RankingsOf(nodes))[v];
      && (forall u :: u in ranking <==> u in nodes && u != v)
      && Construction.SortedByDistance(v, ranking)
  {
    RankingsOfLookup(nodes, distances, v);
    Ranking.RankingOrder(nodes, v);
  }

  /** The route `greedy` builds from position i, after `calculateDistances` on cities with
      unique names, visits every city once and always moves on to a nearest city not yet
      visited: no city off the route so far is closer than the one chosen. */
  lemma GreedyNearest(nodes: seq<Node>, distances: map<Node, seq<Node>>, i: nat)
    requires i < |nodes|
    requires Ranking.UniqueNames(nodes) && AllFit(nodes)
    ensures var r := Construction.GreedyFrom(nodes, distances + RankingsOf(nodes), i);
      && multiset(r) == multiset(nodes) && Util.Distinct(r)
      && forall k, u :: 0 <= k < |r| - 1 && u in nodes && u !in r[..k + 1] ==>
           Fits(r[k], r[k + 1]) && Fits(r[k], u) && DistanceTo(r[k], r[k + 1]) <= DistanceTo(r[k], u)
  {
    var d := distances + RankingsOf(nodes);
    RankingsOfCover(nodes, distances);
    Construction.GreedyFromTour(nodes, d, i);
    var r := Construction.GreedyFrom(nodes, d, i);
    forall k, u | 0 <= k < |r| - 1 && u in nodes && u !in r[..k + 1]
      ensures Fits(r[k], r[k + 1]) && Fits(r[k], u) && DistanceTo(r[k], r[k + 1]) <= DistanceTo(r[k], u)
    {
      assert r[k] in multiset(nodes) && r[k] == r[..k + 1][k];
      assert Construction.RankedStep(d, r, k);
      RankingsOfSorted(nodes, distances, r[k]);
      Construction.FirstUnvisitedNearest(r[k], d[r[k]], r[..k + 1], u);
    }
  }

  /** One step of the neighbourhood search as `Route.getBestNeighbor(tabuList)` delivers it:
      the neighbour route and the entry it pushes onto the front of the tabu list. */
  datatype Move = Move(neighbor: seq<Node>, entry: seq<Node>)

  /** How `tabuSearch` ends: the count of routes without improvement reached its limit; a
      NullPointerException for a search without any route; an exception or the pass budget of
      `optimize`; or, in this model, the supplied moves ran out. */
  datatype SearchEnd = Converged | NoRoute | OptimizeThrew | OptimizeOutOfFuel | MovesExhausted

  /** The fields `tabuSearch` works on. */
  datatype SearchState = SearchState(current: seq<Node>, best: seq<Node>, badRoutes: int, tabuList: seq<seq<Node>>)

  datatype SearchRun = SearchRun(state: SearchState, end: SearchEnd)

  /** One round of `tabuSearch` with a route in hand: the move's tabu entry goes in front of
      the tabu list and the neighbour is optimized; on success it becomes current, the tabu
      list drops its last entry when too long, and the best route and the count of rounds
      without improvement are updated. The second component is how the search ends in this
      round, if it does. */
  function Advance(st: SearchState, move: Move, maxSize: int, maxBad: int, guarded: bool, fuel: nat,
                   length: seq<Node> -> int): (r: (SearchState, Option<SearchEnd>))
    ensures r.0.best == st.best || length(r.0.best) < length(st.best)
    ensures length(st.best) <= length(st.current) ==> length(r.0.best) <= length(r.0.current)
    ensures |st.tabuList| <= maxSize ==>
      |r.0.tabuList| <= maxSize + (if r.1 in {Some(OptimizeThrew), Some(OptimizeOutOfFuel)} then 1 else 0)
    ensures 0 <= st.badRoutes < maxBad ==>
      && (r.1 == Some(Converged) ==> r.0.badRoutes == maxBad)
      && (r.1 != Some(Converged) ==> 0 <= r.0.badRoutes < maxBad)
    ensures r.0.current == st.current || multiset(r.0.current) == multiset(move.neighbor)
    ensures guarded ==> r.1 != Some(OptimizeThrew)
    ensures r.1 in {Some(OptimizeThrew), Some(OptimizeOutOfFuel)} ==>
      r.0 == st.(tabuList := [move.entry] + st.tabuList)
    ensures r.1 !in {Some(OptimizeThrew), Some(OptimizeOutOfFuel)} ==>
      var pushed := [move.entry] + st.tabuList;
      var improved := length(r.0.current) < length(st.best);
      && r.0.badRoutes == (if improved then 0 else st.badRoutes + 1)
      && r.0.best == (if improved then r.0.current else st.best)
      && r.0.tabuList == (if |pushed| > maxSize then pushed[..|pushed| - 1] else pushed)
      && (r.1 == Some(Converged) <==> r.0.badRoutes >= maxBad)
  {
    var tabu := [move.entry] + st.tabuList;
    match Crossing.OptimizeOf(guarded, move.neighbor, fuel)
    case Threw => (st.(tabuList := tabu), Some(OptimizeThrew))
    case OutOfFuel => (st.(tabuList := tabu), Some(OptimizeOutOfFuel))
    case Optimized(current) =>
      var trimmed := if |tabu| > maxSize then tabu[..|tabu| - 1] else tabu;
      var improved := length(st.best) > length(current);
      var next := SearchState(current, if improved then current else st.best,
                              if improved then 0 else st.badRoutes + 1, trimmed);
      (next, if next.badRoutes < maxBad then None else Some(Converged))
  }

  /** `tabuSearch` after its null check, with its tail call unrolled over the moves. Each
      neighbour is cleaned by `optimize` as written, or by the guarded one, which agrees with
      it wherever it does not throw (`Crossing.GuardedOptimizeAgrees`). */
  function TabuRun(st: SearchState, moves: seq<Move>, maxSize: int, maxBad: int, guarded: bool,
                   fuel: nat, length: seq<Node> -> int): SearchRun
    decreases |moves|
  {
    if moves == [] then SearchRun(st, MovesExhausted)
    else
      var step := Advance(st, moves[0], maxSize, maxBad, guarded, fuel, length);
      if step.1.Some? then SearchRun(step.0, step.1.value)
      else TabuRun(step.0, moves[1..], maxSize, maxBad, guarded, fuel, length)
  }

  /** The run over the moves from position i is the round of move i followed by the run over
      the moves after it, unless that round ends the search. */
  lemma TabuRunStep(st: SearchState, moves: seq<Move>, i: nat, maxSize: int, maxBad: int, guarded: bool,
                    fuel: nat, length: seq<Node> -> int)
    requires i < |moves|
    ensures var step := Advance(st, moves[i], maxSize, maxBad, guarded, fuel, length);
      TabuRun(st, moves[i..], maxSize, maxBad, guarded, fuel, length)
      == if step.1.Some? then SearchRun(step.0, step.1.value)
         else TabuRun(step.0, moves[i + 1..], maxSize, maxBad, guarded, fuel, length)
  {
    assert moves[i..][0] == moves[i] && moves[i..][1..] == moves[i + 1..];
  }

  /** The best route never gets longer, and it is replaced only by a strictly shorter one. */
  lemma {:induction false} TabuBestNeverWorse(st: SearchState, moves: seq<Move>, maxSize: int, maxBad: int,
                                              guarded: bool, fuel: nat, length: seq<Node> -> int)
    ensures var best := TabuRun(st, moves, maxSize, maxBad, guarded, fuel, length).state.best;
      best == st.best || length(best) < length(st.best)
    decreases |moves|
  {
    if moves != [] {
      var step := Advance(st, moves[0], maxSize, maxBad, guarded, fuel, length);
      if step.1.None? {
        TabuBestNeverWorse(step.0, moves[1..], maxSize, maxBad, guarded, fuel, length);
      }
    }
  }

  /** The best route is never longer than the current one, once that holds. */
  lemma {:induction false} TabuBestAtMostCurrent(st: SearchState, moves: seq<Move>, maxSize: int, maxBad: int,
                                                 guarded: bool, fuel: nat, length: seq<Node> -> int)
    requires length(st.best) <= length(st.current)
    ensures var s := TabuRun(st, moves, maxSize, maxBad, guarded, fuel, length).state;
      length(s.best) <= length(s.current)
    decreases |moves|
  {
    if moves != [] {
      var step := Advance(st, moves[0], maxSize, maxBad, guarded, fuel, length);
      if step.1.None? {
        TabuBestAtMostCurrent(step.0, moves[1..], maxSize, maxBad, guarded, fuel, length);
      }
    }
  }

  /** The tabu list stays within its maximum size, except for the one entry pushed by a step
      whose `optimize` fails. */
  lemma {:induction false} TabuListBounded(st: SearchState, moves: seq<Move>, maxSize: int, maxBad: int,
                                           guarded: bool, fuel: nat, length: seq<Node> -> int)
    requires |st.tabuList| <= maxSize
    ensures var run := TabuRun(st, moves, maxSize, maxBad, guarded, fuel, length);
      |run.state.tabuList| <= maxSize + (if run.end in {OptimizeThrew, OptimizeOutOfFuel} then 1 else 0)
    decreases |moves|
  {
    if moves != [] {
      var step := Advance(st, moves[0], maxSize, maxBad, guarded, fuel, length);
      if step.1.None? {
        TabuListBounded(step.0, moves[1..], maxSize, maxBad, guarded, fuel, length);
      }
    }
  }

  /** The search stops by itself exactly when the count of consecutive steps without
      improvement reaches `maxBadRoutes`; every other ending leaves it below. */
  lemma {:induction false} TabuStopsAtMaxBadRoutes(st: SearchState, moves: seq<Move>, maxSize: int, maxBad: int,
                                                   guarded: bool, fuel: nat, length: seq<Node> -> int)
    requires 0 <= st.badRoutes < maxBad
    ensures var run := TabuRun(st, moves, maxSize, maxBad, guarded, fuel, length);
      && (run.end == Converged ==> run.state.badRoutes == maxBad)
      && (run.end != Converged ==> 0 <= run.state.badRoutes < maxBad)
    decreases |moves|
  {
    if moves != [] {
      var step := Advance(st, moves[0], maxSize, maxBad, guarded, fuel, length);
      if step.1.None? {
        TabuStopsAtMaxBadRoutes(step.0, moves[1..], maxSize, maxBad, guarded, fuel, length);
      }
    }
  }

  /** Every route the search makes current holds the cities of its neighbour: `optimize` only
      reorders. */
  lemma {:induction false} TabuCurrentFromNeighbor(st: SearchState, moves: seq<Move>, maxSize: int, maxBad: int,
                                                   guarded: bool, fuel: nat, length: seq<Node> -> int)
    ensures var s := TabuRun(st, moves, maxSize, maxBad, guarded, fuel, length).state;
      s.current == st.current || exists k :: 0 <= k < |moves| && multiset(s.current) == multiset(moves[k].neighbor)
    decreases |moves|
  {
    if moves != [] {
      var step := Advance(st, moves[0], maxSize, maxBad, guarded, fuel, length);
      var s := TabuRun(st, moves, maxSize, maxBad, guarded, fuel, length).state;
      if step.1.None? {
        TabuCurrentFromNeighbor(step.0, moves[1..], maxSize, maxBad, guarded, fuel, length);
        if s.current != step.0.current {
          var k :| 0 <= k < |moves[1..]| && multiset(s.current) == multiset(moves[1..][k].neighbor);
          assert moves[1..][k] == moves[k + 1];
        }
      }
      if s.current == step.0.current && s.current != st.current {
        assert multiset(s.current) == multiset(moves[0].neighbor);
      }
    }
  }

  /** With the guarded `optimize` the search never ends in an exception of `optimize`. */
  lemma {:induction false} TabuNeverThrows(st: SearchState, moves: seq<Move>, maxSize: int, maxBad: int,
                                           guarded: bool, fuel: nat, length: seq<Node> -> int)
    requires guarded
    ensures TabuRun(st, moves, maxSize, maxBad, guarded, fuel, length).end != OptimizeThrew
    decreases |moves|
  {
    if moves != [] {
      var step := Advance(st, moves[0], maxSize, maxBad, guarded, fuel, length);
      if step.1.None? {
        TabuNeverThrows(step.0, moves[1..], maxSize, maxBad, guarded, fuel, length);
      }
    }
  }

  class Tsp {
    var nodes: seq<Node>
    var distances: map<Node, seq<Node>>
    var name: string
    var bestRoute: Option<seq<Node>>
    var tabuListMaxSize: int
    var maxBadRoutes: int
    var badRoutes: int
    var currentRoute: Option<seq<Node>>
    var tabuList: seq<seq<Node>>

    /** The field initialisers. */
    constructor ()
      ensures nodes == [] && distances == map[] && name == ""
      ensures bestRoute == None && currentRoute == None && tabuList == []
      ensures tabuListMaxSize == 100 && maxBadRoutes == 2000 && badRoutes == 0
    {
      nodes := [];
      distances := map[];
      name := "";
      bestRoute := None;
      tabuListMaxSize := 100;
      maxBadRoutes := 2000;
      badRoutes := 0;
      currentRoute := None;
      tabuList := [];
    }

    method SetTabuListMaxSize(size: int)
      modifies this`tabuListMaxSize
      ensures tabuListMaxSize == ClampTabuSize(size)
    {
      tabuListMaxSize := if size > 20 then size else 20;
    }

    /** `readFromFile` over the lines the Scanner yields. The cities are appended to the list
        already held; after the last line read the tabu list size becomes 15 % of the list
        size, clamped. An exception leaves the fields as far as reading got. */
    method ReadFromFile(lines: seq<string>) returns (error: Option<TspReader.ReadError>)
      modifies this`name, this`nodes, this`tabuListMaxSize
      ensures var r := TspReader.ReadLines(lines, false, old(name), old(nodes));
        name == r.name && nodes == r.nodes && error == r.error
      ensures error.None? ==> tabuListMaxSize == ClampTabuSize(|nodes| * 15 / 100)
      ensures error.Some? ==> tabuListMaxSize == old(tabuListMaxSize)
    {
      var readCoordinates := false;
      var i := 0;
      while i < |lines|
        invariant 0 <= i <= |lines|
        invariant tabuListMaxSize == old(tabuListMaxSize)
        invariant TspReader.ReadLines(lines[i..], readCoordinates, name, nodes)
                  == TspReader.ReadLines(lines, false, old(name), old(nodes))
      {
        var line := lines[i];
        assert lines[i..][0] == line && lines[i..][1..] == lines[i + 1..];
        if line == TspReader.CoordSection {
          readCoordinates := true;
          i := i + 1;
          continue;
        } else if line == TspReader.EndOfFile {
          break;
        }
        if !readCoordinates {
          var splitted := TspReader.Split(line, TspReader.KeySeparator);
          if splitted == [] {
            return Some(TspReader.MissingField);
          }
          if splitted[0] == "NAME" {
            if |splitted| < 2 {
              return Some(TspReader.MissingField);
            }
            name := splitted[1];
          }
        } else {
          match TspReader.ParseCoordLine(line) {
            case Failed(e) =>
              return Some(e);
            case Parsed(node) =>
              nodes := nodes + [node];
          }
        }
        i := i + 1;
      }
      SetTabuListMaxSize(|nodes| * 15 / 100);
      return None;
    }

    /** `calculateDistances`: the ranking of every city of the list replaces its entry in
        `distances`; entries of other cities stay. */
    method CalculateDistances()
      requires AllFit(nodes)
      modifies this`distances
      ensures distances == old(distances) + RankingsOf(nodes)
    {
      var i := 0;
      while i < |nodes|
        invariant 0 <= i <= |nodes|
        invariant distances == old(distances) + RankingsUpTo(nodes, i)
      {
        var node := nodes[i];
        AllFitFrom(nodes, node);
        var ranking := RankCity(node);
        distances := distances[node := ranking];
        RankingsUpToStep(old(distances), nodes, i);
        i := i + 1;
      }

    }

    /** One round of `calculateDistances`: the distances from one city, ordered by value. */
    method RankCity(node: Node) returns (ranking: seq<Node>)
      requires Ranking.FitsFrom(node, nodes)
      ensures ranking == RankingIn(nodes, node)
    {
      var nodeXDistance := CityDistances(node);
      var sortedNodeXDistance := SortByDistance(nodeXDistance);
      ranking := Ranking.Keys(sortedNodeXDistance);
    }

    /** The inner loop of `calculateDistances`: every other city, with its distance, put into
        the name-ordered map. */
    method CityDistances(node: Node) returns (nodeXDistance: seq<Routes.Entry>)
      requires Ranking.FitsFrom(node, nodes)
      ensures Ranking.FitsFrom(node, Ranking.Others(nodes, node))
      ensures nodeXDistance == Ranking.ByName(node, Ranking.Others(nodes, node))
    {
      nodeXDistance := [];
      var j := 0;
      while j < |nodes|
        invariant 0 <= j <= |nodes|
        invariant Ranking.FitsFrom(node, Ranking.Others(nodes[..j], node))
        invariant nodeXDistance == Ranking.ByName(node, Ranking.Others(nodes[..j], node))
      {
        var toNode := nodes[j];
        Ranking.ByNameStep(node, nodes, j);
        if toNode != node {
          nodeXDistance := Ranking.InsertByName(nodeXDistance, Routes.Entry(toNode, DistanceTo(node, toNode)));
        }
        j := j + 1;
      }
      assert nodes[..j] == nodes;
    }

    /** `sortedNodeXDistance.putAll(nodeXDistance)`. */
    method SortByDistance(nodeXDistance: seq<Routes.Entry>) returns (sorted: seq<Routes.Entry>)
      ensures sorted == Ranking.ByValue(nodeXDistance)
    {
      sorted := [];
      var k := 0;
      while k < |nodeXDistance|
        invariant 0 <= k <= |nodeXDistance|
        invariant sorted == Ranking.ByValue(nodeXDistance[..k])
      {
        assert nodeXDistance[..k + 1][..k] == nodeXDistance[..k];
        sorted := Ranking.InsertByValue(sorted, nodeXDistance[k]);
        k := k + 1;
      }
      assert nodeXDistance[..k] == nodeXDistance;
    }

    /** `greedy`: a route from every start city, keeping the first shortest one (`length`
        stands for the order of `Route.compareTo`). */
    method Greedy(length: seq<Node> -> int)
      requires Util.Distinct(nodes) && Construction.RankingsCover(nodes, distances)
      modifies this`bestRoute
      ensures bestRoute == Construction.KeepBest(old(bestRoute), Construction.Candidates(nodes, distances), length)
    {
      ghost var candidates := Construction.Candidates(nodes, distances);
      var i := 0;
      while i < |nodes|
        invariant 0 <= i <= |nodes|
        invariant bestRoute == Construction.KeepBest(old(bestRoute), candidates[..i], length)
      {
        var routeList := GreedyRouteFrom(i);
        Construction.KeepBestStep(old(bestRoute), candidates, i, length);
        if bestRoute.None? || length(routeList) < length(bestRoute.value) {
          bestRoute := Some(routeList);
        }
        i := i + 1;
      }
      assert candidates[..i] == candidates;
    }

    /** One start of `greedy`: copy the list, move the start city to the route, and append
        cities until the copy is empty. */
    method GreedyRouteFrom(i: nat) returns (routeList: seq<Node>)
      requires i < |nodes|
      requires Util.Distinct(nodes) && Construction.RankingsCover(nodes, distances)
      ensures routeList == Construction.GreedyFrom(nodes, distances, i)
    {
      var copy := nodes;
      var startNode := copy[i];
      routeList := [startNode];
      copy := Routes.RemoveFirst(copy, startNode);
      var lastNode := routeList[0];
      while copy != []
        invariant Construction.Building(nodes, routeList, copy, lastNode)
        invariant Construction.Construct(routeList, copy, distances, lastNode) == Construction.GreedyFrom(nodes, distances, i)
        decreases |copy|
      {
        Construction.ConstructStep(nodes, distances, routeList, copy, lastNode);
        var distanceMap := distances[lastNode];
        var shortestNode := NextCity(distanceMap, routeList);
        copy := Routes.RemoveFirst(copy, shortestNode.value);
        routeList := routeList + [shortestNode.value];
        lastNode := shortestNode.value;
      }
    }

    /** The scan over the ranking of the city placed last that breaks at the first city not
        on the route. */
    static method NextCity(distanceMap: seq<Node>, routeList: seq<Node>) returns (shortestNode: Option<Node>)
      ensures match Construction.FirstUnvisited(distanceMap, routeList)
        case None => shortestNode == None
        case Some(k) => shortestNode == Some(distanceMap[k])
    {
      shortestNode := None;
      var k := 0;
      while k < |distanceMap|
        invariant 0 <= k <= |distanceMap|
        invariant forall j :: 0 <= j < k ==> distanceMap[j] in routeList
      {
        if distanceMap[k] !in routeList {
          shortestNode := Some(distanceMap[k]);
          return;
        }
        k := k + 1;
      }
    }

    /** The fields of the search, once both routes are set. */
    function Search(): SearchState
      reads this
      requires currentRoute.Some? && bestRoute.Some?
    {
      SearchState(currentRoute.value, bestRoute.value, badRoutes, tabuList)
    }

    /** One round of `tabuSearch` on the i-th move: push its tabu entry, clean the neighbour of
        crossings, trim the tabu list, keep the better route and count a round without
        improvement; the search ends when `optimize` fails or the count reaches its bound. */
    method SearchStep(move: Move, guarded: bool, fuel: nat, length: seq<Node> -> int)
      returns (stop: Option<SearchEnd>)
      requires currentRoute.Some? && bestRoute.Some?
      requires |move.neighbor| < Util.IntLimit
      modifies this`currentRoute, this`bestRoute, this`badRoutes, this`tabuList
      ensures currentRoute.Some? && bestRoute.Some?
      ensures (Search(), stop) == Advance(old(Search()), move, tabuListMaxSize, maxBadRoutes, guarded, fuel, length)
    {
      ghost var st := Search();
      tabuList := [move.entry] + tabuList;
      var optimized := Crossing.Optimize(move.neighbor, fuel, guarded);
      assert optimized == Crossing.OptimizeOf(guarded, move.neighbor, fuel);
      match optimized {
        case Threw =>
          return Some(OptimizeThrew);
        case OutOfFuel =>
          return Some(OptimizeOutOfFuel);
        case Optimized(route) =>
          currentRoute := Some(route);
      }
      if |tabuList| > tabuListMaxSize {
        tabuList := tabuList[..|tabuList| - 1];
      }
      if length(bestRoute.value) > length(currentRoute.value) {
        bestRoute := currentRoute;
        badRoutes := 0;
      } else {
        badRoutes := badRoutes + 1;
      }
      if !(badRoutes < maxBadRoutes) {
        return Some(Converged);
      }
      return None;
    }

    /** `tabuSearch`, its tail call turned into a loop over the moves `getBestNeighbor`
        delivers. A current route is set only by an earlier search, which needed a best route. */
    method TabuSearch(moves: seq<Move>, guarded: bool, fuel: nat, length: seq<Node> -> int) returns (end: SearchEnd)
      requires currentRoute.Some? ==> bestRoute.Some?
      requires forall k :: 0 <= k < |moves| ==> |moves[k].neighbor| < Util.IntLimit
      modifies this`currentRoute, this`bestRoute, this`badRoutes, this`tabuList
      ensures old(currentRoute).None? && old(bestRoute).None? ==>
        end == NoRoute && currentRoute == None && bestRoute == None
        && badRoutes == old(badRoutes) && tabuList == old(tabuList)
      ensures old(currentRoute).Some? || old(bestRoute).Some? ==>
        var start := SearchState(if old(currentRoute).Some? then old(currentRoute).value else old(bestRoute).value,
                                 old(bestRoute).value, old(badRoutes), old(tabuList));
        var run := TabuRun(start, moves, tabuListMaxSize, maxBadRoutes, guarded, fuel, length);
        && end == run.end
        && currentRoute == Some(run.state.current) && bestRoute == Some(run.state.best)
        && badRoutes == run.state.badRoutes && tabuList == run.state.tabuList
    {
      if currentRoute.None? {
        currentRoute := bestRoute;
      }
      if currentRoute.None? {
        return NoRoute;
      }
      end := RunMoves(moves, guarded, fuel, length);
    }

    /** The tail calls of `tabuSearch` as a loop over the moves, from a current and a best
        route: it ends in the state and with the outcome of the specification. */
    method RunMoves(moves: seq<Move>, guarded: bool, fuel: nat, length: seq<Node> -> int) returns (end: SearchEnd)
      requires currentRoute.Some? && bestRoute.Some?
      requires forall k :: 0 <= k < |moves| ==> |moves[k].neighbor| < Util.IntLimit
      modifies this`currentRoute, this`bestRoute, this`badRoutes, this`tabuList
      ensures currentRoute.Some? && bestRoute.Some?
      ensures TabuRun(old(Search()), moves, tabuListMaxSize, maxBadRoutes, guarded, fuel, length) == SearchRun(Search(), end)
    {
      ghost var start := Search();
      var i := 0;
      while i < |moves|
        invariant 0 <= i <= |moves|
        invariant currentRoute.Some? && bestRoute.Some?
        invariant TabuRun(Search(), moves[i..], tabuListMaxSize, maxBadRoutes, guarded, fuel, length)
                  == TabuRun(start, moves, tabuListMaxSize, maxBadRoutes, guarded, fuel, length)
      {
        TabuRunStep(Search(), moves, i, tabuListMaxSize, maxBadRoutes, guarded, fuel, length);
        var stop := SearchStep(moves[i], guarded, fuel, length);
        if stop.Some? {
          return stop.value;
        }
        i := i + 1;
      }
      assert moves[i..] == [];
      return MovesExhausted;
    }
  }
}
