/** The route object of src/de/metal_land/tsp/Route.java: a list of cities that is extended
    one city at a time, rebuilt by a greedy pass over the caller's list, and measured. */
module Routes {

  import opened Nodes
  import opened Wrappers
  import Util

  /** `Integer.MAX_VALUE`, the starting bound of the greedy scan. */
  const MaxInt: int := 0x7fff_ffff

  /** One entry of a city's distance map, as its key-set iteration meets it. */
  datatype Entry = Entry(node: Node, distance: int)

  /** The caller's `LinkedList<Node>`, which `greedy` empties as it goes. */
  class NodeList {
    var items: seq<Node>

    constructor (items: seq<Node>)
      ensures this.items == items
    {
      this.items := items;
    }
  }

  /** How a call of `greedy` ends. `EmptyInput` is the exception `getFirst` throws on an empty
      list; `MissingDistances` the NullPointerException for a city without a distance map;
      `Stuck` stands for the loop that never ends: when the scan finds no city, or one that is
      no longer in the list, `remove` changes nothing and every later iteration repeats it. */
  datatype GreedyEnd = Finished | EmptyInput | MissingDistances | Stuck

  /** The route and the caller's list when `greedy` returns, throws, or starts repeating. */
  datatype GreedyRun = GreedyRun(route: seq<Node>, rest: seq<Node>, end: GreedyEnd)

  /** The index of the entry the scan of `greedy` keeps: starting from MAX_VALUE, an entry
      replaces the best so far only when its distance is strictly smaller. */
  function Shortest(entries: seq<Entry>): (k: Option<nat>)
    ensures k.Some? ==> k.value < |entries|
    decreases |entries|
  {
    if entries == [] then None
    else
      var best := Shortest(entries[..|entries| - 1]);
      var bound := if best.None? then MaxInt else entries[best.value].distance;
      if entries[|entries| - 1].distance < bound then Some(|entries| - 1) else best
  }

  /** The scan keeps the first entry of least distance, and finds none exactly when no
      distance is below MAX_VALUE. */
  lemma {:induction false} ShortestIsFirstMinimum(entries: seq<Entry>)
    ensures Shortest(entries).None? <==>
              forall j :: 0 <= j < |entries| ==> entries[j].distance >= MaxInt
    ensures Shortest(entries).Some? ==>
              var k := Shortest(entries).value;
              && entries[k].distance < MaxInt
              && (forall j :: 0 <= j < k ==> entries[j].distance > entries[k].distance)
              && (forall j :: k < j < |entries| ==> entries[j].distance >= entries[k].distance)
    decreases |entries|
  {
    if entries != [] {
      var init := entries[..|entries| - 1];
      ShortestIsFirstMinimum(init);
      assert forall j :: 0 <= j < |init| ==> init[j] == entries[j];
    }
  }

  /** The `for` loop over the distance map's keys inside `greedy`. */
  method ShortestNode(distanceMap: seq<Entry>) returns (shortestNode: Option<Node>)
    ensures shortestNode.None? <==> Shortest(distanceMap).None?
    ensures shortestNode.Some? ==> shortestNode.value == distanceMap[Shortest(distanceMap).value].node
  {
    shortestNode := None;
    var shortestDistance := MaxInt;
    var i := 0;
    while i < |distanceMap|
      invariant 0 <= i <= |distanceMap|
      invariant shortestNode.None? <==> Shortest(distanceMap[..i]).None?
      invariant Shortest(distanceMap[..i]).Some? ==>
                  && shortestNode == Some(distanceMap[Shortest(distanceMap[..i]).value].node)
                  && shortestDistance == distanceMap[Shortest(distanceMap[..i]).value].distance
      invariant Shortest(distanceMap[..i]).None? ==> shortestDistance == MaxInt
    {
      assert distanceMap[..i + 1][..i] == distanceMap[..i];
      if distanceMap[i].distance < shortestDistance {
        shortestDistance := distanceMap[i].distance;
        shortestNode := Some(distanceMap[i].node);
      }
      i := i + 1;
    }
    assert distanceMap[..|distanceMap|] == distanceMap;
  }

  /** `LinkedList.remove(Object)`: drops the first occurrence, if any. */
  function RemoveFirst(s: seq<Node>, x: Node): (r: seq<Node>)
    ensures x in s ==> |r| == |s| - 1 && multiset(r) == multiset(s) - multiset{x}
    ensures x !in s ==> r == s
  {
    if s == [] then []
    else
      assert s == [s[0]] + s[1..];
      if s[0] == x then s[1..] else [s[0]] + RemoveFirst(s[1..], x)
  }

  /** What `remove` drops is the first occurrence, and the other cities keep their order. */
  lemma {:induction false} RemoveFirstAt(s: seq<Node>, x: Node, i: nat)
    requires i < |s| && s[i] == x && x !in s[..i]
    ensures RemoveFirst(s, x) == s[..i] + s[i + 1..]
    decreases i
  {
    if i > 0 {
      assert s[0] in s[..i];
      assert s[1..][..i - 1] == s[1..i];
      RemoveFirstAt(s[1..], x, i - 1);
      assert RemoveFirst(s, x) == [s[0]] + RemoveFirst(s[1..], x);
      assert s[..i] == [s[0]] + s[1..i];
      assert s[i + 1..] == s[1..][i..];
    }
  }

  /** The `while` loop of `greedy`. Each iteration looks up the map of the LAST city still in
      the list (not of the city placed last), takes the city the scan keeps, removes it from
      the list and appends it to the route. */
  function GreedyLoop(route: seq<Node>, rest: seq<Node>, distances: map<Node, seq<Entry>>): GreedyRun
    decreases |rest|
  {
    if rest == [] then GreedyRun(route, rest, Finished)
    else
      var lastNode := rest[|rest| - 1];
      if lastNode !in distances then GreedyRun(route, rest, MissingDistances)
      else
        var k := Shortest(distances[lastNode]);
        if k.None? || distances[lastNode][k.value].node !in rest then GreedyRun(route, rest, Stuck)
        else
          var next := distances[lastNode][k.value].node;
          GreedyLoop(route + [next], RemoveFirst(rest, next), distances)
  }

  /** One iteration that moves a city: the rest of the loop runs on the longer route and the
      shorter list. */
  lemma GreedyLoopStep(route: seq<Node>, rest: seq<Node>, distances: map<Node, seq<Entry>>, next: Node)
    requires rest != [] && rest[|rest| - 1] in distances
    requires Shortest(distances[rest[|rest| - 1]]).Some?
    requires next == distances[rest[|rest| - 1]][Shortest(distances[rest[|rest| - 1]]).value].node
    requires next in rest
    ensures GreedyLoop(route, rest, distances) == GreedyLoop(route + [next], RemoveFirst(rest, next), distances)
  {
  }

  /** `greedy` as a whole: the route restarts from the caller's first city, which is taken out
      of the caller's list. */
  function GreedyResult(nodes: seq<Node>, distances: map<Node, seq<Entry>>): GreedyRun
  {
    if nodes == [] then GreedyRun([], [], EmptyInput)
    else GreedyLoop([nodes[0]], nodes[1..], distances)
  }

  /** However `greedy` ends, no city is lost or made up: the route and what is left of the list
      together hold the caller's cities, and the route begins with the caller's first city. */
  lemma GreedyConserves(nodes: seq<Node>, distances: map<Node, seq<Entry>>)
    ensures var g := GreedyResult(nodes, distances);
            && multiset(g.route) + multiset(g.rest) == multiset(nodes)
            && (nodes != [] ==> g.route != [] && g.route[0] == nodes[0])
            && (g.end == Finished ==> g.rest == [] && multiset(g.route) == multiset(nodes))
  {
    if nodes != [] {
      assert nodes == [nodes[0]] + nodes[1..];
      GreedyLoopConserves([nodes[0]], nodes[1..], distances);
    }
  }

  lemma {:induction false} GreedyLoopConserves(route: seq<Node>, rest: seq<Node>, distances: map<Node, seq<Entry>>)
    ensures var g := GreedyLoop(route, rest, distances);
            && multiset(g.route) + multiset(g.rest) == multiset(route) + multiset(rest)
            && |g.route| >= |route| && g.route[..|route|] == route
            && (g.end == Finished ==> g.rest == [])
    decreases |rest|
  {
    if rest != [] {
      var lastNode := rest[|rest| - 1];
      if lastNode in distances {
        var k := Shortest(distances[lastNode]);
        if k.Some? && distances[lastNode][k.value].node in rest {
          var next := distances[lastNode][k.value].node;
          GreedyLoopConserves(route + [next], RemoveFirst(rest, next), distances);
          var g := GreedyLoop(route, rest, distances);
          assert g.route[..|route| + 1][..|route|] == g.route[..|route|];
        }
      }
    }
  }

  /** A distance map of the kind src/Main.java builds: it lists the city itself at distance 0,
      every other city farther away, so the scan keeps the city itself. */
  predicate PicksItself(entries: seq<Entry>, v: Node)
  {
    Shortest(entries).Some? && entries[Shortest(entries).value].node == v
  }

  lemma SelfAtZeroIsPicked(entries: seq<Entry>, v: Node)
    requires Entry(v, 0) in entries
    requires forall j :: 0 <= j < |entries| ==>
               entries[j].distance >= 0 && (entries[j].node != v ==> entries[j].distance > 0)
    ensures PicksItself(entries, v)
  {
    ShortestIsFirstMinimum(entries);
    var j :| 0 <= j < |entries| && entries[j] == Entry(v, 0);
  }

  /** With such maps, `greedy` is not nearest-neighbour at all: every iteration picks the last
      city of the list itself, so the route is the first city followed by the others in
      reverse order. */
  lemma GreedyWithSelfMapsReverses(nodes: seq<Node>, distances: map<Node, seq<Entry>>)
    requires nodes != []
    requires Util.Distinct(nodes)
    requires forall v :: v in nodes ==> v in distances && PicksItself(distances[v], v)
    ensures GreedyResult(nodes, distances) == GreedyRun([nodes[0]] + Util.Reverse(nodes[1..]), [], Finished)
  {
    GreedyLoopReverses([nodes[0]], nodes[1..], distances);
  }

  lemma {:induction false} GreedyLoopReverses(route: seq<Node>, rest: seq<Node>, distances: map<Node, seq<Entry>>)
    requires Util.Distinct(rest)
    requires forall v :: v in rest ==> v in distances && PicksItself(distances[v], v)
    ensures GreedyLoop(route, rest, distances) == GreedyRun(route + Util.Reverse(rest), [], Finished)
    decreases |rest|
  {
    if rest != [] {
      var last := rest[|rest| - 1];
      var init := rest[..|rest| - 1];
      SplitLastDistinct(rest);
      GreedyLoopPicksLast(route, rest, distances);
      GreedyLoopReverses(route + [last], init, distances);
      assert route + Util.Reverse(rest) == (route + [last]) + Util.Reverse(init);
    }
  }

  /** One iteration when the last city's map picks that city itself. */
  lemma GreedyLoopPicksLast(route: seq<Node>, rest: seq<Node>, distances: map<Node, seq<Entry>>)
    requires rest != [] && rest[|rest| - 1] !in rest[..|rest| - 1]
    requires rest[|rest| - 1] in distances && PicksItself(distances[rest[|rest| - 1]], rest[|rest| - 1])
    ensures GreedyLoop(route, rest, distances)
            == GreedyLoop(route + [rest[|rest| - 1]], rest[..|rest| - 1], distances)
  {
    var last := rest[|rest| - 1];
    assert rest == rest[..|rest| - 1] + [last];
    RemoveLastDistinct(rest[..|rest| - 1], last);
  }

  /** Splitting a duplicate-free sequence before its last element. */
  lemma SplitLastDistinct(rest: seq<Node>)
    requires rest != []
    requires Util.Distinct(rest)
    ensures rest[|rest| - 1] !in rest[..|rest| - 1]
    ensures Util.Distinct(rest[..|rest| - 1])
    ensures forall v :: v in rest[..|rest| - 1] ==> v in rest
  {
  }

  lemma {:induction false} RemoveLastDistinct(init: seq<Node>, last: Node)
    requires last !in init
    ensures RemoveFirst(init + [last], last) == init
  {
    if init != [] {
      var s := init + [last];
      assert s[0] == init[0] && s[1..] == init[1..] + [last];
      RemoveLastDistinct(init[1..], last);
      assert RemoveFirst(s, last) == [init[0]] + RemoveFirst(init[1..] + [last], last);
    }
  }

  /** Every city may be measured against the route's first city without overflow. */
  predicate FitsFromFirst(s: seq<Node>)
  {
    forall k :: 0 <= k < |s| ==> Fits(s[0], s[k])
  }

  /** What `calculateDistance` adds up as written: `lastNode` is set from the first city and
      never moved on, so every later city is measured from the first one. */
  function StarLength(s: seq<Node>): nat
    requires FitsFromFirst(s)
    decreases |s|
  {
    if |s| <= 1 then 0 else StarLength(s[..|s| - 1]) + DistanceTo(s[0], s[|s| - 1])
  }

  /** One more city of the route adds its distance from the first city. */
  lemma StarLengthStep(s: seq<Node>, i: nat)
    requires FitsFromFirst(s) && i < |s|
    ensures FitsFromFirst(s[..i]) && FitsFromFirst(s[..i + 1])
    ensures StarLength(s[..i + 1]) == if i == 0 then 0 else StarLength(s[..i]) + DistanceTo(s[0], s[i])
  {
    var t := s[..i + 1];
    assert t[..i] == s[..i];
    forall k | 0 <= k <= i
      ensures Fits(t[0], t[k])
    {
      assert t[0] == s[0] && t[k] == s[k];
    }
  }

  /** Every two consecutive cities may be measured without overflow. */
  predicate ConsecutiveFit(s: seq<Node>)
  {
    forall k :: 0 <= k < |s| - 1 ==> Fits(s[k], s[k + 1])
  }

  /** The length of the open path through the route, no closing edge: the sum that
      `calculateDistance` is evidently meant to compute. */
  function PathLength(s: seq<Node>): nat
    requires ConsecutiveFit(s)
    decreases |s|
  {
    if |s| <= 1 then 0 else PathLength(s[..|s| - 1]) + DistanceTo(s[|s| - 2], s[|s| - 1])
  }

  lemma {:induction false} PathLengthCons(x: Node, t: seq<Node>)
    requires t != [] && ConsecutiveFit([x] + t)
    ensures Fits(x, t[0]) && ConsecutiveFit(t)
    ensures PathLength([x] + t) == DistanceTo(x, t[0]) + PathLength(t)
    decreases |t|
  {
    var s := [x] + t;
    assert s[0] == x && s[1] == t[0];
    forall k | 0 <= k < |t| - 1
      ensures Fits(t[k], t[k + 1])
    {
      assert t[k] == s[k + 1] && t[k + 1] == s[k + 2];
    }
    if |t| > 1 {
      var t' := t[..|t| - 1];
      assert s[..|s| - 1] == [x] + t';
      PathLengthCons(x, t');
    }
  }

  /** The path length does not depend on the direction of travel. */
  lemma {:induction false} PathLengthReversal(s: seq<Node>)
    requires ConsecutiveFit(s)
    ensures ConsecutiveFit(Util.Reverse(s))
    ensures PathLength(Util.Reverse(s)) == PathLength(s)
    decreases |s|
  {
    var r := Util.Reverse(s);
    forall k | 0 <= k < |r| - 1
      ensures Fits(r[k], r[k + 1])
    {
      DistanceSymmetric(s[|s| - 2 - k], s[|s| - 1 - k]);
    }
    if |s| >= 2 {
      var n := |s|;
      var init := s[..n - 1];
      assert r == [s[n - 1]] + Util.Reverse(init);
      PathLengthReversal(init);
      PathLengthCons(s[n - 1], Util.Reverse(init));
      DistanceSymmetric(s[n - 2], s[n - 1]);
    }
  }

  /** Three cities on a line: what `calculateDistance` returns differs from the path length,
      and changes when the route is reversed. */
  lemma CalculateDistanceCounterexample(a: Node, b: Node, c: Node)
    requires a == Node("1", 0, 0) && b == Node("2", 0, 10) && c == Node("3", 0, 30)
    ensures FitsFromFirst([a, b, c]) && FitsFromFirst([c, b, a]) && ConsecutiveFit([a, b, c])
    ensures StarLength([a, b, c]) == 14
    ensures StarLength([c, b, a]) == 17
    ensures PathLength([a, b, c]) == 11
  {
    LineSpans(a, b, c);
    SpanLengths(a, b, c);
  }

  /** The same lengths for any three cities with these squared spans. */
  lemma SpanLengths(a: Node, b: Node, c: Node)
    requires SquaredSpan(a, b) == 100 && SquaredSpan(a, c) == 900 && SquaredSpan(b, c) == 400
    requires SquaredSpan(c, b) == 400 && SquaredSpan(c, a) == 900
    requires SquaredSpan(a, a) == 0 && SquaredSpan(c, c) == 0
    ensures FitsFromFirst([a, b, c]) && FitsFromFirst([c, b, a]) && ConsecutiveFit([a, b, c])
    ensures StarLength([a, b, c]) == 14
    ensures StarLength([c, b, a]) == 17
    ensures PathLength([a, b, c]) == 11
  {
    SpanDistances(a, b, c);
    ThreeCityLengths(a, b, c);
  }

  lemma ThreeCityLengths(a: Node, b: Node, c: Node)
    requires Fits(a, a) && Fits(a, b) && Fits(a, c) && Fits(b, c) && Fits(c, c) && Fits(c, b) && Fits(c, a)
    ensures FitsFromFirst([a, b, c]) && FitsFromFirst([c, b, a]) && ConsecutiveFit([a, b, c])
    ensures StarLength([a, b, c]) == DistanceTo(a, b) + DistanceTo(a, c)
    ensures StarLength([c, b, a]) == DistanceTo(c, b) + DistanceTo(c, a)
    ensures PathLength([a, b, c]) == DistanceTo(a, b) + DistanceTo(b, c)
  {
    ThreeCityStar(a, b, c);
    ThreeCityStar(c, b, a);
    var abc := [a, b, c];
    assert abc[..2] == [a, b] && [a, b][..1] == [a];
    assert PathLength([a, b]) == DistanceTo(a, b);
  }

  lemma ThreeCityStar(a: Node, b: Node, c: Node)
    requires Fits(a, a) && Fits(a, b) && Fits(a, c)
    ensures FitsFromFirst([a, b, c])
    ensures StarLength([a, b, c]) == DistanceTo(a, b) + DistanceTo(a, c)
  {
    var abc := [a, b, c];
    assert abc[..2] == [a, b] && [a, b][..1] == [a];
    assert StarLength([a, b]) == DistanceTo(a, b);
  }

  lemma LineSpans(a: Node, b: Node, c: Node)
    requires a == Node("1", 0, 0) && b == Node("2", 0, 10) && c == Node("3", 0, 30)
    ensures SquaredSpan(a, b) == 100 && SquaredSpan(a, c) == 900 && SquaredSpan(b, c) == 400
    ensures SquaredSpan(c, b) == 400 && SquaredSpan(c, a) == 900
    ensures SquaredSpan(a, a) == 0 && SquaredSpan(c, c) == 0
  {
  }

  lemma SpanDistances(a: Node, b: Node, c: Node)
    requires SquaredSpan(a, b) == 100 && SquaredSpan(a, c) == 900 && SquaredSpan(b, c) == 400
    requires SquaredSpan(c, b) == 400 && SquaredSpan(c, a) == 900
    requires SquaredSpan(a, a) == 0 && SquaredSpan(c, c) == 0
    ensures Fits(a, a) && Fits(a, b) && Fits(a, c) && Fits(b, c) && Fits(c, c) && Fits(c, b) && Fits(c, a)
    ensures DistanceTo(a, b) == 4 && DistanceTo(a, c) == 10 && DistanceTo(b, c) == 7
    ensures DistanceTo(c, b) == 7 && DistanceTo(c, a) == 10
  {
    DistanceIs(a, b, 4);
    DistanceIs(a, c, 10);
    DistanceIs(b, c, 7);
    DistanceIs(c, b, 7);
    DistanceIs(c, a, 10);
  }

  /** The route object: a list of cities, changed in place. */
  class Route {
    var route: seq<Node>

    constructor ()
      ensures route == []
    {
      route := [];
    }

    /** `addNode`: appends one city and leaves the earlier ones as they were. */
    method AddNode(node: Node)
      modifies this
      ensures route == old(route) + [node]
    {
      route := route + [node];
    }

    /** `greedy`: clears the route, moves the caller's first city into it, then keeps moving
        the city that the last remaining city's distance map names nearest. */
    method Greedy(nodes: NodeList, distances: map<Node, seq<Entry>>) returns (end: GreedyEnd)
      modifies this, nodes
      ensures var g := GreedyResult(old(nodes.items), distances);
              route == g.route && nodes.items == g.rest && end == g.end
    {
      ghost var result := GreedyResult(nodes.items, distances);
      route := [];
      if nodes.items == [] {
        return EmptyInput;
      }
      route := route + [nodes.items[0]];
      nodes.items := nodes.items[1..];
      assert route == [old(nodes.items)[0]];
      while nodes.items != []
        invariant GreedyLoop(route, nodes.items, distances) == result
        decreases |nodes.items|
      {
        var lastNode := nodes.items[|nodes.items| - 1];
        if lastNode !in distances {
          return MissingDistances;
        }
        var shortestNode := ShortestNode(distances[lastNode]);
        if shortestNode.None? || shortestNode.value !in nodes.items {
          return Stuck;
        }
        GreedyLoopStep(route, nodes.items, distances, shortestNode.value);
        nodes.items := RemoveFirst(nodes.items, shortestNode.value);
        route := route + [shortestNode.value];
      }
      return Finished;
    }

    /** `calculateDistance`, as written: it only reads the route. */
    method CalculateDistance() returns (distance: int)
      requires FitsFromFirst(route)
      ensures distance == StarLength(route)
    {
      var lastNode: Option<Node> := None;
      distance := 0;
      var i := 0;
      while i < |route|
        invariant 0 <= i <= |route|
        invariant lastNode == if i == 0 then None else Some(route[0])
        invariant FitsFromFirst(route[..i]) && distance == StarLength(route[..i])
      {
        var node := route[i];
        StarLengthStep(route, i);
        if lastNode.None? {
          lastNode := Some(node);
        } else {
          distance := distance + DistanceTo(lastNode.value, node);
        }
        i := i + 1;
      }
      assert route[..|route|] == route;
    }
  }
}
