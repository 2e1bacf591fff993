/** What `TSP.calculateDistances` (src/de/metal_land/tsp/TSP.java) stores for one city: the
    other cities with their distances in a `TreeMap<Node, Integer>` ordered by name, whose
    entries are then copied with `putAll` into a `TreeMap` ordered by `ValueComparator`.
    A `TreeMap` is modelled by its entries in ascending key order; `put` of a new key goes in
    front of the first key that compares greater, which is where the red-black tree puts it. */
module Ranking {

  import opened Nodes
  import Util
  import opened Routes

  /** No two cities share a name: `Node.compareTo` then tells every two cities apart. */
  predicate UniqueNames(s: seq<Node>)
  {
    forall i, j :: 0 <= i < |s| && 0 <= j < |s| && i != j ==> s[i].name != s[j].name
  }

  /** The distance from v to every city of s is computed without int overflow. */
  predicate FitsFrom(v: Node, s: seq<Node>)
  {
    forall i :: 0 <= i < |s| ==> Fits(v, s[i])
  }

  /** The cities of s other than v, in list order: the inner loop's `!toNode.equals(node)`. */
  function Others(s: seq<Node>, v: Node): (r: seq<Node>)
    ensures multiset(r) == multiset(s)[v := 0]
    ensures forall u :: u in r ==> u in s && u != v
    decreases |s|
  {
    if s == [] then []
    else
      var init, last := s[..|s| - 1], s[|s| - 1];
      assert s == init + [last];
      Others(init, v) + (if last != v then [last] else [])
  }

  /** Leaving a city out keeps the names unique. */
  lemma {:induction false} OthersUniqueNames(s: seq<Node>, v: Node)
    requires UniqueNames(s)
    ensures UniqueNames(Others(s, v))
    decreases |s|
  {
    if s != [] {
      var init, last := s[..|s| - 1], s[|s| - 1];
      UniqueNamesInit(s);
      OthersUniqueNames(init, v);
      var prev := Others(init, v);
      if last != v {
        UniqueNamesSnoc(prev, last);
        assert Others(s, v) == prev + [last];
      } else {
        assert Others(s, v) == prev + [];
      }
    }
  }

  /** Without its last city a list keeps unique names, none of them the last city's. */
  lemma UniqueNamesInit(s: seq<Node>)
    requires UniqueNames(s) && s != []
    ensures UniqueNames(s[..|s| - 1])
    ensures forall u :: u in s[..|s| - 1] ==> u.name != s[|s| - 1].name
  {
    var init := s[..|s| - 1];
    forall i, j | 0 <= i < |init| && 0 <= j < |init| && i != j
      ensures init[i].name != init[j].name
    {
      assert init[i] == s[i] && init[j] == s[j];
    }
    forall u | u in init
      ensures u.name != s[|s| - 1].name
    {
      var k :| 0 <= k < |init| && init[k] == u;
      assert s[k] == u;
    }
  }

  /** A city whose name is new keeps the names unique when appended. */
  lemma UniqueNamesSnoc(s: seq<Node>, x: Node)
    requires UniqueNames(s)
    requires forall u :: u in s ==> u.name != x.name
    ensures UniqueNames(s + [x])
  {
    var t := s + [x];
    forall i, j | 0 <= i < |t| && 0 <= j < |t| && i != j
      ensures t[i].name != t[j].name
    {
      if i == |s| {
        assert t[j] == s[j];
      } else if j == |s| {
        assert t[i] == s[i];
      } else {
        assert t[i] == s[i] && t[j] == s[j];
      }
    }
  }

  /** Entries strictly ascending by the name of their city. */
  predicate NameSorted(es: seq<Entry>)
  {
    forall i, j :: 0 <= i < j < |es| ==> CompareTo(es[i].node, es[j].node) < 0
  }

  /** `TreeMap.put` in the map ordered by `Node.compareTo`: the new entry goes in front of the
      first greater key; for a key comparing equal to a present one, that key stays and takes
      the new value. */
  function InsertByName(sorted: seq<Entry>, e: Entry): seq<Entry>
    decreases |sorted|
  {
    if sorted == [] then [e]
    else
      var c := CompareTo(e.node, sorted[0].node);
      if c < 0 then [e] + sorted
      else if c == 0 then [Entry(sorted[0].node, e.distance)] + sorted[1..]
      else [sorted[0]] + InsertByName(sorted[1..], e)
  }

  /** The entries the inner loop puts, in list order: each city with its distance from v. */
  function Tagged(v: Node, s: seq<Node>): (es: seq<Entry>)
    requires FitsFrom(v, s)
    ensures |es| == |s|
    ensures forall i :: 0 <= i < |s| ==> es[i] == Entry(s[i], DistanceTo(v, s[i]))
    decreases |s|
  {
    if s == [] then [] else Tagged(v, s[..|s| - 1]) + [Entry(s[|s| - 1], DistanceTo(v, s[|s| - 1]))]
  }

  /** `nodeXDistance` after the inner loop has put the cities of s. */
  function ByName(v: Node, s: seq<Node>): seq<Entry>
    requires FitsFrom(v, s)
    decreases |s|
  {
    if s == [] then []
    else InsertByName(ByName(v, s[..|s| - 1]), Entry(s[|s| - 1], DistanceTo(v, s[|s| - 1])))
  }

  /** A new key smaller than the first key is smaller than all of them. */
  lemma SmallerThanAll(sorted: seq<Entry>, e: Entry)
    requires NameSorted(sorted) && sorted != []
    requires CompareTo(e.node, sorted[0].node) < 0
    ensures forall j :: 0 <= j < |sorted| ==> CompareTo(e.node, sorted[j].node) < 0
  {
    forall j | 0 < j < |sorted|
      ensures CompareTo(e.node, sorted[j].node) < 0
    {
      CompareNamesTransitive(e.node.name, sorted[0].node.name, sorted[j].node.name);
    }
  }

  /** Inserting an entry with a new name keeps the keys strictly ascending and adds just it. */
  lemma {:induction false} InsertByNameSorted(sorted: seq<Entry>, e: Entry)
    requires NameSorted(sorted)
    requires forall i :: 0 <= i < |sorted| ==> sorted[i].node.name != e.node.name
    ensures NameSorted(InsertByName(sorted, e))
    ensures multiset(InsertByName(sorted, e)) == multiset(sorted) + multiset{e}
    decreases |sorted|
  {
    if sorted != [] {
      var first, rest := sorted[0], sorted[1..];
      assert sorted == [first] + rest;
      var c := CompareTo(e.node, first.node);
      assert c != 0;
      if c < 0 {
        SmallerThanAll(sorted, e);
        NameSortedCons(e, sorted);
      } else {
        assert NameSorted(rest) by {
          forall i, j | 0 <= i < j < |rest|
            ensures CompareTo(rest[i].node, rest[j].node) < 0
          {
            assert rest[i] == sorted[i + 1] && rest[j] == sorted[j + 1];
          }
        }
        assert forall i :: 0 <= i < |rest| ==> rest[i].node.name != e.node.name by {
          forall i | 0 <= i < |rest|
            ensures rest[i].node.name != e.node.name
          {
            assert rest[i] == sorted[i + 1];
          }
        }
        InsertByNameSorted(rest, e);
        var tail := InsertByName(rest, e);
        assert InsertByName(sorted, e) == [first] + tail;
        CompareNamesAntisymmetric(e.node.name, first.node.name);
        FirstBeforeInserted(first, rest, e, tail);
      }
    }
  }

  /** An entry whose name is below every name of a name-sorted sequence can go in front. */
  lemma NameSortedCons(first: Entry, tail: seq<Entry>)
    requires NameSorted(tail)
    requires forall j :: 0 <= j < |tail| ==> CompareTo(first.node, tail[j].node) < 0
    ensures NameSorted([first] + tail)
  {
    var r := [first] + tail;
    forall i, j | 0 <= i < j < |r|
      ensures CompareTo(r[i].node, r[j].node) < 0
    {
      assert r[j] == tail[j - 1];
      if i > 0 {
        assert r[i] == tail[i - 1];
      }
    }
  }

  lemma FirstBeforeInserted(first: Entry, rest: seq<Entry>, e: Entry, tail: seq<Entry>)
    requires NameSorted([first] + rest) && NameSorted(tail)
    requires CompareTo(first.node, e.node) < 0
    requires multiset(tail) == multiset(rest) + multiset{e}
    ensures NameSorted([first] + tail)
  {
    forall j | 0 <= j < |tail|
      ensures CompareTo(first.node, tail[j].node) < 0
    {
      assert tail[j] in multiset(tail);
      if tail[j] != e {
        assert tail[j] in multiset(rest);
        var k :| 0 <= k < |rest| && rest[k] == tail[j];
        var whole := [first] + rest;
        assert whole[0] == first && whole[k + 1] == tail[j];
      }
    }
    NameSortedCons(first, tail);
  }

  /** With unique names the name-ordered map holds exactly the entries put into it, by
      ascending name. */
  lemma {:induction false} ByNameSorted(v: Node, s: seq<Node>)
    requires UniqueNames(s) && FitsFrom(v, s)
    ensures NameSorted(ByName(v, s))
    ensures multiset(ByName(v, s)) == multiset(Tagged(v, s))
    decreases |s|
  {
    if s != [] {
      var init, last := s[..|s| - 1], s[|s| - 1];
      UniqueNamesInit(s);
      assert FitsFrom(v, init) by {
        forall i | 0 <= i < |init|
          ensures Fits(v, init[i])
        {
          assert init[i] == s[i];
        }
      }
      ByNameSorted(v, init);
      var prev := ByName(v, init);
      var tagged := Tagged(v, init);
      forall i | 0 <= i < |prev|
        ensures prev[i].node.name != last.name
      {
        assert prev[i] in multiset(tagged);
        var k :| 0 <= k < |tagged| && tagged[k] == prev[i];
        assert init[k] == prev[i].node;
      }
      var e := Entry(last, DistanceTo(v, last));
      InsertByNameSorted(prev, e);
      assert Tagged(v, s) == tagged + [e];
    }
  }

  /** `ValueComparator.compare` (its `base.get` finds each entry's own value): 1 when a is
      farther than b, and -1 otherwise; it never answers 0, so two cities at the same distance
      are both kept. */
  function ValueCompare(a: Entry, b: Entry): (c: int)
    ensures c == 1 || c == -1
    ensures c == 1 <==> a.distance > b.distance
  {
    if a.distance > b.distance then 1 else -1
  }

  /** `TreeMap.put` in the map ordered by `ValueComparator`: since the comparison is never 0,
      the search goes left exactly when the new entry is not farther, and nothing is replaced. */
  function InsertByValue(ranked: seq<Entry>, e: Entry): (r: seq<Entry>)
    ensures multiset(r) == multiset(ranked) + multiset{e}
    decreases |ranked|
  {
    if ranked == [] then [e]
    else
      assert ranked == [ranked[0]] + ranked[1..];
      if ValueCompare(e, ranked[0]) < 0 then [e] + ranked
      else [ranked[0]] + InsertByValue(ranked[1..], e)
  }

  /** `sortedMap.putAll(nodeXDistance)`: the entries put in the order of es. */
  function ByValue(es: seq<Entry>): (r: seq<Entry>)
    ensures multiset(r) == multiset(es)
    decreases |es|
  {
    if es == [] then []
    else
      assert es == es[..|es| - 1] + [es[|es| - 1]];
      InsertByValue(ByValue(es[..|es| - 1]), es[|es| - 1])
  }

  /** Nearer first; at equal distance the greater name first. */
  predicate Before(a: Entry, b: Entry)
  {
    a.distance < b.distance || (a.distance == b.distance && CompareTo(a.node, b.node) > 0)
  }

  predicate ValueSorted(es: seq<Entry>)
  {
    forall i, j :: 0 <= i < j < |es| ==> Before(es[i], es[j])
  }

  /** Inserting an entry whose name is greater than every name present keeps the order. */
  lemma {:induction false} InsertByValueSorted(ranked: seq<Entry>, e: Entry)
    requires ValueSorted(ranked)
    requires forall x :: x in ranked ==> CompareTo(x.node, e.node) < 0
    ensures ValueSorted(InsertByValue(ranked, e))
    decreases |ranked|
  {
    if ranked != [] {
      var first, rest := ranked[0], ranked[1..];
      assert ranked == [first] + rest;
      if ValueCompare(e, first) < 0 {
        forall j | 0 <= j < |ranked|
          ensures Before(e, ranked[j])
        {
          assert j == 0 || Before(first, ranked[j]);
          CompareNamesAntisymmetric(ranked[j].node.name, e.node.name);
        }
        ValueSortedCons(e, ranked);
      } else {
        assert ValueSorted(rest) by {
          forall i, j | 0 <= i < j < |rest|
            ensures Before(rest[i], rest[j])
          {
            assert rest[i] == ranked[i + 1] && rest[j] == ranked[j + 1];
          }
        }
        InsertByValueSorted(rest, e);
        var tail := InsertByValue(rest, e);
        assert InsertByValue(ranked, e) == [first] + tail;
        CompareNamesAntisymmetric(first.node.name, e.node.name);
        FirstBeforeInsertedByValue(first, rest, e, tail);
      }
    }
  }

  /** An entry that comes before every entry of a value-sorted sequence can go in front. */
  lemma ValueSortedCons(first: Entry, tail: seq<Entry>)
    requires ValueSorted(tail)
    requires forall j :: 0 <= j < |tail| ==> Before(first, tail[j])
    ensures ValueSorted([first] + tail)
  {
    var r := [first] + tail;
    forall i, j | 0 <= i < j < |r|
      ensures Before(r[i], r[j])
    {
      assert r[j] == tail[j - 1];
      if i > 0 {
        assert r[i] == tail[i - 1];
      }
    }
  }

  lemma FirstBeforeInsertedByValue(first: Entry, rest: seq<Entry>, e: Entry, tail: seq<Entry>)
    requires ValueSorted([first] + rest) && ValueSorted(tail)
    requires Before(first, e)
    requires multiset(tail) == multiset(rest) + multiset{e}
    ensures ValueSorted([first] + tail)
  {
    forall j | 0 <= j < |tail|
      ensures Before(first, tail[j])
    {
      assert tail[j] in multiset(tail);
      if tail[j] != e {
        assert tail[j] in multiset(rest);
        var k :| 0 <= k < |rest| && rest[k] == tail[j];
        var whole := [first] + rest;
        assert whole[0] == first && whole[k + 1] == tail[j];
      }
    }
    ValueSortedCons(first, tail);
  }

  /** Copying a name-ordered map into the value-ordered one sorts by value, ties by
      descending name. */
  lemma {:induction false} ByValueSorted(es: seq<Entry>)
    requires NameSorted(es)
    ensures ValueSorted(ByValue(es))
    decreases |es|
  {
    if es != [] {
      var init, last := es[..|es| - 1], es[|es| - 1];
      ByValueSorted(init);
      var prev := ByValue(init);
      forall x | x in prev
        ensures CompareTo(x.node, last.node) < 0
      {
        assert x in multiset(prev);
        var k :| 0 <= k < |init| && init[k] == x;
        assert es[k] == x;
      }
      InsertByValueSorted(prev, last);
    }
  }

  /** The keys of a map, in its order. */
  function Keys(es: seq<Entry>): (r: seq<Node>)
    ensures |r| == |es|
    ensures forall i :: 0 <= i < |es| ==> r[i] == es[i].node
  {
    seq(|es|, i requires 0 <= i < |es| => es[i].node)
  }

  /** The entries of the ranking of v: the other cities with their distances, nearest first. */
  function RankedEntries(nodes: seq<Node>, v: Node): seq<Entry>
    requires FitsFrom(v, nodes)
  {
    var others := Others(nodes, v);
    OthersFit(nodes, v);
    ByValue(ByName(v, others))
  }

  lemma OthersFit(nodes: seq<Node>, v: Node)
    requires FitsFrom(v, nodes)
    ensures FitsFrom(v, Others(nodes, v))
  {
    var others := Others(nodes, v);
    forall i | 0 <= i < |others|
      ensures Fits(v, others[i])
    {
      assert others[i] in nodes;
    }
  }

  /** One more city of the list: it joins the others unless it is v. */
  lemma OthersSnoc(s: seq<Node>, x: Node, v: Node)
    ensures Others(s + [x], v) == Others(s, v) + (if x != v then [x] else [])
  {
    assert (s + [x])[..|s|] == s;
  }

  /** One more city put into the name-ordered map. */
  lemma ByNameSnoc(v: Node, s: seq<Node>, x: Node)
    requires FitsFrom(v, s) && Fits(v, x)
    ensures FitsFrom(v, s + [x])
    ensures ByName(v, s + [x]) == InsertByName(ByName(v, s), Entry(x, DistanceTo(v, x)))
  {
    var t := s + [x];
    assert t[..|s|] == s && t[|s|] == x;
    assert FitsFrom(v, t) by {
      forall i | 0 <= i < |t|
        ensures Fits(v, t[i])
      {
        if i < |s| {
          assert t[i] == s[i];
        }
      }
    }
  }

  /** One more city of the list passed through the inner loop of `calculateDistances`. */
  lemma ByNameStep(v: Node, nodes: seq<Node>, j: nat)
    requires j < |nodes| && FitsFrom(v, nodes)
    ensures FitsFrom(v, Others(nodes[..j], v)) && FitsFrom(v, Others(nodes[..j + 1], v))
    ensures ByName(v, Others(nodes[..j + 1], v))
            == if nodes[j] != v then InsertByName(ByName(v, Others(nodes[..j], v)), Entry(nodes[j], DistanceTo(v, nodes[j])))
               else ByName(v, Others(nodes[..j], v))
  {
    var prefix := nodes[..j];
    assert nodes[..j + 1] == prefix + [nodes[j]];
    assert FitsFrom(v, prefix) by {
      forall i | 0 <= i < |prefix|
        ensures Fits(v, prefix[i])
      {
        assert prefix[i] == nodes[i];
      }
    }
    OthersFit(prefix, v);
    OthersSnoc(prefix, nodes[j], v);
    var others := Others(prefix, v);
    if nodes[j] != v {
      ByNameSnoc(v, others, nodes[j]);
    } else {
      assert others + [] == others;
    }
  }

  /** `distances.get(v).navigableKeySet()`: the other cities, nearest first. */
  function Ranking(nodes: seq<Node>, v: Node): seq<Node>
    requires FitsFrom(v, nodes)
  {
    Keys(RankedEntries(nodes, v))
  }

  /** With unique names, the ranking of v holds every other city exactly once and never v; it
      is ordered by distance from v, nearest first, and cities at the same distance by
      descending name. */
  lemma RankingOrder(nodes: seq<Node>, v: Node)
    requires UniqueNames(nodes)
    requires FitsFrom(v, nodes)
    ensures var r := Ranking(nodes, v);
      && (forall u :: u in r <==> u in nodes && u != v)
      && Util.Distinct(r)
      && (forall i :: 0 <= i < |r| ==> Fits(v, r[i]))
      && (forall i, j :: 0 <= i < j < |r| ==>
            DistanceTo(v, r[i]) < DistanceTo(v, r[j])
            || (DistanceTo(v, r[i]) == DistanceTo(v, r[j]) && CompareTo(r[i], r[j]) > 0))
  {
    var others := Others(nodes, v);
    OthersFit(nodes, v);
    OthersUniqueNames(nodes, v);
    var es := RankedEntries(nodes, v);
    ByNameSorted(v, others);
    ByValueSorted(ByName(v, others));
    TaggedPermutation(v, others, es);
    var r := Ranking(nodes, v);
    assert r == Keys(es);
    forall u | u in r
      ensures u in nodes && u != v
    {
      var i :| 0 <= i < |r| && r[i] == u;
      assert es[i].node in others;
    }
    forall u | u in nodes && u != v
      ensures u in r
    {
      assert u in multiset(others);
      assert u in others;
    }
    forall i | 0 <= i < |r|
      ensures Fits(v, r[i])
    {
      assert r[i] == es[i].node;
    }
    forall i, j | 0 <= i < j < |r|
      ensures DistanceTo(v, r[i]) < DistanceTo(v, r[j])
              || (DistanceTo(v, r[i]) == DistanceTo(v, r[j]) && CompareTo(r[i], r[j]) > 0)
      ensures r[i] != r[j]
    {
      assert Before(es[i], es[j]);
      assert r[i] == es[i].node && r[j] == es[j].node;
    }
  }

  /** A reordering of the tagged cities of s carries each city of s once, with its distance. */
  lemma TaggedPermutation(v: Node, s: seq<Node>, es: seq<Entry>)
    requires FitsFrom(v, s) && multiset(es) == multiset(Tagged(v, s))
    ensures forall i :: 0 <= i < |es| ==>
      es[i].node in s && Fits(v, es[i].node) && es[i].distance == DistanceTo(v, es[i].node)
    ensures forall u :: u in s ==> u in Keys(es)
  {
    var tagged := Tagged(v, s);
    forall i | 0 <= i < |es|
      ensures es[i].node in s && Fits(v, es[i].node) && es[i].distance == DistanceTo(v, es[i].node)
    {
      assert es[i] in multiset(tagged);
      var k :| 0 <= k < |tagged| && tagged[k] == es[i];
      assert es[i].node == s[k];
    }
    forall u | u in s
      ensures u in Keys(es)
    {
      var k :| 0 <= k < |s| && s[k] == u;
      assert tagged[k] in multiset(es);
      var i :| 0 <= i < |es| && es[i] == tagged[k];
      assert Keys(es)[i] == u;
    }
  }
}
