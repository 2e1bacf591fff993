/** List helpers of src/de/metal_land/Util.java. Java lists become sequences; each helper
    builds a fresh list, so its argument is never changed. */
module Util {

  /** A helper's result, or the exception `ArrayList` throws on bad bounds. */
  datatype Outcome<T> = Ok(value: T) | IllegalArgument | IndexOutOfBounds

  /** No element occurs twice. */
  predicate Distinct<T(==)>(s: seq<T>)
  {
    forall i, j :: 0 <= i < j < |s| ==> s[i] != s[j]
  }

  /** The reversal of a sequence: element k is the element |s|-1-k of s. */
  function Reverse<T>(s: seq<T>): (r: seq<T>)
    ensures |r| == |s|
    ensures forall k :: 0 <= k < |s| ==> r[k] == s[|s| - 1 - k]
  {
    if s == [] then [] else [s[|s| - 1]] + Reverse(s[..|s| - 1])
  }

  /** Reversing twice gives back the original sequence. */
  lemma ReverseInvolution<T>(s: seq<T>)
    ensures Reverse(Reverse(s)) == s
  {
    var r := Reverse(Reverse(s));
    assert |r| == |s|;
    forall k | 0 <= k < |s|
      ensures r[k] == s[k]
    {
      assert r[k] == Reverse(s)[|s| - 1 - k];
    }
  }

  /** Reversal preserves the elements and their multiplicities. */
  lemma {:induction false} ReversePermutes<T>(s: seq<T>)
    ensures multiset(Reverse(s)) == multiset(s)
  {
    if s != [] {
      ReversePermutes(s[..|s| - 1]);
      assert s == s[..|s| - 1] + [s[|s| - 1]];
    }
  }

  /** `reverseList`: walks a list iterator backwards from the end and appends each element
      to a fresh list. */
  method ReverseList<T>(list: seq<T>) returns (newList: seq<T>)
    ensures newList == Reverse(list)
  {
    var it := |list|;
    newList := [];
    while it > 0
      invariant 0 <= it <= |list|
      invariant |newList| == |list| - it
      invariant forall k :: 0 <= k < |newList| ==> newList[k] == list[|list| - 1 - k]
    {
      it := it - 1;
      newList := newList + [list[it]];
    }
  }

  /** 2^31: the first value that no longer fits in a Java `int`. */
  const IntLimit: int := 0x8000_0000

  /** A value cut to a Java `int`, as 32-bit two's-complement arithmetic wraps it. */
  function Int32(v: int): (r: int)
    ensures -IntLimit <= r < IntLimit
    ensures (v - r) % (2 * IntLimit) == 0
    ensures -IntLimit <= v < IntLimit ==> r == v
  {
    var m := v % (2 * IntLimit);
    if m >= IntLimit then m - 2 * IntLimit else m
  }

  /** `sublist(list, from, to)`: the elements from index `from` inclusive to `to` exclusive,
      copied one by one. `new ArrayList<>(to - from)` throws when the int difference, which
      wraps, is negative; `list.get(i)` throws for an index outside the list; when
      `to <= from` nothing is read, so such bounds succeed with an empty list. */
  method Sublist<T>(list: seq<T>, from: int, to: int) returns (r: Outcome<seq<T>>)
    requires -IntLimit <= from < IntLimit && -IntLimit <= to < IntLimit
    ensures r == IllegalArgument <==> Int32(to - from) < 0
    ensures r.Ok? <==> Int32(to - from) >= 0 && (to <= from || (0 <= from && to <= |list|))
    ensures r.Ok? ==> |r.value| == (if to <= from then 0 else to - from)
    ensures r.Ok? ==> forall k :: 0 <= k < |r.value| ==> r.value[k] == list[from + k]
    ensures 0 <= from <= to <= |list| ==> r == Ok(list[from..to])
  {
    if Int32(to - from) < 0 {
      return IllegalArgument;
    }
    var newList := [];
    var i := from;
    while i < to
      invariant from <= i && (from < to ==> i <= to) && (to <= from ==> i == from)
      invariant from < i ==> 0 <= from && i <= |list|
      invariant |newList| == i - from
      invariant forall k :: 0 <= k < |newList| ==> newList[k] == list[from + k]
    {
      if i < 0 || i >= |list| {
        return IndexOutOfBounds;
      }
      newList := newList + [list[i]];
      i := i + 1;
    }
    assert 0 <= from <= to <= |list| ==> newList == list[from..to];
    return Ok(newList);
  }

  /** The int difference wraps at both ends: a forward range of 2^31 elements makes the
      capacity negative, and a backward range that far apart makes it positive. */
  lemma SublistCapacityWraps()
    ensures Int32((IntLimit - 1) - (-1)) < 0
    ensures Int32(-2 - (IntLimit - 1)) >= 0
  {
  }

  /** Three adjacent sublists put back together give the whole list, which is how the
      crossing removal reassembles a route. */
  lemma SublistsReassemble<T>(l: seq<T>, i: int, j: int)
    requires 0 <= i <= j <= |l|
    ensures l[0..i] + l[i..j] + l[j..|l|] == l
  {
  }

  /** In a sequence without repetition no value occurs twice. */
  lemma {:induction false} DistinctCount<T>(s: seq<T>, x: T)
    requires Distinct(s)
    ensures multiset(s)[x] <= 1
    decreases |s|
  {
    if s != [] {
      var init, last := s[..|s| - 1], s[|s| - 1];
      assert s == init + [last];
      assert Distinct(init);
      DistinctCount(init, x);
      if x == last {
        assert x !in init;
      }
    }
  }

  /** A value at two positions occurs at least twice. */
  lemma RepeatedCount<T>(s: seq<T>, i: nat, j: nat)
    requires i < j < |s| && s[i] == s[j]
    ensures multiset(s)[s[i]] >= 2
  {
    assert s == s[..i] + [s[i]] + s[i + 1..j] + [s[j]] + s[j + 1..];
  }

  /** A reordering of a sequence without repetition has none either. */
  lemma DistinctPermutation<T>(a: seq<T>, b: seq<T>)
    requires Distinct(a) && multiset(a) == multiset(b)
    ensures Distinct(b)
  {
    forall i, j | 0 <= i < j < |b|
      ensures b[i] != b[j]
    {
      if b[i] == b[j] {
        RepeatedCount(b, i, j);
        DistinctCount(a, b[i]);
      }
    }
  }
}
