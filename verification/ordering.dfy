/**
  Order on sequences of records under `Entity.CompareTo`: what it means
  for a chunk or a file to be sorted, the neighbour-by-neighbour test
  `CheckFileSorted` applies (DataProcessor/DataProcessingHelper.cs), and
  the in-memory `List<Entity>.Sort()` each chunk goes through.
 */
module Ordering {
  import opened Entities

  /** Every record is at most every later one. */
  predicate Sorted(s: seq<Entity>)
  {
    forall i, j | 0 <= i < j < |s| :: Compare(s[i], s[j]) <= 0
  }

  /** No record compares below the one just before it. */
  predicate SortedAdjacent(s: seq<Entity>)
  {
    forall i | 1 <= i < |s| :: !(Compare(s[i], s[i - 1]) < 0)
  }

  /** The neighbour test decides sortedness in both directions. */
  lemma {:induction false} SortedIffAdjacent(s: seq<Entity>)
    ensures Sorted(s) <==> SortedAdjacent(s)
  {
    if Sorted(s) {
      forall i | 1 <= i < |s|
        ensures !(Compare(s[i], s[i - 1]) < 0)
      {
        CompareAntisymmetric(s[i], s[i - 1]);
      }
    }
    if SortedAdjacent(s) {
      forall i, j | 0 <= i < j < |s|
        ensures Compare(s[i], s[j]) <= 0
      {
        AdjacentSpan(s, i, j);
      }
    }
  }

  lemma {:induction false} AdjacentSpan(s: seq<Entity>, i: nat, j: nat)
    requires SortedAdjacent(s)
    requires i < j < |s|
    ensures Compare(s[i], s[j]) <= 0
    decreases j - i
  {
    CompareAntisymmetric(s[j], s[j - 1]);
    if i < j - 1 {
      AdjacentSpan(s, i, j - 1);
      CompareTransitive(s[i], s[j - 1], s[j]);
    }
  }

  /** A sorted sequence stays sorted when a record no smaller than its last is appended. */
  lemma SortedSnoc(s: seq<Entity>, e: Entity)
    requires Sorted(s)
    requires |s| > 0 ==> Compare(s[|s| - 1], e) <= 0
    ensures Sorted(s + [e])
  {
    forall i | 0 <= i < |s|
      ensures Compare(s[i], e) <= 0
    {
      if i < |s| - 1 {
        CompareTransitive(s[i], s[|s| - 1], e);
      }
    }
  }

  /** A record at most every element of a sorted sequence can go in front of it. */
  lemma SortedCons(e: Entity, s: seq<Entity>)
    requires Sorted(s)
    requires forall x | x in s :: Compare(e, x) <= 0
    ensures Sorted([e] + s)
  {
    var r := [e] + s;
    forall i, j | 0 <= i < j < |r|
      ensures Compare(r[i], r[j]) <= 0
    {
      if i > 0 {
        assert r[i] == s[i - 1] && r[j] == s[j - 1];
      } else {
        assert r[j] in s;
      }
    }
  }

  /** Every record of a sorted sequence is at least its first. */
  lemma FirstIsLeast(s: seq<Entity>, e: Entity)
    requires Sorted(s) && |s| > 0
    requires Compare(e, s[0]) <= 0
    ensures forall x | x in s :: Compare(e, x) <= 0
  {
    forall x | x in s
      ensures Compare(e, x) <= 0
    {
      var k :| 0 <= k < |s| && s[k] == x;
      if k > 0 {
        CompareTransitive(e, s[0], x);
      }
    }
  }

  /** A lower bound of `tail` and of `e` bounds anything made of exactly those records. */
  lemma LowerBoundOfBag(b: Entity, e: Entity, tail: seq<Entity>, r: seq<Entity>)
    requires multiset(r) == multiset(tail) + multiset{e}
    requires Compare(b, e) <= 0
    requires forall x | x in tail :: Compare(b, x) <= 0
    ensures forall x | x in r :: Compare(b, x) <= 0
  {
    forall x | x in r
      ensures Compare(b, x) <= 0
    {
      assert x in multiset(r);
      assert x == e || x in multiset(tail);
    }
  }

  /**
    One step of the chunk sort: puts `e` in front of the first record it
    does not exceed.
   */
  function Insert(e: Entity, s: seq<Entity>): (r: seq<Entity>)
    requires Sorted(s)
    ensures Sorted(r)
    ensures multiset(r) == multiset(s) + multiset{e}
  {
    if |s| == 0 then [e]
    else if Compare(e, s[0]) <= 0 then
      FirstIsLeast(s, e);
      SortedCons(e, s);
      [e] + s
    else
      var rest := Insert(e, s[1..]);
      InsertBehindHead(e, s, rest);
      [s[0]] + rest
  }

  /** When `e` exceeds the head, the head stays in front of the tail with `e` inserted. */
  lemma InsertBehindHead(e: Entity, s: seq<Entity>, rest: seq<Entity>)
    requires Sorted(s) && |s| > 0 && Compare(e, s[0]) > 0
    requires Sorted(rest) && multiset(rest) == multiset(s[1..]) + multiset{e}
    ensures Sorted([s[0]] + rest)
    ensures multiset([s[0]] + rest) == multiset(s) + multiset{e}
  {
    var tail := s[1..];
    CompareAntisymmetric(e, s[0]);
    CompareReflexive(s[0]);
    FirstIsLeast(s, s[0]);
    assert s == [s[0]] + tail;
    assert forall x | x in tail :: x in s;
    LowerBoundOfBag(s[0], e, tail, rest);
    SortedCons(s[0], rest);
  }

  /**
    `List<Entity>.Sort()`: a sorted permutation of the chunk. The library
    sort is not stable, so records that compare equal (texts equal up to
    case, same number) may come out in any order; this model fixes one.
   */
  function SortEntities(s: seq<Entity>): (r: seq<Entity>)
    ensures Sorted(r)
    ensures multiset(r) == multiset(s)
  {
    if |s| == 0 then []
    else
      assert s == s[..|s| - 1] + [s[|s| - 1]];
      Insert(s[|s| - 1], SortEntities(s[..|s| - 1]))
  }
}
