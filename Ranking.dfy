/**
 * The selection logic of `print_top_x` (phraser.py:145-155): the phrases are
 * ordered by count, highest first, and the first `topX` of them are numbered
 * from 1. The ranked entries are returned instead of printed as
 * `#rank:\t(count) phrase`.
 */
module Ranking {

  /** One printed line: its rank, the phrase's count and the phrase. */
  datatype Entry = Entry(rank: nat, count: nat, phrase: string)

  /** `order` lists every phrase exactly once, highest count first. */
  predicate SortedByCount(phrases: map<string, nat>, order: seq<string>) {
    (forall n :: 0 <= n < |order| ==> order[n] in phrases) &&
    (forall p :: p in phrases ==> p in order) &&
    (forall n, m :: 0 <= n < m < |order| ==> order[n] != order[m]) &&
    (forall n, m :: 0 <= n < m < |order| ==> phrases[order[n]] >= phrases[order[m]])
  }

  /** A non-empty set of phrases has one whose count no other beats. */
  lemma {:induction false} MaxExists(phrases: map<string, nat>, s: set<string>)
    requires s != {} && s <= phrases.Keys
    ensures exists p :: p in s && forall q :: q in s ==> phrases[q] <= phrases[p]
    decreases |s|
  {
    var x :| x in s;
    var rest := s - {x};
    if rest != {} {
      MaxExists(phrases, rest);
      var p :| p in rest && forall q :: q in rest ==> phrases[q] <= phrases[p];
      if phrases[x] > phrases[p] {
        assert forall q :: q in s ==> phrases[q] <= phrases[x];
      } else {
        assert forall q :: q in s ==> phrases[q] <= phrases[p];
      }
    } else {
      assert s == {x} by {
        forall q | q in s ensures q == x {
          assert q !in rest;
        }
      }
    }
  }

  /** `sorted(phrases.keys(), key = lambda x: phrases[x], reverse=True)`: the
      phrases, highest count first. Among equal counts any order may come out. */
  method SortByCount(phrases: map<string, nat>) returns (order: seq<string>)
    ensures SortedByCount(phrases, order)
    ensures |order| == |phrases|
  {
    order := [];
    var remaining := phrases.Keys;
    while remaining != {}
      invariant remaining <= phrases.Keys
      invariant forall n :: 0 <= n < |order| ==> order[n] in phrases && order[n] !in remaining
      invariant forall p :: p in phrases ==> p in order || p in remaining
      invariant forall n, m :: 0 <= n < m < |order| ==> order[n] != order[m]
      invariant forall n, m :: 0 <= n < m < |order| ==> phrases[order[n]] >= phrases[order[m]]
      invariant forall n, p :: 0 <= n < |order| && p in remaining ==> phrases[order[n]] >= phrases[p]
      decreases |remaining|
    {
      MaxExists(phrases, remaining);
      var p :| p in remaining && forall q :: q in remaining ==> phrases[q] <= phrases[p];
      order := order + [p];
      remaining := remaining - {p};
    }
    DistinctCovers(phrases, order);
  }

  /** A list of distinct phrases from the dictionary that names each of them
      is as long as the dictionary. */
  lemma DistinctCovers(phrases: map<string, nat>, order: seq<string>)
    requires SortedByCount(phrases, order)
    ensures |order| == |phrases|
  {
    var s := set n | 0 <= n < |order| :: order[n];
    assert s == phrases.Keys;
    DistinctCardinality(order);
  }

  /** A sequence without repetitions has as many distinct elements as entries. */
  lemma {:induction false} DistinctCardinality(xs: seq<string>)
    requires forall n, m :: 0 <= n < m < |xs| ==> xs[n] != xs[m]
    ensures |set n | 0 <= n < |xs| :: xs[n]| == |xs|
  {
    if xs != [] {
      var init := xs[..|xs| - 1];
      DistinctCardinality(init);
      var s := set n | 0 <= n < |xs| :: xs[n];
      var si := set n | 0 <= n < |init| :: init[n];
      assert s == si + {xs[|xs| - 1]};
      assert xs[|xs| - 1] !in si;
    }
  }

  /** The ranking loop of `print_top_x`: walks the sorted phrases with the
      counter `i` starting at 1 and stops once `i` exceeds `topX`. The result
      has `min(topX, |phrases|)` entries numbered 1, 2, ... with non-increasing
      counts, each the count of a distinct phrase of the dictionary, and no
      phrase left out has a higher count than one kept. */
  method RankTop(phrases: map<string, nat>, topX: nat) returns (ranked: seq<Entry>)
    ensures |ranked| == if topX <= |phrases| then topX else |phrases|
    ensures forall n :: 0 <= n < |ranked| ==> ranked[n].rank == n + 1
    ensures forall n :: 0 <= n < |ranked| ==>
      ranked[n].phrase in phrases && ranked[n].count == phrases[ranked[n].phrase]
    ensures forall n, m :: 0 <= n < m < |ranked| ==> ranked[n].count >= ranked[m].count
    ensures forall n, m :: 0 <= n < m < |ranked| ==> ranked[n].phrase != ranked[m].phrase
    ensures forall p, n :: p in phrases && 0 <= n < |ranked| && !Ranked(ranked, p) ==> phrases[p] <= ranked[n].count
  {
    var order := SortByCount(phrases);
    ranked := [];
    var i := 1;
    var j := 0;
    while j < |order|
      invariant 0 <= j <= |order| && i == j + 1 && j <= topX
      invariant |ranked| == j
      invariant forall n :: 0 <= n < j ==> ranked[n] == Entry(n + 1, phrases[order[n]], order[n])
    {
      var p := order[j];
      if i > topX {
        break;
      }
      ranked := ranked + [Entry(i, phrases[p], p)];
      i := i + 1;
      j := j + 1;
    }
    LeftOutNotHigher(phrases, order, ranked);
  }

  /** Entries taken from the front of the sorted phrases leave out no phrase
      with a higher count than any of them. */
  lemma LeftOutNotHigher(phrases: map<string, nat>, order: seq<string>, ranked: seq<Entry>)
    requires SortedByCount(phrases, order) && |ranked| <= |order|
    requires forall n :: 0 <= n < |ranked| ==> ranked[n] == Entry(n + 1, phrases[order[n]], order[n])
    ensures forall p, n :: p in phrases && 0 <= n < |ranked| && !Ranked(ranked, p) ==> phrases[p] <= ranked[n].count
  {
    forall p, n | p in phrases && 0 <= n < |ranked| && !Ranked(ranked, p)
      ensures phrases[p] <= ranked[n].count
    {
      var m :| 0 <= m < |order| && order[m] == p;
      assert m >= |ranked|;
    }
  }

  /** Phrase `p` has an entry in `ranked`. */
  predicate Ranked(ranked: seq<Entry>, p: string) {
    exists n :: 0 <= n < |ranked| && ranked[n].phrase == p
  }
}
