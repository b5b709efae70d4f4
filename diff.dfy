/**
 * The pure part of the diff between the new visible run and the cells that
 * are currently attached: which indices need a cell, and at which position
 * of the stack a new cell goes.
 */
module Diff {
  import opened Layout

  lemma IncreasingIsDistinct(s: seq<int>)
    requires StrictlyIncreasing(s)
    ensures Distinct(s)
  {
  }

  /** `visibleIndices.filter { visibleCells[$0] == nil }`: the visible indices
      that have no cell yet, in the order of `visibleIndices`. */
  function IndicesToInsert(visibleIndices: seq<int>, attached: set<int>): (r: seq<int>)
    ensures forall i :: i in r <==> i in visibleIndices && i !in attached
    ensures |r| <= |visibleIndices|
  {
    if visibleIndices == [] then []
    else
      var rest := IndicesToInsert(visibleIndices[1..], attached);
      assert forall i :: i in visibleIndices[1..] ==> i in visibleIndices;
      if visibleIndices[0] in attached then rest else [visibleIndices[0]] + rest
  }

  /** The filter keeps the ascending order of the visible run. */
  lemma {:induction false} IndicesToInsertIncreasing(visibleIndices: seq<int>, attached: set<int>)
    requires StrictlyIncreasing(visibleIndices)
    ensures StrictlyIncreasing(IndicesToInsert(visibleIndices, attached))
  {
    if visibleIndices != [] {
      var head, tail := visibleIndices[0], visibleIndices[1..];
      var rest := IndicesToInsert(tail, attached);
      IndicesToInsertIncreasing(tail, attached);
      forall n | 0 <= n < |rest|
        ensures head < rest[n]
      {
        assert rest[n] in rest;
      }
    }
  }

  /** What one pass reports about the diff: `inserted` lists, in ascending
      order, the visible indices that had no cell, and `removed` holds the
      attached indices that are no longer visible. */
  ghost predicate IsDiff(attached: set<int>, visibleIndices: seq<int>, inserted: seq<int>, removed: set<int>) {
    && StrictlyIncreasing(inserted)
    && (forall i :: i in inserted <==> i in visibleIndices && i !in attached)
    && removed == attached - (set i | i in visibleIndices)
  }

  /** Nothing is inserted when every visible index already has a cell. */
  lemma {:induction false} NothingToInsert(visibleIndices: seq<int>, attached: set<int>)
    requires forall i :: i in visibleIndices ==> i in attached
    ensures IndicesToInsert(visibleIndices, attached) == []
  {
    if visibleIndices != [] {
      var head, tail := visibleIndices[0], visibleIndices[1..];
      assert visibleIndices == [head] + tail;
      assert head in attached;
      NothingToInsert(tail, attached);
    }
  }

  /** When the attached indices are already exactly the visible ones, nothing
      is inserted and nothing is removed. */
  lemma RepeatInsertsAndRemovesNothing(visibleIndices: seq<int>, attached: set<int>)
    requires attached == set i | i in visibleIndices
    ensures IndicesToInsert(visibleIndices, attached) == []
    ensures attached - (set i | i in visibleIndices) == {}
  {
    NothingToInsert(visibleIndices, attached);
  }

  /** A second pass over the same sizes and viewport finds the run the first
      one attached, so it inserts and removes nothing. */
  lemma RepeatedPassIsQuiet(s: seq<real>, top: real, bottom: real, previous: seq<int>, visibleIndices: seq<int>,
                            inserted: seq<int>, removed: set<int>)
    requires IsVisibleRun(s, top, bottom, previous) && IsVisibleRun(s, top, bottom, visibleIndices)
    requires IsDiff((set i | i in previous), visibleIndices, inserted, removed)
    ensures inserted == [] && removed == {}
  {
    VisibleRunIsUnique(s, top, bottom, previous, visibleIndices);
    EmptyWhenNoMembers(inserted);
  }

  /** `visibleIndices.firstIndex(of: index)!`: the position of `x` in `s`. */
  function FirstIndexOf(s: seq<int>, x: int): (r: nat)
    requires x in s
    ensures r < |s| && s[r] == x
    ensures forall j :: 0 <= j < r ==> s[j] != x
  {
    if s[0] == x then 0 else 1 + FirstIndexOf(s[1..], x)
  }

  /** In a strictly increasing run the position of `x` is its rank: every
      earlier entry is smaller and every later entry is larger. */
  lemma PositionIsRank(s: seq<int>, x: int)
    requires StrictlyIncreasing(s)
    requires x in s
    ensures forall j :: 0 <= j < FirstIndexOf(s, x) ==> s[j] < x
    ensures forall j :: FirstIndexOf(s, x) < j < |s| ==> s[j] > x
  {
  }
}
