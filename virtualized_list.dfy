/**
 * The virtualizing view controller of the Auto Layout list demo: a fixed
 * number of items with cached heights, a dictionary from visible item index to
 * the cell that shows it, a pool of detached cells for reuse, and a scroll
 * anchor that keeps the first visible item still while heights are corrected.
 */
module VirtualizedList {
  import opened Wrappers
  import opened Layout
  import opened Diff

  /** Number of items in the list. */
  const ItemCount := 100
  /** Deliberately wrong height every item starts with in the size cache. */
  const InitialEstimate: real := 25.0

  /** A reusable cell view. `id` is the item it shows, none before its first
      attachment. */
  class Cell {
    var id: Option<int>

    constructor ()
      ensures id == None
    {
      id := None;
    }

    method Attach(index: int)
      modifies this
      ensures id == Some(index)
    {
      id := Some(index);
    }
  }

  /** What one pass changed: cache entries corrected, indices that received a
      cell and indices whose cell went back to the pool. */
  datatype Changes = Changes(invalidatedCachedSizes: seq<int>, insertedIndices: seq<int>, removedIndices: set<int>)
  {
    /** Nothing was corrected, inserted or removed. */
    predicate IsEmpty() {
      |invalidatedCachedSizes| == 0 && |insertedIndices| == 0 && |removedIndices| == 0
    }
  }

  /** A pass that follows a pass over the same sizes and viewport, with the
      same measurements, reports empty changes. */
  lemma RepeatedPassReportsNoChanges(s: seq<real>, attached: set<int>, measured: int -> real,
                                     top: real, bottom: real, previous: seq<int>, visibleIndices: seq<int>,
                                     changes: Changes)
    requires InvalidatedExactly(Refreshed(s, attached, measured), attached, measured, changes.invalidatedCachedSizes)
    requires IsVisibleRun(s, top, bottom, previous) && IsVisibleRun(s, top, bottom, visibleIndices)
    requires IsDiff((set i | i in previous), visibleIndices, changes.insertedIndices, changes.removedIndices)
    ensures changes.IsEmpty()
  {
    RefreshIsIdempotent(s, attached, measured, changes.invalidatedCachedSizes);
    RepeatedPassIsQuiet(s, top, bottom, previous, visibleIndices, changes.insertedIndices, changes.removedIndices);
  }

  /** A key under which a map holds a given value. */
  lemma KeyOf<V>(m: map<int, V>, v: V) returns (k: int)
    requires v in m.Values
    ensures k in m && m[k] == v
  {
    assert exists k :: k in m && m[k] == v by {
      if forall k :: !(k in m && m[k] == v) {
        assert false;
      }
    }
    k :| k in m && m[k] == v;
  }

  /** Adding a fresh key to a map adds exactly its value to the map's values. */
  lemma ValuesOfAdded<V>(m: map<int, V>, k: int, v: V)
    requires k !in m
    ensures m[k := v].Values == m.Values + {v}
  {
    var m' := m[k := v];
    forall x | x in m.Values
      ensures x in m'.Values
    {
      var j := KeyOf(m, x);
      assert m'[j] == x;
    }
    assert m'[k] == v;
  }

  /** Filtering a map by a key set splits its values into those of the kept
      entries and those of the dropped ones. */
  lemma SplitValues<V>(m: map<int, V>, keep: set<int>)
    ensures (map k | k in m && k in keep :: m[k]).Values + (set k | k in m && k !in keep :: m[k]) == m.Values
  {
    var kept := map k | k in m && k in keep :: m[k];
    var dropped := set k | k in m && k !in keep :: m[k];
    forall v | v in m.Values
      ensures v in kept.Values || v in dropped
    {
      var k := KeyOf(m, v);
      if k in keep {
        assert kept[k] == v;
      }
    }
    forall v | v in kept.Values
      ensures v in m.Values
    {
      var k := KeyOf(kept, v);
      assert m[k] == v;
    }
  }

  class RootViewController {
    /** Cached height of every item, corrected from visible cells. */
    const cachedSizes: array<real>
    /** Item index to the cell attached to it. */
    var visibleCells: map<int, Cell>
    /** Detached cells waiting for reuse. */
    var pool: set<Cell>
    /** Scroll anchor: an item index and how far the viewport top lies below that item's top. */
    var visualOffset: Option<(int, real)>
    /** The scroll view's vertical content offset: the viewport top. */
    var contentOffset: real
    /** The scroll view's height: the viewport height. */
    var viewportHeight: real
    /** Height of the spacer above the stack of cells. */
    var topSpacer: real
    /** Height of the spacer below the stack of cells. */
    var bottomSpacer: real

    /** Every attached cell shows its own key, no cell is both attached and
        pooled, and the anchor names an existing item. */
    ghost predicate Valid()
      reads this, visibleCells.Values
    {
      && (forall index :: index in visibleCells ==>
            0 <= index < cachedSizes.Length && visibleCells[index].id == Some(index))
      && pool !! visibleCells.Values
      && (visualOffset.Some? ==> 0 <= visualOffset.value.0 < cachedSizes.Length)
    }

    /** Every cell the controller owns, attached or pooled. */
    ghost function Handles(): set<Cell>
      reads this
    {
      pool + visibleCells.Values
    }

    /** No cell is attached to two items. */
    lemma AttachedCellsAreDistinct(i: int, j: int)
      requires Valid()
      requires i in visibleCells && j in visibleCells && i != j
      ensures visibleCells[i] != visibleCells[j]
    {
    }

    constructor (viewportHeight: real)
      ensures Valid() && fresh(cachedSizes)
      ensures cachedSizes.Length == ItemCount
      ensures forall i :: 0 <= i < cachedSizes.Length ==> cachedSizes[i] == InitialEstimate
      ensures visibleCells == map[] && pool == {} && visualOffset == None
      ensures contentOffset == 0.0 && this.viewportHeight == viewportHeight
      ensures topSpacer == 0.0 && bottomSpacer == 0.0
    {
      cachedSizes := new real[ItemCount](_ => InitialEstimate);
      visibleCells := map[];
      pool := {};
      visualOffset := None;
      contentOffset := 0.0;
      this.viewportHeight := viewportHeight;
      topSpacer := 0.0;
      bottomSpacer := 0.0;
    }

    /** Takes a cell out of the pool, or makes a new one when the pool is empty. */
    method NextCell() returns (cell: Cell)
      modifies this`pool
      ensures old(pool) != {} ==> cell in old(pool) && pool == old(pool) - {cell}
      ensures old(pool) == {} ==> fresh(cell) && cell.id == None && pool == {}
    {
      if pool != {} {
        cell :| cell in pool;
        pool := pool - {cell};
      } else {
        cell := new Cell();
      }
    }

    /** Copies the measured height of every attached cell into the cache and
        reports the indices whose cached height was wrong. */
    method RefreshSizeCache(measured: int -> real) returns (invalidated: seq<int>)
      requires Valid()
      modifies cachedSizes
      ensures cachedSizes[..] == Refreshed(old(cachedSizes[..]), visibleCells.Keys, measured)
      ensures InvalidatedExactly(old(cachedSizes[..]), visibleCells.Keys, measured, invalidated)
    {
      invalidated := [];
      var remaining := visibleCells.Keys;
      while remaining != {}
        invariant remaining <= visibleCells.Keys
        invariant forall i :: 0 <= i < cachedSizes.Length ==>
          cachedSizes[i] == if i in visibleCells && i !in remaining then measured(i) else old(cachedSizes[i])
        invariant forall i :: i in invalidated <==>
          i in visibleCells && i !in remaining && old(cachedSizes[i]) != measured(i)
        invariant Distinct(invalidated)
        decreases remaining
      {
        // Dictionary iteration visits the keys in an unspecified order.
        assert exists i :: i in remaining by {
          if forall i :: i !in remaining {
            assert false;
          }
        }
        var index :| index in remaining;
        if cachedSizes[index] != measured(index) {
          assert forall a :: 0 <= a < |invalidated| ==> invalidated[a] in invalidated;
          invalidated := invalidated + [index];
        }
        cachedSizes[index] := measured(index);
        remaining := remaining - {index};
      }
      assert cachedSizes[..] == Refreshed(old(cachedSizes[..]), visibleCells.Keys, measured);
    }

    /** Drops the cells of items that left the visible run and returns them
        to the pool. */
    method RecycleRemoved(visibleIndices: seq<int>) returns (removedIndices: set<int>)
      requires Valid()
      modifies this`visibleCells, this`pool
      ensures Valid()
      ensures removedIndices == set index | index in old(visibleCells) && index !in visibleIndices
      ensures visibleCells == map index | index in old(visibleCells) && index in visibleIndices :: old(visibleCells)[index]
      ensures pool == old(pool) + set index | index in removedIndices :: old(visibleCells)[index]
      ensures visibleCells.Keys == old(visibleCells).Keys - removedIndices
      ensures pool + visibleCells.Values == old(pool) + old(visibleCells).Values
    {
      removedIndices := set index | index in visibleCells && index !in visibleIndices;
      var removedCells := set index | index in removedIndices :: visibleCells[index];
      var kept := map index | index in visibleCells && index in visibleIndices :: visibleCells[index];
      forall k | k in kept
        ensures kept[k] !in pool && kept[k] !in removedCells
      {
        assert visibleCells[k] in visibleCells.Values;
      }
      SplitValues(visibleCells, set i | i in visibleIndices);
      pool := pool + removedCells;
      visibleCells := kept;
    }

    /** One step of the insertion loop: takes the next cell, attaches it to
        `index` and records it in the dictionary. */
    method AttachOne(visibleIndices: seq<int>, index: int) returns (cell: Cell)
      requires Valid()
      requires 0 <= index < cachedSizes.Length && index !in visibleCells && index in visibleIndices
      modifies this`visibleCells, this`pool, pool
      ensures Valid()
      ensures visibleCells == old(visibleCells)[index := cell]
      ensures visibleCells.Values == old(visibleCells).Values + {cell}
      ensures Handles() == old(Handles()) + {cell}
      ensures old(pool) != {} ==> cell in old(pool) && pool == old(pool) - {cell}
      ensures old(pool) == {} ==> fresh(cell) && pool == {}
      ensures cell.id == Some(index)
      ensures forall c :: c in pool ==> c.id == old(c.id)
    {
      cell := NextCell();
      cell.Attach(index);
      // The slot at which the source inserts the new cell among the
      // arranged views of the stack; the insertion itself is not modelled,
      // and Diff.PositionIsRank states that the slot is the index's rank.
      var position := FirstIndexOf(visibleIndices, index);
      ValuesOfAdded(visibleCells, index, cell);
      visibleCells := visibleCells[index := cell];
    }

    /** Gives a cell to every index in `toInsert` (a pooled one when there is
        one) and attaches it there. */
    method AttachInserted(visibleIndices: seq<int>, toInsert: seq<int>)
      requires Valid()
      requires forall i :: i in toInsert ==> 0 <= i < cachedSizes.Length && i !in visibleCells && i in visibleIndices
      requires Distinct(toInsert)
      modifies this`visibleCells, this`pool, pool
      ensures Valid()
      ensures visibleCells.Keys == old(visibleCells).Keys + set i | i in toInsert
      ensures forall i :: i in old(visibleCells) ==> visibleCells[i] == old(visibleCells)[i]
      ensures pool <= old(pool)
      ensures old(Handles()) <= Handles() && fresh(Handles() - old(Handles()))
      ensures Handles() - old(Handles()) != {} ==> pool == {}
      ensures forall c :: c in old(pool) && c in pool ==> c.id == old(c.id)
    {
      var n := 0;
      while n < |toInsert|
        invariant 0 <= n <= |toInsert|
        invariant Valid()
        invariant visibleCells.Keys == old(visibleCells).Keys + set i | i in toInsert[..n]
        invariant forall i :: i in old(visibleCells) ==> visibleCells[i] == old(visibleCells)[i]
        invariant pool <= old(pool)
        invariant old(Handles()) <= Handles() && fresh(Handles() - old(Handles()))
        invariant Handles() - old(Handles()) != {} ==> pool == {}
        invariant forall c :: c in old(pool) && c in pool ==> c.id == old(c.id)
      {
        var index := toInsert[n];
        assert index !in visibleCells by {
          assert toInsert[n] in toInsert;
          forall k | 0 <= k < n ensures toInsert[k] != index { }
        }
        var cell := AttachOne(visibleIndices, index);
        assert toInsert[..n + 1] == toInsert[..n] + [index];
        n := n + 1;
      }
      assert toInsert[..n] == toInsert;
    }

    /** Brings the attached cells in line with `visibleIndices`: cells of
        indices that left go to the pool, and each index that entered gets a
        cell, in ascending order. */
    method ApplyDiff(visibleIndices: seq<int>) returns (insertedIndices: seq<int>, removedIndices: set<int>)
      requires Valid()
      requires StrictlyIncreasing(visibleIndices)
      requires forall n :: 0 <= n < |visibleIndices| ==> 0 <= visibleIndices[n] < cachedSizes.Length
      modifies this`visibleCells, this`pool, pool, visibleCells.Values
      ensures Valid()
      ensures visibleCells.Keys == set i | i in visibleIndices
      ensures forall i :: i in old(visibleCells) && i in visibleCells ==> visibleCells[i] == old(visibleCells)[i]
      ensures IsDiff(old(visibleCells).Keys, visibleIndices, insertedIndices, removedIndices)
      ensures old(Handles()) <= Handles() && fresh(Handles() - old(Handles()))
      ensures Handles() - old(Handles()) != {} ==> pool == {}
      ensures forall c :: c in old(pool) && c in pool ==> c.id == old(c.id)
    {
      ghost var visibleSet := set i | i in visibleIndices;
      var sortedIndicesToInsert := IndicesToInsert(visibleIndices, visibleCells.Keys);
      IndicesToInsertIncreasing(visibleIndices, visibleCells.Keys);
      IncreasingIsDistinct(sortedIndicesToInsert);
      removedIndices := RecycleRemoved(visibleIndices);
      assert visibleCells.Keys == old(visibleCells).Keys * visibleSet;
      AttachInserted(visibleIndices, sortedIndicesToInsert);
      insertedIndices := sortedIndicesToInsert;
    }

    /** Sizes the spacers above and below the stack to the items before the
        first and after the last visible one. */
    method ApplySpacers(visibleIndices: seq<int>)
      requires |visibleIndices| > 0
      requires 0 <= visibleIndices[0] < cachedSizes.Length
      requires 0 <= visibleIndices[|visibleIndices| - 1] < cachedSizes.Length
      modifies this`topSpacer, this`bottomSpacer
      ensures (topSpacer, bottomSpacer) == Spacers(cachedSizes[..], visibleIndices[0], visibleIndices[|visibleIndices| - 1])
    {
      topSpacer := HeightSumOf(cachedSizes, 0, visibleIndices[0]);
      bottomSpacer := HeightSumOf(cachedSizes, visibleIndices[|visibleIndices| - 1] + 1, cachedSizes.Length);
    }

    /** Scrolls to the stored anchor, or records one from the first visible
        item when there is none. */
    method ResolveAnchor(visibleIndices: seq<int>)
      requires Valid()
      requires |visibleIndices| > 0 && 0 <= visibleIndices[0] < cachedSizes.Length
      modifies this`contentOffset, this`visualOffset
      ensures Valid()
      ensures (visualOffset, contentOffset) == ResolvedAnchor(cachedSizes[..], visibleIndices[0], old(visualOffset), old(contentOffset))
    {
      if visualOffset.Some? {
        var (index, cellOffset) := visualOffset.value;
        var before := HeightSumOf(cachedSizes, 0, index);
        contentOffset := cellOffset + before;
      } else {
        var index := visibleIndices[0];
        var before := HeightSumOf(cachedSizes, 0, index);
        var cellOffset := contentOffset - before;
        visualOffset := Some((index, cellOffset));
      }
    }

    /** The last two steps of a pass. The source force-unwraps the first and
        last visible index, so an empty run traps before either step. */
    method SizeSpacersAndAnchor(visibleIndices: seq<int>) returns (trapped: bool)
      requires Valid()
      requires forall n :: 0 <= n < |visibleIndices| ==> 0 <= visibleIndices[n] < cachedSizes.Length
      modifies this`topSpacer, this`bottomSpacer, this`contentOffset, this`visualOffset
      ensures Valid()
      ensures trapped <==> visibleIndices == []
      ensures trapped ==>
        topSpacer == old(topSpacer) && bottomSpacer == old(bottomSpacer) &&
        contentOffset == old(contentOffset) && visualOffset == old(visualOffset)
      ensures !trapped ==>
        (topSpacer, bottomSpacer) == Spacers(cachedSizes[..], visibleIndices[0], visibleIndices[|visibleIndices| - 1])
      ensures !trapped ==>
        (visualOffset, contentOffset) == ResolvedAnchor(cachedSizes[..], visibleIndices[0], old(visualOffset), old(contentOffset))
    {
      if visibleIndices == [] {
        return true;
      }
      ApplySpacers(visibleIndices);
      ResolveAnchor(visibleIndices);
      return false;
    }

    /** One layout pass: refresh the size cache, select the visible run, diff
        and recycle cells, size the spacers and apply the anchor. The source
        force-unwraps the first and last visible index; when the run is empty
        the pass stops after the diff with `trapped` set. */
    method UpdateVisibleCells(measured: int -> real) returns (changes: Changes, visibleIndices: seq<int>, trapped: bool)
      requires Valid()
      modifies this, cachedSizes, pool, visibleCells.Values
      ensures Valid()
      ensures viewportHeight == old(viewportHeight)
      // size cache
      ensures cachedSizes[..] == Refreshed(old(cachedSizes[..]), old(visibleCells).Keys, measured)
      ensures InvalidatedExactly(old(cachedSizes[..]), old(visibleCells).Keys, measured, changes.invalidatedCachedSizes)
      // visible run, selected at the viewport as it was when the pass began
      ensures IsVisibleRun(cachedSizes[..], old(contentOffset), old(contentOffset) + viewportHeight, visibleIndices)
      // diff and recycling
      ensures visibleCells.Keys == set i | i in visibleIndices
      ensures forall i :: i in old(visibleCells) && i in visibleCells ==> visibleCells[i] == old(visibleCells)[i]
      ensures IsDiff(old(visibleCells).Keys, visibleIndices, changes.insertedIndices, changes.removedIndices)
      ensures old(Handles()) <= Handles() && fresh(Handles() - old(Handles()))
      ensures Handles() - old(Handles()) != {} ==> pool == {}
      ensures forall c :: c in old(pool) && c in pool ==> c.id == old(c.id)
      // the force-unwrapped empty run
      ensures trapped <==> visibleIndices == []
      ensures trapped ==>
        topSpacer == old(topSpacer) && bottomSpacer == old(bottomSpacer) &&
        contentOffset == old(contentOffset) && visualOffset == old(visualOffset)
      // spacers and anchor
      ensures !trapped ==>
        (topSpacer, bottomSpacer) == Spacers(cachedSizes[..], visibleIndices[0], visibleIndices[|visibleIndices| - 1])
      ensures !trapped ==>
        (visualOffset, contentOffset) == ResolvedAnchor(cachedSizes[..], visibleIndices[0], old(visualOffset), old(contentOffset))
    {
      var top := contentOffset;
      var bottom := top + viewportHeight;

      var invalidated := RefreshSizeCache(measured);
      visibleIndices := SelectVisibleIndices(cachedSizes, top, bottom);
      ghost var sizes := cachedSizes[..];
      var insertedIndices, removedIndices := ApplyDiff(visibleIndices);
      changes := Changes(invalidated, insertedIndices, removedIndices);

      trapped := SizeSpacersAndAnchor(visibleIndices);
      assert cachedSizes[..] == sizes;
    }

    /** A scroll by the user drops the anchor before the pass, so a fresh one
        is recorded at the new offset and the offset is left where the user
        put it. */
    method ScrollViewDidScroll(measured: int -> real) returns (changes: Changes, visibleIndices: seq<int>, trapped: bool)
      requires Valid()
      modifies this, cachedSizes, pool, visibleCells.Values
      ensures Valid()
      ensures IsVisibleRun(cachedSizes[..], old(contentOffset), old(contentOffset) + viewportHeight, visibleIndices)
      ensures visibleCells.Keys == set i | i in visibleIndices
      ensures trapped <==> visibleIndices == []
      ensures contentOffset == old(contentOffset)
      ensures !trapped ==>
        (visualOffset, contentOffset) == ResolvedAnchor(cachedSizes[..], visibleIndices[0], None, old(contentOffset))
      ensures trapped ==> visualOffset == None
    {
      visualOffset := None;
      changes, visibleIndices, trapped := UpdateVisibleCells(measured);
    }
  }
}
