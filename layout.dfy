/**
 * Geometry of the vertical stack of cells: where each item sits given the
 * cached heights, which items a viewport shows, and how a scroll anchor is
 * turned back into a scroll offset. Heights are exact reals (CGFloat rounding
 * is not modelled).
 */
module Layout {
  import opened Wrappers

  /** The stack view's spacing between consecutive cells. */
  const Spacing: real := 8.0

  predicate NonNegative(s: seq<real>) {
    forall i :: 0 <= i < |s| ==> s[i] >= 0.0
  }

  predicate StrictlyIncreasing(s: seq<int>) {
    forall i, j :: 0 <= i < j < |s| ==> s[i] < s[j]
  }

  predicate Distinct(s: seq<int>) {
    forall a, b :: 0 <= a < b < |s| ==> s[a] != s[b]
  }

  /** The first entry of a run, or 0 for an empty one. */
  function Head(s: seq<int>): int {
    if |s| > 0 then s[0] else 0
  }

  /** A sequence with no members is empty. */
  lemma EmptyWhenNoMembers(s: seq<int>)
    requires forall i :: i !in s
    ensures s == []
  {
    assert |s| == 0 || Head(s) in s;
  }

  /** Sum of `s[j] + Spacing` over `lo <= j < hi`: the height the items of
      that range take up in the stack, each with the gap that follows it. */
  function HeightSum(s: seq<real>, lo: int, hi: int): real
    requires 0 <= lo <= hi <= |s|
    decreases hi - lo
  {
    if lo == hi then 0.0 else HeightSum(s, lo, hi - 1) + (s[hi - 1] + Spacing)
  }

  function CellTop(s: seq<real>, i: int): real
    requires 0 <= i < |s|
  {
    HeightSum(s, 0, i)
  }

  function CellBottom(s: seq<real>, i: int): real
    requires 0 <= i < |s|
  {
    CellTop(s, i) + s[i]
  }

  /** Item `i` touches the closed viewport interval `[top, bottom]`. */
  predicate Intersects(s: seq<real>, i: int, top: real, bottom: real)
    requires 0 <= i < |s|
  {
    CellBottom(s, i) >= top && CellTop(s, i) <= bottom
  }

  /** The scan over the items has not stopped before item `i`: no earlier item
      starts below the viewport. */
  predicate Reached(s: seq<real>, i: int, bottom: real)
    requires 0 <= i <= |s|
  {
    forall j :: 0 <= j < i ==> CellTop(s, j) <= bottom
  }

  /** Item `i` is selected by the scan: it is reached and it touches the viewport. */
  predicate InWindow(s: seq<real>, i: int, top: real, bottom: real) {
    0 <= i < |s| && Reached(s, i, bottom) && Intersects(s, i, top, bottom)
  }

  /** `r` is the scan's result for sizes `s` and viewport `[top, bottom]`: the
      selected items, in ascending order. */
  ghost predicate IsVisibleRun(s: seq<real>, top: real, bottom: real, r: seq<int>) {
    && StrictlyIncreasing(r)
    && (forall n :: 0 <= n < |r| ==> 0 <= r[n] < |s|)
    && (forall i :: i in r <==> InWindow(s, i, top, bottom))
  }

  /** The size cache after the measured height of every attached item has
      been copied into it. */
  function Refreshed(s: seq<real>, attached: set<int>, measured: int -> real): seq<real> {
    seq(|s|, i requires 0 <= i < |s| => if i in attached then measured(i) else s[i])
  }

  /** `invalidated` names, once each, exactly the attached items whose cached
      height differed from the measured one. */
  ghost predicate InvalidatedExactly(s: seq<real>, attached: set<int>, measured: int -> real, invalidated: seq<int>) {
    && Distinct(invalidated)
    && (forall i :: i in invalidated <==> i in attached && 0 <= i < |s| && s[i] != measured(i))
  }

  /** Heights of the spacers above and below a visible run from `first` to `last`. */
  function Spacers(s: seq<real>, first: int, last: int): (real, real)
    requires 0 <= first < |s| && 0 <= last < |s|
  {
    (HeightSum(s, 0, first), HeightSum(s, last + 1, |s|))
  }

  // ---------------------------------------------------------------------------
  // Properties of HeightSum

  lemma {:induction false} HeightSumSplit(s: seq<real>, lo: int, mid: int, hi: int)
    requires 0 <= lo <= mid <= hi <= |s|
    ensures HeightSum(s, lo, hi) == HeightSum(s, lo, mid) + HeightSum(s, mid, hi)
    decreases hi - mid
  {
    if mid < hi {
      HeightSumSplit(s, lo, mid, hi - 1);
    }
  }

  /** The height of a range depends only on the sizes inside that range. */
  lemma {:induction false} HeightSumFrame(s: seq<real>, t: seq<real>, lo: int, hi: int)
    requires 0 <= lo <= hi <= |s| && hi <= |t|
    requires forall j :: lo <= j < hi ==> s[j] == t[j]
    ensures HeightSum(s, lo, hi) == HeightSum(t, lo, hi)
    decreases hi - lo
  {
    if lo < hi {
      HeightSumFrame(s, t, lo, hi - 1);
    }
  }

  lemma {:induction false} HeightSumNonNegative(s: seq<real>, lo: int, hi: int)
    requires NonNegative(s)
    requires 0 <= lo <= hi <= |s|
    ensures HeightSum(s, lo, hi) >= 0.0
    decreases hi - lo
  {
    if lo < hi {
      HeightSumNonNegative(s, lo, hi - 1);
    }
  }

  /** With non-negative sizes, a later item starts at least one full cell and
      one gap below an earlier one. */
  lemma TopsIncrease(s: seq<real>, i: int, j: int)
    requires NonNegative(s)
    requires 0 <= i < j < |s|
    ensures CellTop(s, j) >= CellBottom(s, i) + Spacing
  {
    HeightSumSplit(s, 0, i + 1, j);
    HeightSumNonNegative(s, i + 1, j);
  }

  /** The leading spacer, the visible block and the trailing spacer together
      are as tall as the whole list. */
  lemma SpacersAddUp(s: seq<real>, first: int, last: int)
    requires 0 <= first <= last < |s|
    ensures Spacers(s, first, last).0 + HeightSum(s, first, last + 1) + Spacers(s, first, last).1
            == HeightSum(s, 0, |s|)
  {
    HeightSumSplit(s, 0, first, last + 1);
    HeightSumSplit(s, 0, last + 1, |s|);
  }

  // ---------------------------------------------------------------------------
  // Properties of the visible window

  /** With non-negative sizes the early exit of the scan loses nothing: the
      window is exactly the set of items that touch the viewport. */
  lemma WindowIsIntersection(s: seq<real>, top: real, bottom: real, i: int)
    requires NonNegative(s)
    requires 0 <= i < |s|
    ensures InWindow(s, i, top, bottom) <==> Intersects(s, i, top, bottom)
  {
    if Intersects(s, i, top, bottom) {
      forall j | 0 <= j < i
        ensures CellTop(s, j) <= bottom
      {
        TopsIncrease(s, j, i);
        assert s[j] >= 0.0;
      }
    }
  }

  /** With non-negative sizes the window has no holes. */
  lemma WindowContiguous(s: seq<real>, top: real, bottom: real, i: int, j: int, k: int)
    requires NonNegative(s)
    requires i <= j <= k
    requires InWindow(s, i, top, bottom) && InWindow(s, k, top, bottom)
    ensures InWindow(s, j, top, bottom)
  {
    if i < j {
      TopsIncrease(s, i, j);
      assert s[j] >= 0.0;
    }
    if j < k {
      TopsIncrease(s, j, k);
    }
    WindowIsIntersection(s, top, bottom, j);
  }

  /** A strictly increasing list of exactly the window's items is a run of
      consecutive indices. */
  lemma WindowRunIsConsecutive(s: seq<real>, top: real, bottom: real, r: seq<int>)
    requires NonNegative(s)
    requires StrictlyIncreasing(r)
    requires forall i :: i in r <==> InWindow(s, i, top, bottom)
    ensures forall n :: 0 <= n < |r| - 1 ==> r[n + 1] == r[n] + 1
  {
    forall n | 0 <= n < |r| - 1
      ensures r[n + 1] == r[n] + 1
    {
      assert r[n] in r && r[n + 1] in r;
      var m := r[n] + 1;
      WindowContiguous(s, top, bottom, r[n], m, r[n + 1]);
      assert m in r;
      var p :| 0 <= p < |r| && r[p] == m;
      assert n < p <= n + 1;
    }
  }

  /** A viewport that lies strictly inside the gap after item `i` shows no
      item at all. */
  lemma WindowEmptyInGap(s: seq<real>, top: real, bottom: real, i: int)
    requires NonNegative(s)
    requires 0 <= i < |s|
    requires CellBottom(s, i) < top && bottom < CellBottom(s, i) + Spacing
    ensures forall j :: !InWindow(s, j, top, bottom)
  {
    forall j | 0 <= j < |s|
      ensures !Intersects(s, j, top, bottom)
    {
      if j < i {
        TopsIncrease(s, j, i);
        assert CellBottom(s, j) <= CellTop(s, i) - Spacing;
        assert s[i] >= 0.0;
      } else if i < j {
        TopsIncrease(s, i, j);
      }
    }
  }

  /** Items that all have height `c` start at multiples of `c + Spacing`. */
  lemma {:induction false} UniformTops(s: seq<real>, c: real, i: int)
    requires forall j :: 0 <= j < |s| ==> s[j] == c
    requires 0 <= i <= |s|
    ensures HeightSum(s, 0, i) == (i as real) * (c + Spacing)
  {
    if i > 0 {
      UniformTops(s, c, i - 1);
      assert ((i - 1) as real) * (c + Spacing) + (c + Spacing) == (i as real) * (c + Spacing);
    }
  }

  /** One hundred items at the initial estimate of 25 in an 800-point
      viewport at the top: the window is items 0 to 24. */
  lemma InitialWindow(s: seq<real>, i: int)
    requires |s| == 100 && forall j :: 0 <= j < |s| ==> s[j] == 25.0
    ensures InWindow(s, i, 0.0, 800.0) <==> 0 <= i <= 24
  {
    if 0 <= i < |s| {
      UniformTops(s, 25.0, i);
      WindowIsIntersection(s, 0.0, 800.0, i);
    }
  }

  /** The tail of an ascending run holds the members above its head. */
  lemma TailMembers(a: seq<int>)
    requires StrictlyIncreasing(a) && a != []
    ensures forall i :: i in a[1..] <==> i in a && i > a[0]
  {
  }

  /** Two ascending runs with the same members are the same run. */
  lemma {:induction false} SameMembersSameRun(a: seq<int>, b: seq<int>)
    requires StrictlyIncreasing(a) && StrictlyIncreasing(b)
    requires forall i :: i in a <==> i in b
    ensures a == b
    decreases |a|
  {
    assert |a| == 0 || Head(a) in b;
    assert |b| == 0 || Head(b) in a;
    if |a| > 0 && |b| > 0 {
      assert a[0] == b[0];
      TailMembers(a);
      TailMembers(b);
      SameMembersSameRun(a[1..], b[1..]);
      assert a == [a[0]] + a[1..] && b == [b[0]] + b[1..];
    }
  }

  /** The scan's result is determined by the sizes and the viewport. */
  lemma VisibleRunIsUnique(s: seq<real>, top: real, bottom: real, r: seq<int>, r': seq<int>)
    requires IsVisibleRun(s, top, bottom, r) && IsVisibleRun(s, top, bottom, r')
    ensures r == r'
  {
    SameMembersSameRun(r, r');
  }

  /** Refreshing again with the same measurements changes no entry and
      invalidates nothing. */
  lemma RefreshIsIdempotent(s: seq<real>, attached: set<int>, measured: int -> real, invalidated: seq<int>)
    requires InvalidatedExactly(Refreshed(s, attached, measured), attached, measured, invalidated)
    ensures Refreshed(Refreshed(s, attached, measured), attached, measured) == Refreshed(s, attached, measured)
    ensures invalidated == []
  {
    EmptyWhenNoMembers(invalidated);
  }

  // ---------------------------------------------------------------------------
  // Scroll anchor

  /** The scroll offset that puts the top of item `index` `cellOffset` points
      above the top of the viewport. */
  function AnchoredOffset(s: seq<real>, index: int, cellOffset: real): real
    requires 0 <= index <= |s|
  {
    cellOffset + HeightSum(s, 0, index)
  }

  /** The anchor step at the end of a pass whose first visible item is
      `first`: an existing anchor `(index, cellOffset)` is kept and moves the
      scroll offset to `AnchoredOffset`; without one, an anchor is recorded
      from `first` and the offset stays. Yields the new anchor and offset. */
  function ResolvedAnchor(s: seq<real>, first: int, anchor: Option<(int, real)>, contentOffset: real): (Option<(int, real)>, real)
    requires 0 <= first < |s|
    requires anchor.Some? ==> 0 <= anchor.value.0 < |s|
  {
    match anchor
    case Some((index, cellOffset)) => (anchor, AnchoredOffset(s, index, cellOffset))
    case None => (Some((first, contentOffset - HeightSum(s, 0, first))), contentOffset)
  }

  /** Recording an anchor at `contentOffset` and applying it with the same
      sizes gives `contentOffset` back. */
  lemma AnchorRoundTrip(s: seq<real>, index: int, contentOffset: real)
    requires 0 <= index <= |s|
    ensures AnchoredOffset(s, index, contentOffset - HeightSum(s, 0, index)) == contentOffset
  {
  }

  /** With unchanged sizes, a second anchor step changes neither the anchor
      nor the offset the first one produced, whatever the visible run: a pass
      with nothing to correct does not move the list. */
  lemma ResolveAnchorIsStable(s: seq<real>, first: int, first': int, anchor: Option<(int, real)>, contentOffset: real)
    requires 0 <= first < |s| && 0 <= first' < |s|
    requires anchor.Some? ==> 0 <= anchor.value.0 < |s|
    ensures ResolvedAnchor(s, first', ResolvedAnchor(s, first, anchor, contentOffset).0,
                           ResolvedAnchor(s, first, anchor, contentOffset).1)
            == ResolvedAnchor(s, first, anchor, contentOffset)
  {
  }

  /** Applying an anchor does not depend on the sizes of the anchor item or
      of any item after it. */
  lemma AnchorIgnoresLaterSizes(s: seq<real>, t: seq<real>, index: int, cellOffset: real)
    requires 0 <= index <= |s| && index <= |t|
    requires forall j :: 0 <= j < index ==> s[j] == t[j]
    ensures AnchoredOffset(s, index, cellOffset) == AnchoredOffset(t, index, cellOffset)
  {
    HeightSumFrame(s, t, 0, index);
  }

  // ---------------------------------------------------------------------------
  // The loops of updateVisibleCells that only read the size cache

  /** The nested `heightSum(for:)`: an accumulator loop over a range of the cache. */
  method HeightSumOf(sizes: array<real>, lo: int, hi: int) returns (sum: real)
    requires 0 <= lo <= hi <= sizes.Length
    ensures sum == HeightSum(sizes[..], lo, hi)
  {
    sum := 0.0;
    for j := lo to hi
      invariant sum == HeightSum(sizes[..], lo, j)
    {
      sum := sum + (sizes[j] + Spacing);
    }
  }

  /** The scan that collects the items touching `[top, bottom]`, stopping at
      the first item that starts below `bottom`. */
  method SelectVisibleIndices(sizes: array<real>, top: real, bottom: real) returns (visibleIndices: seq<int>)
    ensures IsVisibleRun(sizes[..], top, bottom, visibleIndices)
    ensures NonNegative(sizes[..]) ==> forall n :: 0 <= n < |visibleIndices| - 1 ==> visibleIndices[n + 1] == visibleIndices[n] + 1
  {
    ghost var s := sizes[..];
    visibleIndices := [];
    var current := 0.0;
    var i := 0;
    while i < sizes.Length
      invariant 0 <= i <= sizes.Length
      invariant current == HeightSum(s, 0, i)
      invariant Reached(s, i, bottom)
      invariant StrictlyIncreasing(visibleIndices)
      invariant forall n :: 0 <= n < |visibleIndices| ==> 0 <= visibleIndices[n] < i
      invariant forall k :: k in visibleIndices <==> 0 <= k < i && InWindow(s, k, top, bottom)
    {
      var cellTop := current;
      var cellBottom := current + sizes[i];
      if cellTop > bottom {
        assert CellTop(s, i) > bottom;
        break;
      }
      if cellBottom >= top && cellTop <= bottom {
        visibleIndices := visibleIndices + [i];
      }
      current := cellBottom + Spacing;
      i := i + 1;
    }
    if NonNegative(s) {
      WindowRunIsConsecutive(s, top, bottom, visibleIndices);
    }
  }
}
