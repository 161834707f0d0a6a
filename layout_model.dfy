/**
 * Values of the lazy layout engine: an item's layout attributes, the data
 * source the section consults, the packing cursor, and the arithmetic of the
 * section's height. Also the two loops of the section whose code, as
 * written, can run forever.
 */
module LayoutModel {
  import opened Geometry
  import opened Wrappers

  datatype ScrollDirection = Vertical | Horizontal

  /**
   * One item's attributes. `originalFrame` is the packing ground truth in
   * the parent's coordinates; `frame` is what is reported, after the parent
   * offset and any behaviour overlay.
   */
  datatype Attr = Attr(
    index: int,
    identifier: string,
    frame: Rect,
    originalFrame: Rect,
    isEstimateSize: bool,
    hidden: bool,
    zIndex: int,
    alpha: real)

  /**
   * Everything the section asks its data source, as a fixed table: per-index
   * width for a total width, per-index size for a width, identifiers,
   * z-indices and estimate flags, the downstream indices that are computed
   * regardless of the frame of interest, and the section-wide settings.
   */
  datatype DataSource = DataSource(
    alignRowHeights: bool,
    scrollDirection: ScrollDirection,
    frameOfInterest: Rect,
    edgeInsets: EdgeInsets,
    inset: real,
    width: (int, real) -> real,
    size: (int, real) -> Size,
    identifier: int -> string,
    zIndex: int -> int,
    isEstimate: int -> bool,
    downstream: seq<int>)

  /** What the section reads of the attributes that stand for it one level up. */
  datatype ParentAttrs = ParentAttrs(originalFrame: Rect, hidden: bool)

  /** The packing cursor threaded through the items: next origin and the row's bottom edge. */
  datatype Cursor = Cursor(x: real, y: real, maxY: real)

  /** The height override installed when an item reports its exact height. */
  datatype HeightOverride = NoOverride | Override(at: int)

  /** A freshly created attribute: identity and estimate flag from the data source, everything else zero. */
  function NewAttr(index: int, ds: DataSource): (a: Attr)
    ensures a.index == index && a.identifier == ds.identifier(index)
    ensures a.isEstimateSize == ds.isEstimate(index) && !a.hidden && a.alpha == 1.0
  {
    Attr(index, ds.identifier(index), ZeroRect, ZeroRect, ds.isEstimate(index), false, 0, 1.0)
  }

  /**
   * The attribute after `invalidate(at:)`: an estimate again, its original
   * and reported frames reset to the origin with the size the data source
   * gives it now.
   */
  function ResetAttr(a: Attr, size: Size): Attr
  {
    a.(isEstimateSize := true, originalFrame := Rect(0.0, 0.0, size.w, size.h), frame := Rect(0.0, 0.0, size.w, size.h))
  }

  /**
   * `b` differs from `a` at most in the vertical position and height of its
   * reported frame: what row alignment and origin compensation may change.
   */
  ghost predicate LayoutKept(a: Attr, b: Attr)
  {
    && b.index == a.index && b.identifier == a.identifier && b.originalFrame == a.originalFrame
    && b.isEstimateSize == a.isEstimateSize && b.hidden == a.hidden && b.zIndex == a.zIndex
    && b.alpha == a.alpha && b.frame.x == a.frame.x && b.frame.w == a.frame.w
  }

  /**
   * The attribute after its section moved by `(dx, dy)`: the reported frame
   * always moves; the original frame moves too unless the move comes from a
   * layout behavior.
   */
  function Moved(a: Attr, dx: real, dy: real, fromBehaviors: bool): Attr
  {
    a.(frame := a.frame.Translate(dx, dy),
       originalFrame := if fromBehaviors then a.originalFrame else a.originalFrame.Translate(dx, dy))
  }

  /** The attributes stored at `k` before a pass, if any. */
  function Prior(m: map<int, Attr>, k: int): Option<Attr>
  {
    if k in m then Some(m[k]) else None
  }

  /**
   * An existing attribute keeps its measured height when its (standardized)
   * width is unchanged and the pass does not invalidate.
   */
  predicate Reuse(o: Attr, width: real, invalidate: bool)
  {
    !invalidate && o.originalFrame.Width() == width
  }

  /**
   * The exact-height override applies to `a`: it is still an estimate and
   * shares the identifier of the item whose height was reported.
   */
  predicate OverrideApplies(custom: HeightOverride, a: Attr, attrs: map<int, Attr>)
  {
    custom.Override? && a.isEstimateSize && custom.at in attrs && a.identifier == attrs[custom.at].identifier
  }

  /**
   * What one computation of the item at `index` guarantees, apart from its
   * position: the key is its index, alpha follows hidden, a new item takes
   * identity, estimate flag, z-index and size from the data source, and an
   * existing one keeps identity and visibility and re-queries its size
   * unless its measured height can be reused.
   */
  ghost predicate Computed(a: Attr, prior: Option<Attr>, index: int, ds: DataSource, width: real, invalidate: bool)
  {
    && a.index == index
    && a.alpha == (if a.hidden then 0.0 else 1.0)
    && match prior
       case None =>
         && a.identifier == ds.identifier(index)
         && !a.hidden
         && a.isEstimateSize == ds.isEstimate(index)
         && a.zIndex == ds.zIndex(index)
         && a.originalFrame.w == ds.size(index, width).w
         && a.originalFrame.h == ds.size(index, width).h
       case Some(o) =>
         && a.identifier == o.identifier
         && a.hidden == o.hidden
         && a.isEstimateSize == (if invalidate then ds.isEstimate(index) else o.isEstimateSize)
         && a.zIndex == (if invalidate then ds.zIndex(index) else o.zIndex)
         && if Reuse(o, width, invalidate) then a.originalFrame.w == width
            else a.originalFrame.w == ds.size(index, width).w && a.originalFrame.h == ds.size(index, width).h
  }

  /** The width the data source gives the item at `index` inside the insets of a section `sectionWidth` wide. */
  function ItemWidth(ds: DataSource, sectionWidth: real, index: int): real
  {
    ds.width(index, sectionWidth - ds.edgeInsets.left - ds.edgeInsets.right)
  }

  /**
   * Since `oldLog` was the creation log and `oldKeys` the computed indices,
   * the log `log` grew by exactly the indices newly computed in `attrs`,
   * each once.
   */
  ghost predicate LogHasNewKeys(oldKeys: set<int>, oldLog: seq<int>, attrs: map<int, Attr>, log: seq<int>)
  {
    && |oldLog| <= |log|
    && log[..|oldLog|] == oldLog
    && (forall i :: |oldLog| <= i < |log| ==> log[i] in attrs && log[i] !in oldKeys)
    && (forall i, j :: |oldLog| <= i < j < |log| ==> log[i] != log[j])
    && (forall k :: k in attrs && k !in oldKeys ==> k in log[|oldLog|..])
  }

  /** Computing the item at `index` logs it exactly when it was not computed before. */
  lemma LogStep(oldKeys: set<int>, oldLog: seq<int>, attrs: map<int, Attr>, log: seq<int>,
                attrs': map<int, Attr>, log': seq<int>, index: int)
    requires LogHasNewKeys(oldKeys, oldLog, attrs, log) && oldKeys <= attrs.Keys
    requires attrs'.Keys == attrs.Keys + {index}
    requires log' == if index in attrs then log else log + [index]
    ensures LogHasNewKeys(oldKeys, oldLog, attrs', log')
  {
    if index !in attrs {
      assert log'[..|oldLog|] == log[..|oldLog|];
      assert log'[|oldLog|..] == log[|oldLog|..] + [index];
    }
  }

  /** The log only speaks of which indices are computed, not of their attributes. */
  lemma LogKept(oldKeys: set<int>, oldLog: seq<int>, attrs: map<int, Attr>, attrs': map<int, Attr>, log: seq<int>)
    requires LogHasNewKeys(oldKeys, oldLog, attrs, log) && attrs'.Keys == attrs.Keys
    ensures LogHasNewKeys(oldKeys, oldLog, attrs', log)
  {
    assert forall k :: k in attrs' <==> k in attrs;
  }

  /** The log speaks of the set of keys, not of the map they came from. */
  lemma LogRekeyed(keys: set<int>, keys': set<int>, oldLog: seq<int>, attrs: map<int, Attr>, log: seq<int>)
    requires LogHasNewKeys(keys, oldLog, attrs, log) && keys' == keys
    ensures LogHasNewKeys(keys', oldLog, attrs, log)
  {
  }

  /** Two stretches of logging add up, and a stretch that computes nothing logs nothing. */
  lemma LogTrans(keys0: set<int>, log0: seq<int>, attrs1: map<int, Attr>, log1: seq<int>,
                 attrs2: map<int, Attr>, log2: seq<int>)
    requires LogHasNewKeys(keys0, log0, attrs1, log1) && keys0 <= attrs1.Keys
    requires LogHasNewKeys(attrs1.Keys, log1, attrs2, log2) && attrs1.Keys <= attrs2.Keys
    ensures LogHasNewKeys(keys0, log0, attrs2, log2)
  {
    assert log2[..|log0|] == log2[..|log1|][..|log0|];
    forall i | |log0| <= i < |log2|
      ensures log2[i] in attrs2 && log2[i] !in keys0
    {
      if i < |log1| {
        assert log2[i] == log1[i];
      }
    }
    forall i, j | |log0| <= i < j < |log2|
      ensures log2[i] != log2[j]
    {
      if i < |log1| && |log1| <= j {
        assert log2[i] == log1[i];
      }
    }
    forall k | k in attrs2 && k !in keys0
      ensures k in log2[|log0|..]
    {
      if k in attrs1 {
        var i :| 0 <= i < |log1[|log0|..]| && log1[|log0|..][i] == k;
        assert log2[|log0| + i] == k;
      } else {
        var i :| 0 <= i < |log2[|log1|..]| && log2[|log1|..][i] == k;
        assert log2[|log1| + i] == k;
      }
    }
  }

  /**
   * What a pass from `firstIndex` has done once the items below `stop` are
   * processed, relative to the attributes `A` it started from: nothing is
   * dropped, identifiers are kept, the items outside `[firstIndex, stop)`
   * keep their layout, every processed item is `Computed`, and a reused
   * height is the old (standardized) one, or, where the override applies and
   * the item that reported its height was processed first, that item's.
   */
  ghost predicate PassDone(A: map<int, Attr>, attrs: map<int, Attr>, firstIndex: int, stop: int, ds: DataSource,
                           sectionWidth: real, invalidate: bool, custom: HeightOverride)
  {
    && A.Keys <= attrs.Keys
    && (forall k :: firstIndex <= k < stop ==> k in attrs)
    && (forall k :: k in A ==> attrs[k].identifier == A[k].identifier)
    && (forall k :: k in A && !(firstIndex <= k < stop) ==> LayoutKept(A[k], attrs[k]))
    && (forall k :: firstIndex <= k < stop ==>
          Computed(attrs[k], Prior(A, k), k, ds, ItemWidth(ds, sectionWidth, k), invalidate))
    && (forall k :: firstIndex <= k < stop && k in A && Reuse(A[k], ItemWidth(ds, sectionWidth, k), invalidate) ==>
          attrs[k].originalFrame.h ==
            if !OverrideApplies(custom, A[k], A) then A[k].originalFrame.Height()
            else if firstIndex <= custom.at < k then attrs[custom.at].originalFrame.Height()
            else attrs[k].originalFrame.h)
  }

  /**
   * The height an exact-height override supplies for `a`: the current
   * standardized height of the item that reported its size, when the
   * override applies.
   */
  function OverrideHeight(custom: HeightOverride, a: Attr, attrs: map<int, Attr>): (h: Option<real>)
    ensures h.Some? <==> OverrideApplies(custom, a, attrs)
    ensures h.Some? ==> h.value >= 0.0
  {
    if OverrideApplies(custom, a, attrs) then Some(attrs[custom.at].originalFrame.Height()) else None
  }

  /**
   * Changes that keep the layout of every item already there (row
   * alignment, origin compensation, creating further items) keep what a
   * pass has done.
   */
  lemma PassDoneKept(A: map<int, Attr>, attrs: map<int, Attr>, attrs': map<int, Attr>, firstIndex: int, stop: int,
                     ds: DataSource, sectionWidth: real, invalidate: bool, custom: HeightOverride)
    requires PassDone(A, attrs, firstIndex, stop, ds, sectionWidth, invalidate, custom)
    requires attrs.Keys <= attrs'.Keys && forall k :: k in attrs ==> LayoutKept(attrs[k], attrs'[k])
    ensures PassDone(A, attrs', firstIndex, stop, ds, sectionWidth, invalidate, custom)
  {
  }

  /**
   * An item the pass processed without invalidation or override, whose
   * stored size was already the data source's size, ends with that size
   * (standardized) and its estimate flag, whether its measured height was
   * reused or re-queried.
   */
  lemma PassKeepsQueriedSize(A: map<int, Attr>, attrs: map<int, Attr>, firstIndex: int, stop: int, ds: DataSource,
                             sectionWidth: real, k: int)
    requires PassDone(A, attrs, firstIndex, stop, ds, sectionWidth, false, NoOverride)
    requires firstIndex <= k < stop && k in A
    requires A[k].originalFrame.w == ds.size(k, ItemWidth(ds, sectionWidth, k)).w
    requires A[k].originalFrame.h == ds.size(k, ItemWidth(ds, sectionWidth, k)).h
    ensures attrs[k].originalFrame.Width() == A[k].originalFrame.Width()
    ensures attrs[k].originalFrame.Height() == A[k].originalFrame.Height()
    ensures attrs[k].isEstimateSize == A[k].isEstimateSize
  {
    assert Prior(A, k) == Some(A[k]);
  }

  /**
   * An item that reported its exact height, and is no longer an estimate,
   * stays exact through the pass from it, and keeps the reported height
   * (standardized) when its width is unchanged: the override never applies to it.
   */
  lemma PassKeepsReportedHeight(A: map<int, Attr>, attrs: map<int, Attr>, index: int, stop: int, ds: DataSource,
                                sectionWidth: real)
    requires PassDone(A, attrs, index, stop, ds, sectionWidth, false, Override(index))
    requires index < stop && index in A && !A[index].isEstimateSize
    ensures !attrs[index].isEstimateSize
    ensures Reuse(A[index], ItemWidth(ds, sectionWidth, index), false) ==>
      attrs[index].originalFrame.h == A[index].originalFrame.Height()
  {
    assert Prior(A, index) == Some(A[index]);
  }

  /**
   * One step of the forward walk: once the item at `index` is computed from
   * what was stored there and every other item keeps its layout, the pass
   * has done the items below `index + 1`.
   */
  lemma PassStep(A: map<int, Attr>, attrs: map<int, Attr>, attrs': map<int, Attr>, firstIndex: int, index: int,
                 ds: DataSource, sectionWidth: real, invalidate: bool, custom: HeightOverride)
    requires PassDone(A, attrs, firstIndex, index, ds, sectionWidth, invalidate, custom) && firstIndex <= index
    requires custom.Override? ==> custom.at in A
    requires index in attrs ==> index in A
    requires attrs'.Keys == attrs.Keys + {index}
    requires forall k :: k in attrs && k != index ==> LayoutKept(attrs[k], attrs'[k])
    requires Computed(attrs'[index], Prior(attrs, index), index, ds, ItemWidth(ds, sectionWidth, index), invalidate)
    requires index in attrs && Reuse(attrs[index], ItemWidth(ds, sectionWidth, index), invalidate) ==>
      attrs'[index].originalFrame.h ==
        match OverrideHeight(custom, attrs[index], attrs)
        case Some(h) => h
        case None => attrs[index].originalFrame.Height()
    ensures PassDone(A, attrs', firstIndex, index + 1, ds, sectionWidth, invalidate, custom)
  {
    var w := ItemWidth(ds, sectionWidth, index);
    if index in A {
      assert LayoutKept(A[index], attrs[index]);
      assert Prior(attrs, index) == Some(attrs[index]);
      assert Computed(attrs'[index], Prior(A, index), index, ds, w, invalidate);
      assert OverrideApplies(custom, A[index], A) == OverrideApplies(custom, attrs[index], attrs);
    } else {
      assert Prior(attrs, index) == Prior(A, index);
    }
    forall k | firstIndex <= k < index
      ensures Computed(attrs'[k], Prior(A, k), k, ds, ItemWidth(ds, sectionWidth, k), invalidate)
    {
      assert LayoutKept(attrs[k], attrs'[k]);
    }
    forall k | firstIndex <= k < index + 1 && k in A && Reuse(A[k], ItemWidth(ds, sectionWidth, k), invalidate)
      ensures attrs'[k].originalFrame.h ==
        if !OverrideApplies(custom, A[k], A) then A[k].originalFrame.Height()
        else if firstIndex <= custom.at < k then attrs'[custom.at].originalFrame.Height()
        else attrs'[k].originalFrame.h
    {
      if OverrideApplies(custom, A[k], A) && firstIndex <= custom.at < k {
        assert LayoutKept(attrs[custom.at], attrs'[custom.at]);
      }
      if k < index {
        assert LayoutKept(attrs[k], attrs'[k]);
      }
    }
  }

  /**
   * What a rect query returns around the estimated closest index: the items
   * of `[lo, closest)` nearest first, then those of `[closest, hi)`, every
   * one computed and intersecting `rect`; each run stops just before an
   * index that is not computed or does not intersect (or at the ends).
   */
  ghost predicate RectQueryResult(attrs: map<int, Attr>, rect: Rect, result: seq<Attr>, lo: int, closest: int, hi: int)
  {
    && 0 <= lo <= closest <= hi <= |attrs| && |result| == hi - lo
    && (forall k :: lo <= k < closest ==> k in attrs && result[closest - 1 - k] == attrs[k])
    && (forall k :: closest <= k < hi ==> k in attrs && result[k - lo] == attrs[k])
    && (forall i :: 0 <= i < |result| ==>
         && rect.Intersects(result[i].frame)
         && result[i].index == if i < closest - lo then closest - 1 - i else lo + i)
    && (lo > 0 ==> lo - 1 !in attrs || !rect.Intersects(attrs[lo - 1].frame))
    && (hi < |attrs| ==> hi !in attrs || !rect.Intersects(attrs[hi].frame))
  }

  /**
   * Joining the two runs of a rect query: `above` holds the items of
   * `[lo, closest)` nearest first and `below` those of `[closest, hi)`.
   */
  lemma JoinRuns(attrs: map<int, Attr>, rect: Rect, above: seq<Attr>, below: seq<Attr>, lo: int, closest: int, hi: int)
    requires 0 <= lo <= closest <= hi <= |attrs| && |above| == closest - lo && |below| == hi - closest
    requires forall k :: lo <= k < closest ==> k in attrs && above[closest - 1 - k] == attrs[k]
    requires forall k :: closest <= k < hi ==> k in attrs && below[k - closest] == attrs[k]
    requires forall i :: 0 <= i < |above| ==> above[i].index == closest - 1 - i && rect.Intersects(above[i].frame)
    requires forall i :: 0 <= i < |below| ==> below[i].index == closest + i && rect.Intersects(below[i].frame)
    requires lo > 0 ==> lo - 1 !in attrs || !rect.Intersects(attrs[lo - 1].frame)
    requires hi < |attrs| ==> hi !in attrs || !rect.Intersects(attrs[hi].frame)
    ensures RectQueryResult(attrs, rect, above + below, lo, closest, hi)
  {
    var result := above + below;
    assert forall i :: 0 <= i < |above| ==> result[i] == above[i];
    assert forall i :: |above| <= i < |result| ==> result[i] == below[i - |above|];
  }

  /** A rect query reports every item at most once. */
  lemma RectQueryDistinct(attrs: map<int, Attr>, rect: Rect, result: seq<Attr>, lo: int, closest: int, hi: int)
    requires RectQueryResult(attrs, rect, result, lo, closest, hi)
    ensures forall i, j :: 0 <= i < j < |result| ==> result[i].index != result[j].index
  {
  }

  /**
   * The bottom edge of the packed rows seen while scanning back over
   * `[lo, hi)`: the largest bottom of a visible computed item there, and
   * never less than `y0`.
   */
  ghost function RowBottom(attrs: map<int, Attr>, lo: int, hi: int, y0: real): real
    decreases hi - lo
  {
    if lo >= hi then y0
    else
      var rest := RowBottom(attrs, lo + 1, hi, y0);
      if lo in attrs && !attrs[lo].hidden then Max(rest, attrs[lo].originalFrame.MaxY()) else rest
  }

  /** `RowBottom` is the maximum: an upper bound of every visible bottom and of `y0`, attained by one of them. */
  lemma {:induction false} RowBottomIsMax(attrs: map<int, Attr>, lo: int, hi: int, y0: real)
    ensures y0 <= RowBottom(attrs, lo, hi, y0)
    ensures forall k :: lo <= k < hi && k in attrs && !attrs[k].hidden ==>
      attrs[k].originalFrame.MaxY() <= RowBottom(attrs, lo, hi, y0)
    ensures RowBottom(attrs, lo, hi, y0) == y0 ||
      exists k :: lo <= k < hi && k in attrs && !attrs[k].hidden && RowBottom(attrs, lo, hi, y0) == attrs[k].originalFrame.MaxY()
    decreases hi - lo
  {
    if lo < hi {
      RowBottomIsMax(attrs, lo + 1, hi, y0);
      var r := RowBottom(attrs, lo, hi, y0);
      var rest := RowBottom(attrs, lo + 1, hi, y0);
      if lo in attrs && !attrs[lo].hidden && r != rest {
        assert r == attrs[lo].originalFrame.MaxY();
      } else if r != y0 {
        var k :| lo + 1 <= k < hi && k in attrs && !attrs[k].hidden && rest == attrs[k].originalFrame.MaxY();
        assert r == attrs[k].originalFrame.MaxY();
      }
    }
  }

  /** The indices `lo, lo + 1, ..., hi - 1`, in order. */
  function Range(lo: int, hi: int): (r: seq<int>)
    ensures |r| == if lo <= hi then hi - lo else 0
    ensures forall i :: 0 <= i < |r| ==> r[i] == lo + i
    ensures forall k :: k in r <==> lo <= k < hi
  {
    if lo <= hi then
      var r := seq(hi - lo, i => lo + i);
      assert forall k :: lo <= k < hi ==> k in r by {
        forall k | lo <= k < hi
          ensures k in r
        {
          assert r[k - lo] == k;
        }
      }
      r
    else []
  }

  /** The items of a prefix one longer are those of the prefix and the next item. */
  lemma TakeOneMore(s: seq<int>, i: int)
    requires 0 <= i < |s|
    ensures forall k :: k in s[..i + 1] <==> k in s[..i] || k == s[i]
  {
    assert s[..i + 1] == s[..i] + [s[i]];
  }

  /** One more index at the end of a range. */
  lemma RangeExtend(lo: int, hi: int)
    requires lo <= hi
    ensures Range(lo, hi + 1) == Range(lo, hi) + [hi]
  {
    assert forall i :: 0 <= i < hi + 1 - lo ==> Range(lo, hi + 1)[i] == (Range(lo, hi) + [hi])[i];
  }

  /** The keys after a forward walk over `[lo, hi)`: those before and the walked indices. */
  lemma KeysAfterWalk(A: map<int, Attr>, attrs: map<int, Attr>, lo: int, hi: int)
    requires A.Keys <= attrs.Keys
    requires forall k :: lo <= k < hi ==> k in attrs
    requires forall k :: k in attrs && k !in A ==> lo <= k < hi
    ensures attrs.Keys == A.Keys + set k | k in Range(lo, hi)
  {
    assert forall k :: k in attrs <==> k in A || k in Range(lo, hi);
  }

  /**
   * The downstream items a pass creates, when the indices in `keys` are
   * computed before them: the items of `downstream` in order, up to the
   * first one already computed (counting those it has just created).
   */
  ghost function FreshRun(downstream: seq<int>, keys: set<int>): (run: seq<int>)
    ensures |run| <= |downstream| && run == downstream[..|run|]
    ensures forall j :: 0 <= j < |run| ==> downstream[j] !in keys && downstream[j] !in downstream[..j]
    ensures |run| < |downstream| ==> downstream[|run|] in keys || downstream[|run|] in downstream[..|run|]
  {
    FreshFrom(downstream, keys, 0)
  }

  /** `FreshRun`, once the first `i` items are known to be created. */
  ghost function FreshFrom(downstream: seq<int>, keys: set<int>, i: nat): (run: seq<int>)
    requires i <= |downstream|
    requires forall j :: 0 <= j < i ==> downstream[j] !in keys && downstream[j] !in downstream[..j]
    ensures i <= |run| <= |downstream| && run == downstream[..|run|]
    ensures forall j :: 0 <= j < |run| ==> downstream[j] !in keys && downstream[j] !in downstream[..j]
    ensures |run| < |downstream| ==> downstream[|run|] in keys || downstream[|run|] in downstream[..|run|]
    decreases |downstream| - i
  {
    if i == |downstream| || downstream[i] in keys || downstream[i] in downstream[..i] then downstream[..i]
    else FreshFrom(downstream, keys, i + 1)
  }

  /**
   * `after` is `before` with the row that ends at `index` given the frame
   * height `maxHeight`: the run `[lo, index]` of computed items whose
   * original top is that of the item at `index`, preceded by an index not
   * computed, an item on another row, or nothing. Nothing changes when
   * `index` is not computed.
   */
  ghost predicate RowAligned(before: map<int, Attr>, after: map<int, Attr>, index: int, maxHeight: real, lo: int)
  {
    if index < 0 || index !in before then after == before
    else
      var y := before[index].originalFrame.y;
      && 0 <= lo <= index
      && (forall k :: lo <= k <= index ==> k in before && before[k].originalFrame.y == y)
      && (lo > 0 ==> lo - 1 !in before || before[lo - 1].originalFrame.y != y)
      && after.Keys == before.Keys
      && (forall k :: k in after ==>
            after[k] == if lo <= k <= index then before[k].(frame := before[k].frame.(h := maxHeight)) else before[k])
  }

  /** The attributes of the items below `n`: what shrinking a section to `n` items keeps. */
  ghost function Truncated(m: map<int, Attr>, n: int): map<int, Attr>
  {
    map k | k in m && k < n :: m[k]
  }

  /** Item tops never decrease with the index, among the computed items. */
  ghost predicate SortedByMinY(attrs: map<int, Attr>)
  {
    forall i, j :: 0 <= i <= j && i in attrs && j in attrs ==> attrs[i].frame.MinY() <= attrs[j].frame.MinY()
  }

  /** Every index below the number of computed items is computed: no holes. */
  ghost predicate Dense(attrs: map<int, Attr>)
  {
    forall k :: 0 <= k < |attrs| ==> k in attrs
  }

  /**
   * `closest` is where the binary search of a rect query lands: no computed
   * item before it starts at or below the top of `rect` when the frames are
   * sorted by top, and every item from it on does when they are also dense.
   */
  ghost predicate ClosestIndex(attrs: map<int, Attr>, rect: Rect, closest: int)
  {
    && 0 <= closest <= |attrs|
    && (SortedByMinY(attrs) ==>
          forall k :: 0 <= k < closest && k in attrs ==> attrs[k].frame.MinY() < rect.MinY())
    && (SortedByMinY(attrs) && Dense(attrs) ==>
          forall k :: closest <= k < |attrs| ==> k in attrs && attrs[k].frame.MinY() >= rect.MinY())
  }

  /**
   * Twenty computed full-width items of height 50 stacked from the top
   * (item `k` at `y = 50 * k`), the section of the binary search tests.
   */
  ghost predicate TwentyRows(attrs: map<int, Attr>)
  {
    && |attrs| == 20
    && (forall k :: k in attrs <==> 0 <= k < 20)
    && forall k :: 0 <= k < 20 ==> attrs[k].frame == Rect(0.0, 50.0 * k as real, 320.0, 50.0)
  }

  /** The rect query over `TwentyRows` for the screen at the top reports items 0 to 9. */
  lemma {:induction false} TwentyRowsAtTop(attrs: map<int, Attr>, result: seq<Attr>, lo: int, closest: int, hi: int)
    requires TwentyRows(attrs)
    requires ClosestIndex(attrs, Rect(0.0, 0.0, 320.0, 480.0), closest)
    requires RectQueryResult(attrs, Rect(0.0, 0.0, 320.0, 480.0), result, lo, closest, hi)
    ensures lo == 0 && closest == 0 && hi == 10 && |result| == 10
  {
    var rect := Rect(0.0, 0.0, 320.0, 480.0);
    assert SortedByMinY(attrs) && Dense(attrs);
    assert attrs[0].frame.MinY() >= rect.MinY();
    assert rect.Intersects(attrs[9].frame) && !rect.Intersects(attrs[10].frame);
  }

  /** Half an item further down, the query also reports item 10: items 0 to 10, with the search landing on item 1. */
  lemma {:induction false} TwentyRowsHalfItemDown(attrs: map<int, Attr>, result: seq<Attr>, lo: int, closest: int, hi: int)
    requires TwentyRows(attrs)
    requires ClosestIndex(attrs, Rect(0.0, 25.0, 320.0, 480.0), closest)
    requires RectQueryResult(attrs, Rect(0.0, 25.0, 320.0, 480.0), result, lo, closest, hi)
    ensures lo == 0 && closest == 1 && hi == 11 && |result| == 11
  {
    var rect := Rect(0.0, 25.0, 320.0, 480.0);
    assert SortedByMinY(attrs) && Dense(attrs);
    assert attrs[0].frame.MinY() < rect.MinY() <= attrs[1].frame.MinY();
    assert rect.Intersects(attrs[0].frame);
    assert rect.Intersects(attrs[10].frame) && !rect.Intersects(attrs[11].frame);
  }

  /**
   * The rect query over `TwentyRows` for a screen-sized rect 480 points
   * down: the search lands on item 10 and the query reports items 9 to 19.
   */
  lemma {:induction false} TwentyRowsFromScreenDown(attrs: map<int, Attr>, result: seq<Attr>, lo: int, closest: int, hi: int)
    requires TwentyRows(attrs)
    requires ClosestIndex(attrs, Rect(0.0, 480.0, 320.0, 480.0), closest)
    requires RectQueryResult(attrs, Rect(0.0, 480.0, 320.0, 480.0), result, lo, closest, hi)
    ensures lo == 9 && closest == 10 && hi == 20 && |result| == 11
  {
    var rect := Rect(0.0, 480.0, 320.0, 480.0);
    assert SortedByMinY(attrs) && Dense(attrs);
    assert attrs[9].frame.MinY() < rect.MinY() <= attrs[10].frame.MinY();
    assert rect.Intersects(attrs[9].frame) && !rect.Intersects(attrs[8].frame);
  }


  /**
   * The section's height from the extent measured so far (bottom of the
   * packed items minus the first item's top). Exact when every item is
   * computed; otherwise the extent (plus one inset) is scaled up by the
   * fraction of items computed. A height not above the edge insets is 0.
   */
  function SectionHeight(extent: real, insets: EdgeInsets, inset: real, count: int, numberOfItems: int): (height: real)
    requires 0 < count && 0 < numberOfItems
    ensures height == 0.0 || height > insets.bottom + insets.top
  {
    var raw :=
      if numberOfItems != count then (extent + inset) / ((count as real) / (numberOfItems as real))
      else extent + insets.bottom + insets.top;
    if raw <= insets.bottom + insets.top then 0.0 else raw
  }

  /** With every item computed, the height is the measured extent plus the top and bottom insets. */
  lemma SectionHeightComplete(extent: real, insets: EdgeInsets, inset: real, n: int)
    requires 0 < n
    ensures SectionHeight(extent, insets, inset, n, n) == if extent <= 0.0 then 0.0 else extent + insets.top + insets.bottom
  {
  }

  /**
   * With only `count` of `n` items computed, an unclamped height keeps the
   * ratio of the measured extent (plus one inset) to the computed items.
   */
  lemma SectionHeightExtrapolates(extent: real, insets: EdgeInsets, inset: real, count: int, n: int)
    requires 0 < count && 0 < n && count != n
    requires SectionHeight(extent, insets, inset, count, n) != 0.0
    ensures SectionHeight(extent, insets, inset, count, n) * (count as real) == (extent + inset) * (n as real)
  {
    var c, m := count as real, n as real;
    var e := extent + inset;
    assert SectionHeight(extent, insets, inset, count, n) == e / (c / m);
    assert e / (c / m) == e * m / c;
    assert (e * m / c) * c == e * m;
  }

  /**
   * The section heights expected by the lazy-loading tests: 100 items of
   * height 100 with 5 computed (extent 500), 2-up with 10 computed, and 5
   * computed with inset 10 and 5-point top and bottom insets (extent 540).
   */
  lemma LazyLoadingSectionHeights()
    ensures SectionHeight(500.0, EdgeInsets(0.0, 0.0, 0.0, 0.0), 0.0, 5, 100) == 10000.0
    ensures SectionHeight(500.0, EdgeInsets(0.0, 0.0, 0.0, 0.0), 0.0, 10, 100) == 5000.0
    ensures SectionHeight(540.0, EdgeInsets(5.0, 0.0, 5.0, 0.0), 10.0, 5, 100) == 11000.0
  {
    SectionHeightExtrapolates(500.0, EdgeInsets(0.0, 0.0, 0.0, 0.0), 0.0, 5, 100);
    SectionHeightExtrapolates(500.0, EdgeInsets(0.0, 0.0, 0.0, 0.0), 0.0, 10, 100);
    SectionHeightExtrapolates(540.0, EdgeInsets(5.0, 0.0, 5.0, 0.0), 10.0, 5, 100);
  }

  lemma EmptyIfNoMember(s: set<int>)
    requires forall x :: x !in s
    ensures s == {}
  {
    assert forall x :: x in s <==> x in {};
  }

  lemma NonEmptyHasMember(s: set<int>)
    requires s != {}
    ensures exists x :: x in s
  {
    if forall x :: x !in s {
      EmptyIfNoMember(s);
      assert false;
    }
  }

  lemma {:induction false} MaxKeyExists(s: set<int>)
    requires s != {}
    ensures exists m :: m in s && forall k :: k in s ==> k <= m
    decreases |s|
  {
    NonEmptyHasMember(s);
    var x :| x in s;
    var rest := s - {x};
    var top := x;
    if rest != {} {
      MaxKeyExists(rest);
      var m :| m in rest && forall k :: k in rest ==> k <= m;
      top := if m < x then x else m;
    }
    forall k | k in s
      ensures k <= top
    {
      if k != x {
        assert k in rest;
      }
    }
    assert top in s;
  }

  /** Keys in `[0, n)` are at most `n` many: a section never holds more attributes than items. */
  lemma {:induction false} KeysBelowBound(s: set<int>, n: int)
    requires 0 <= n && forall k :: k in s ==> 0 <= k < n
    ensures |s| <= n
    decreases n
  {
    if n == 0 {
      EmptyIfNoMember(s);
    } else {
      var rest := s - {n - 1};
      KeysBelowBound(rest, n - 1);
      assert forall k :: k in s ==> k in rest || k == n - 1;
      assert s <= rest + {n - 1};
    }
  }

  /** The largest key of a non-empty key set (Swift's `keys.maxElement()`). */
  function MaxKey(s: set<int>): (m: int)
    requires s != {}
    ensures m in s && forall k :: k in s ==> k <= m
  {
    MaxKeyExists(s);
    var m :| m in s && forall k :: k in s ==> k <= m; m
  }

  /**
   * The shrink loop of `setNumberOfItems` as written: it removes the largest
   * key until the map holds `n` entries. When the map runs empty first, the
   * `continue` repeats forever; that outcome is `None`.
   */
  function ShrinkAsWritten(attrs: map<int, Attr>, n: int): (r: Option<map<int, Attr>>)
    ensures r.Some? ==> |r.value| == n && r.value.Keys <= attrs.Keys
    decreases |attrs|
  {
    if |attrs| == n then Some(attrs)
    else if attrs == map[] then None
    else ShrinkAsWritten(attrs - {MaxKey(attrs.Keys)}, n)
  }

  /**
   * Three items, one computed (the usual lazy state), shrunk to two: the
   * loop removes item 0 and then never reaches two entries.
   */
  lemma ShrinkAsWrittenSpins(a: Attr)
    ensures ShrinkAsWritten(map[0 := a], 2).None?
  {
    var m := map[0 := a];
    assert m.Keys == {0};
    assert MaxKey(m.Keys) == 0;
    assert m - {0} == map[];
  }

  /**
   * Eight items with 0, 1 and the downstream item 7 computed, shrunk to
   * three: the count already matches, so item 7 survives past the new end.
   */
  lemma ShrinkAsWrittenKeepsStaleKey(a: Attr)
    ensures ShrinkAsWritten(map[0 := a, 1 := a, 7 := a], 3) == Some(map[0 := a, 1 := a, 7 := a])
  {
    var m := map[0 := a, 1 := a, 7 := a];
    assert m.Keys == {0, 1, 7};
    assert |m| == 3;
  }

  /**
   * The backward walk of `updateHeightForRowsFromIndex` as written, from
   * `i` over items in the row at `y`: `Some(lo)` when it stops below `lo`
   * (another row or index -1), `None` when it meets a missing index, where
   * the `continue` repeats forever without moving. A `Some(lo)` is the
   * lowest index of the run of computed items at the row's top ending at
   * `i`; `None` means a missing index ends that run.
   */
  function RowWalkAsWritten(attrs: map<int, Attr>, i: int, y: real): (r: Option<int>)
    ensures r.Some? ==>
      && (i >= -1 ==> 0 <= r.value) && r.value <= i + 1
      && (forall k :: r.value <= k <= i ==> k in attrs && attrs[k].originalFrame.y == y)
      && (r.value > 0 ==> r.value - 1 in attrs && attrs[r.value - 1].originalFrame.y != y)
    ensures r.None? ==>
      exists lo :: 0 <= lo <= i && lo !in attrs && forall k :: lo < k <= i ==> k in attrs && attrs[k].originalFrame.y == y
    decreases i + 1
  {
    if i < 0 then Some(i + 1)
    else if i !in attrs then None
    else if attrs[i].originalFrame.y != y then Some(i + 1)
    else RowWalkAsWritten(attrs, i - 1, y)
  }

  /**
   * Items 0 and 2 computed in the same row (item 2 as a downstream item) and
   * item 1 not yet: aligning the row that ends at 2 never returns.
   */
  lemma RowWalkAsWrittenSpinsOnHole(a: Attr)
    requires a.originalFrame.y == 0.0
    ensures RowWalkAsWritten(map[0 := a, 2 := a], 2, 0.0).None?
  {
    var m := map[0 := a, 2 := a];
    assert 2 in m && m[2].originalFrame.y == 0.0;
    assert 1 !in m;
  }
}
