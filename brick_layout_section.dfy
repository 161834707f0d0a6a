/**
 * One section of the lazy brick layout. The section owns a sparse map from
 * item index to layout attributes (a missing index is not computed yet) and
 * computes attributes lazily: a pass packs items into rows from a cursor and
 * stops at the first new item that falls outside the frame of interest.
 */
module LayoutSection {
  import opened Geometry
  import opened Wrappers
  import opened LayoutModel

  class BrickLayoutSection {
    /** The attributes that stand for this section one level up; absent for the root section. */
    const sectionAttributes: Option<ParentAttrs>
    const sectionIndex: int
    var numberOfItems: int
    /** Computed attributes by item index. */
    var attributes: map<int, Attr>
    /** The frame that contains the whole section. */
    var frame: Rect
    /** Kept apart from the frame: in horizontal flow the two differ. */
    var sectionWidth: real
    /** Absent once the data source is gone; every pass is then a no-op. */
    const dataSource: Option<DataSource>
    /** The delegate's creation notifications, in order, by item index. */
    var created: seq<int>

    /** Every computed item lies inside the section and is stored under its own index. */
    ghost predicate Valid()
      reads this
    {
      && 0 <= numberOfItems
      && forall k :: k in attributes ==> 0 <= k < numberOfItems && attributes[k].index == k
    }

    /** The data source's downstream indices name items of a section with `n` items. */
    ghost predicate DownstreamFits(n: int)
      reads this
    {
      dataSource.Some? ==> forall i :: i in dataSource.value.downstream ==> 0 <= i < n
    }

    /** Where packing starts when nothing earlier is computed: the parent's original frame, else the section's frame `fr`. */
    function StartFrame(fr: Rect): Rect
    {
      if sectionAttributes.Some? then sectionAttributes.value.originalFrame else fr
    }

    /** How far a section whose frame is `fr` sits from the original frame of the attributes that stand for it. */
    function ParentOffset(fr: Rect): Point
    {
      match sectionAttributes
      case Some(p) => Point(fr.x - p.originalFrame.x, fr.y - p.originalFrame.y)
      case None => Point(0.0, 0.0)
    }

    /**
     * In vertical flow an item wraps when its right edge would pass the
     * section's right inset; `fr` is the section's frame during the pass.
     */
    predicate ShouldBeOnNextRow(fr: Rect, ds: DataSource, x: real, width: real)
      reads this`sectionWidth
    {
      ds.scrollDirection == Vertical && x + width - fr.x > sectionWidth - ds.edgeInsets.right
    }

    /** The item's origin in original coordinates, given the cursor: on a wrap, the start of the next row. */
    function Placement(fr: Rect, ds: DataSource, cur: Cursor, width: real): Point
      reads this`sectionWidth
    {
      if ShouldBeOnNextRow(fr, ds, cur.x, width) then
        Point(fr.x + ds.edgeInsets.left, if cur.maxY > cur.y then cur.maxY + ds.inset else cur.y)
      else
        Point(cur.x, cur.y)
    }

    /** The origin compared with the frame of interest: the placement shifted by the parent offset. */
    function CellOrigin(fr: Rect, ds: DataSource, cur: Cursor, width: real): Point
      reads this`sectionWidth
    {
      var p := Placement(fr, ds, cur, width);
      var off := ParentOffset(fr);
      Point(p.x + off.x, p.y + off.y)
    }

    /**
     * Why a forward walk over the attributes `before`, with the section's
     * frame at `fr`, ended at `stop`: at the last item, or at an item not
     * computed before whose origin, placed from the cursor `at`, falls
     * outside the frame of interest.
     */
    ghost predicate StoppedAt(ds: DataSource, fr: Rect, before: map<int, Attr>, stop: int, at: Cursor)
      reads this`sectionWidth, this`numberOfItems
    {
      stop < numberOfItems ==>
        && stop !in before
        && !ds.frameOfInterest.Contains(CellOrigin(fr, ds, at, ItemWidth(ds, sectionWidth, stop)))
    }

    /**
     * Item `k` of a forward walk from `firstIndex` over `before`, started
     * from `start` with the section's frame at `fr`, which left `after`: it
     * is computed, sits where the walk over the items before it places it,
     * and, unless it was computed before, its origin fell inside the frame
     * of interest.
     */
    ghost predicate PlacedAt(ds: DataSource, fr: Rect, before: map<int, Attr>, after: map<int, Attr>, firstIndex: int,
                             start: Cursor, k: int)
      reads this`sectionWidth
    {
      && k in after
      && var c := Walk(after, ds, Range(firstIndex, k), start);
         var w := ItemWidth(ds, sectionWidth, k);
         && after[k].originalFrame.x == Placement(fr, ds, c, w).x
         && after[k].originalFrame.y == Placement(fr, ds, c, w).y
         && (k in before || ds.frameOfInterest.Contains(CellOrigin(fr, ds, c, w)))
    }

    /** Every item of `[firstIndex, stop)` is `PlacedAt` by the forward walk. */
    ghost predicate LaidOut(ds: DataSource, fr: Rect, before: map<int, Attr>, after: map<int, Attr>, firstIndex: int,
                            stop: int, start: Cursor)
      reads this`sectionWidth
    {
      forall k :: firstIndex <= k < stop ==> PlacedAt(ds, fr, before, after, firstIndex, start, k)
    }

    /**
     * The `j`-th of the `items` created in order from the cursor `start`,
     * regardless of the frame of interest, sits where the walk over the
     * ones before it places it.
     */
    ghost predicate ForcedAt(ds: DataSource, fr: Rect, after: map<int, Attr>, items: seq<int>, start: Cursor, j: int)
      reads this`sectionWidth
    {
      && 0 <= j < |items| && items[j] in after
      && var c := Walk(after, ds, items[..j], start);
         var w := ItemWidth(ds, sectionWidth, items[j]);
         && after[items[j]].originalFrame.x == Placement(fr, ds, c, w).x
         && after[items[j]].originalFrame.y == Placement(fr, ds, c, w).y
    }

    /** The first `n` of the `items` are each `ForcedAt` their place. */
    ghost predicate ForcedRun(ds: DataSource, fr: Rect, after: map<int, Attr>, items: seq<int>, n: int, start: Cursor)
      reads this`sectionWidth
    {
      forall j :: 0 <= j < n ==> ForcedAt(ds, fr, after, items, start, j)
    }

    /** The cursor moves past an item only when the section is hidden or the item is visible with positive height. */
    predicate Advances(a: Attr)
    {
      (sectionAttributes.Some? && sectionAttributes.value.hidden) || !(a.originalFrame.h <= 0.0 || a.hidden)
    }

    /**
     * The cursor once the item `a` is placed from `c`: on the item's row,
     * right of it (past one inset) with the row's bottom edge lowered to
     * the item's when it advances the cursor, at its origin otherwise.
     */
    function Advance(ds: DataSource, a: Attr, c: Cursor): Cursor
    {
      if Advances(a) then Cursor(a.originalFrame.MaxX() + ds.inset, a.originalFrame.y, Max(a.originalFrame.MaxY(), c.maxY))
      else Cursor(a.originalFrame.x, a.originalFrame.y, c.maxY)
    }

    /** The cursor after the items `laid` are placed in order from `c`, as stored in `attrs`. */
    ghost function Walk(attrs: map<int, Attr>, ds: DataSource, laid: seq<int>, c: Cursor): Cursor
      decreases |laid|
    {
      if laid == [] then c
      else
        var k := laid[|laid| - 1];
        var prev := Walk(attrs, ds, laid[..|laid| - 1], c);
        if k in attrs then Advance(ds, attrs[k], prev) else prev
    }

    /**
     * The walk's bottom edge is the largest of the start's and the bottoms
     * of the placed items that advance the cursor; the walk ends on the row
     * of the last placed item, right of it when it advances the cursor.
     */
    lemma {:induction false} WalkIsMax(attrs: map<int, Attr>, ds: DataSource, laid: seq<int>, c: Cursor)
      requires forall k :: k in laid ==> k in attrs
      ensures c.maxY <= Walk(attrs, ds, laid, c).maxY
      ensures forall k :: k in laid && Advances(attrs[k]) ==> attrs[k].originalFrame.MaxY() <= Walk(attrs, ds, laid, c).maxY
      ensures Walk(attrs, ds, laid, c).maxY == c.maxY ||
        exists k :: k in laid && Advances(attrs[k]) && Walk(attrs, ds, laid, c).maxY == attrs[k].originalFrame.MaxY()
      ensures laid != [] ==>
        var a := attrs[laid[|laid| - 1]];
        && Walk(attrs, ds, laid, c).y == a.originalFrame.y
        && Walk(attrs, ds, laid, c).x == if Advances(a) then a.originalFrame.MaxX() + ds.inset else a.originalFrame.x
      decreases |laid|
    {
      if laid != [] {
        var init := laid[..|laid| - 1];
        var k := laid[|laid| - 1];
        assert laid == init + [k];
        assert forall j :: j in init ==> j in laid;
        WalkIsMax(attrs, ds, init, c);
        var w := Walk(attrs, ds, laid, c);
        var prev := Walk(attrs, ds, init, c);
        if w.maxY != prev.maxY {
          assert w.maxY == attrs[k].originalFrame.MaxY();
        } else if w.maxY != c.maxY {
          var j :| j in init && Advances(attrs[j]) && prev.maxY == attrs[j].originalFrame.MaxY();
          assert j in laid;
        }
      }
    }

    /** The walk reads only the original frames and visibility of the items it places. */
    lemma {:induction false} WalkKept(attrs: map<int, Attr>, attrs': map<int, Attr>, ds: DataSource, laid: seq<int>, c: Cursor)
      requires forall k :: k in laid ==> (k in attrs <==> k in attrs') && (k in attrs ==> LayoutKept(attrs[k], attrs'[k]))
      ensures Walk(attrs', ds, laid, c) == Walk(attrs, ds, laid, c)
      decreases |laid|
    {
      if laid != [] {
        var init := laid[..|laid| - 1];
        assert forall j :: j in init ==> j in laid;
        WalkKept(attrs, attrs', ds, init, c);
      }
    }

    /** Placing one more item `k` advances the walk past it, whatever else kept its layout meanwhile. */
    lemma WalkStep(attrs: map<int, Attr>, attrs': map<int, Attr>, ds: DataSource, laid: seq<int>, k: int, c: Cursor)
      requires k in attrs'
      requires forall j :: j in laid ==> (j in attrs <==> j in attrs') && (j in attrs ==> LayoutKept(attrs[j], attrs'[j]))
      ensures Walk(attrs', ds, laid + [k], c) == Advance(ds, attrs'[k], Walk(attrs, ds, laid, c))
    {
      assert (laid + [k])[..|laid|] == laid;
      WalkKept(attrs, attrs', ds, laid, c);
    }

    /** `WalkStep` over a prefix of a list of items, extended by the next one. */
    lemma WalkPrefixStep(attrs: map<int, Attr>, attrs': map<int, Attr>, ds: DataSource, items: seq<int>, i: int, c: Cursor)
      requires 0 <= i < |items| && items[i] in attrs'
      requires forall j :: j in items[..i] ==> (j in attrs <==> j in attrs') && (j in attrs ==> LayoutKept(attrs[j], attrs'[j]))
      ensures Walk(attrs', ds, items[..i + 1], c) == Advance(ds, attrs'[items[i]], Walk(attrs, ds, items[..i], c))
    {
      assert items[..i + 1] == items[..i] + [items[i]];
      WalkStep(attrs, attrs', ds, items[..i], items[i], c);
    }

    /** `WalkStep` over the range of a forward walk, where placing `index` may change only other items' reported frames. */
    lemma WalkRangeStep(attrs: map<int, Attr>, attrs': map<int, Attr>, ds: DataSource, lo: int, index: int, c: Cursor)
      requires lo <= index && index in attrs'
      requires attrs'.Keys == attrs.Keys + {index}
      requires forall k :: k in attrs && k != index ==> LayoutKept(attrs[k], attrs'[k])
      ensures Walk(attrs', ds, Range(lo, index + 1), c) == Advance(ds, attrs'[index], Walk(attrs, ds, Range(lo, index), c))
    {
      RangeExtend(lo, index);
      WalkStep(attrs, attrs', ds, Range(lo, index), index, c);
    }

    /** Laying out `index` where the walk places it, keeping every other item's layout, extends `LaidOut` past it. */
    lemma LaidOutStep(ds: DataSource, fr: Rect, A: map<int, Attr>, attrs: map<int, Attr>, attrs': map<int, Attr>,
                      firstIndex: int, index: int, start: Cursor)
      requires firstIndex <= index
      requires LaidOut(ds, fr, A, attrs, firstIndex, index, start)
      requires attrs'.Keys == attrs.Keys + {index}
      requires forall k :: k in attrs && k != index ==> LayoutKept(attrs[k], attrs'[k])
      requires var c := Walk(attrs, ds, Range(firstIndex, index), start);
        var w := ItemWidth(ds, sectionWidth, index);
        && (index in A || ds.frameOfInterest.Contains(CellOrigin(fr, ds, c, w)))
        && attrs'[index].originalFrame.x == Placement(fr, ds, c, w).x
        && attrs'[index].originalFrame.y == Placement(fr, ds, c, w).y
      ensures LaidOut(ds, fr, A, attrs', firstIndex, index + 1, start)
    {
      forall k | firstIndex <= k < index + 1
        ensures PlacedAt(ds, fr, A, attrs', firstIndex, start, k)
      {
        WalkKept(attrs, attrs', ds, Range(firstIndex, k), start);
        if k < index {
          assert PlacedAt(ds, fr, A, attrs, firstIndex, start, k);
        }
      }
    }

    /** Changes that keep the layout of every computed item, and add items at will, keep `LaidOut`. */
    lemma LaidOutKept(ds: DataSource, fr: Rect, A: map<int, Attr>, attrs: map<int, Attr>, attrs': map<int, Attr>,
                      firstIndex: int, stop: int, start: Cursor)
      requires LaidOut(ds, fr, A, attrs, firstIndex, stop, start)
      requires attrs.Keys <= attrs'.Keys
      requires forall k :: k in attrs ==> LayoutKept(attrs[k], attrs'[k])
      ensures LaidOut(ds, fr, A, attrs', firstIndex, stop, start)
    {
      forall k | firstIndex <= k < stop
        ensures PlacedAt(ds, fr, A, attrs', firstIndex, start, k)
      {
        assert PlacedAt(ds, fr, A, attrs, firstIndex, start, k);
        forall j | j in Range(firstIndex, k)
          ensures j in attrs
        {
          assert PlacedAt(ds, fr, A, attrs, firstIndex, start, j);
        }
        WalkKept(attrs, attrs', ds, Range(firstIndex, k), start);
      }
    }

    /** Creating `items[i]` where the walk over the ones before it places it extends `ForcedRun` past it. */
    lemma ForcedStep(ds: DataSource, fr: Rect, attrs: map<int, Attr>, attrs': map<int, Attr>, items: seq<int>, i: int,
                     start: Cursor)
      requires 0 <= i < |items| && items[i] !in attrs
      requires forall j :: j in items[..i] ==> j in attrs
      requires ForcedRun(ds, fr, attrs, items, i, start)
      requires attrs'.Keys == attrs.Keys + {items[i]}
      requires forall k :: k in attrs ==> LayoutKept(attrs[k], attrs'[k])
      requires var c := Walk(attrs, ds, items[..i], start);
        var w := ItemWidth(ds, sectionWidth, items[i]);
        && attrs'[items[i]].originalFrame.x == Placement(fr, ds, c, w).x
        && attrs'[items[i]].originalFrame.y == Placement(fr, ds, c, w).y
      ensures ForcedRun(ds, fr, attrs', items, i + 1, start)
    {
      forall j | 0 <= j < i + 1
        ensures ForcedAt(ds, fr, attrs', items, start, j)
      {
        assert forall m :: m in items[..j] ==> m in items[..i] by {
          assert items[..j] == items[..i][..j];
        }
        WalkKept(attrs, attrs', ds, items[..j], start);
        if j < i {
          assert ForcedAt(ds, fr, attrs, items, start, j);
        }
      }
    }

    /** Changes that keep the layout of every computed item, and add items at will, keep `ForcedRun`. */
    lemma ForcedKept(ds: DataSource, fr: Rect, attrs: map<int, Attr>, attrs': map<int, Attr>, items: seq<int>, n: int,
                     start: Cursor)
      requires ForcedRun(ds, fr, attrs, items, n, start)
      requires attrs.Keys <= attrs'.Keys
      requires forall k :: k in attrs ==> LayoutKept(attrs[k], attrs'[k])
      ensures ForcedRun(ds, fr, attrs', items, n, start)
    {
      forall j | 0 <= j < n
        ensures ForcedAt(ds, fr, attrs', items, start, j)
      {
        assert ForcedAt(ds, fr, attrs, items, start, j);
        forall m | m in items[..j]
          ensures m in attrs
        {
          var i :| 0 <= i < j && items[i] == m;
          assert ForcedAt(ds, fr, attrs, items, start, i);
        }
        WalkKept(attrs, attrs', ds, items[..j], start);
      }
    }

    /**
     * `c` is where a pass from `firstIndex` over `attrs` resumes, with the
     * section's frame at `fr`. The scan back from `firstIndex - 1` finds
     * `p`, the nearest visible computed item (-1 when none): the cursor
     * starts right of it on its row, or inside the start frame's insets when
     * there is none. The bottom edge is `RowBottom` from `lowest`, which is
     * 0 or the nearest visible item on another row than the one of
     * `firstIndex` (or of `p`), every visible item between being on that
     * row; it is never above the start frame's top.
     */
    ghost predicate ResumesAt(attrs: map<int, Attr>, fr: Rect, firstIndex: int, ds: DataSource, c: Cursor, p: int, lowest: int)
    {
      var base := StartFrame(fr);
      && -1 <= p < firstIndex && 0 <= lowest <= firstIndex
      && (p < 0 ==> c.x == base.x + ds.edgeInsets.left && c.y == base.y + ds.edgeInsets.top)
      && (attrs == map[] || firstIndex == 0 ==> p < 0 && c.maxY == base.y)
      && (p < 0 ==> forall k :: 0 <= k < firstIndex && k in attrs ==> attrs[k].hidden)
      && (p >= 0 ==>
            && p in attrs && !attrs[p].hidden
            && (forall k :: p < k < firstIndex && k in attrs ==> attrs[k].hidden)
            && c.x == attrs[p].originalFrame.MaxX() + ds.inset && c.y == attrs[p].originalFrame.y
            && lowest <= p)
      && (p >= 0 ==>
            var row := if firstIndex in attrs then attrs[firstIndex].originalFrame.MinY() else attrs[p].originalFrame.MinY();
            && (forall k :: lowest < k < firstIndex && k in attrs && !attrs[k].hidden ==> attrs[k].originalFrame.MinY() == row)
            && (lowest == 0 || (lowest in attrs && !attrs[lowest].hidden && attrs[lowest].originalFrame.MinY() != row)))
      && c.maxY == RowBottom(attrs, lowest, firstIndex, base.y)
      && base.y <= c.maxY
      && ((forall k :: 0 <= k < firstIndex && k in attrs ==> attrs[k].hidden) ==>
            c == Cursor(base.x + ds.edgeInsets.left, base.y + ds.edgeInsets.top, base.y))
    }

    /** `c` is where a pass from `firstIndex` over `attrs` resumes, for some scan outcome. */
    ghost predicate Resumed(attrs: map<int, Attr>, fr: Rect, firstIndex: int, ds: DataSource, c: Cursor)
    {
      exists p, lowest :: ResumesAt(attrs, fr, firstIndex, ds, c, p, lowest)
    }

    /**
     * The cursors of the item steps of a pass from `firstIndex` over the
     * attributes `before`, started from `start` with the section's frame at
     * `fr`, which left `after`: the forward walk placed the items of
     * `[firstIndex, stop)` and ended at `atStop`, stopping as `StoppedAt`
     * says, each item of the range placed as `PlacedAt` says; the
     * downstream step created exactly the items of `FreshRun`, each where
     * the walk over the ones before it places it, and ended at `last`.
     * Nothing else became computed.
     */
    ghost predicate WalkedFrom(ds: DataSource, fr: Rect, before: map<int, Attr>, after: map<int, Attr>, firstIndex: int,
                               stop: int, start: Cursor, atStop: Cursor, last: Cursor)
      reads this`sectionWidth, this`numberOfItems
    {
      var run := FreshRun(ds.downstream, before.Keys + set k | k in Range(firstIndex, stop));
      && atStop == Walk(after, ds, Range(firstIndex, stop), start)
      && StoppedAt(ds, fr, before, stop, atStop)
      && (forall k :: k in after <==> k in before || firstIndex <= k < stop || k in run)
      && last == Walk(after, ds, run, atStop)
      && LaidOut(ds, fr, before, after, firstIndex, stop, start)
      && ForcedRun(ds, fr, after, ds.downstream, |run|, atStop)
    }

    /** A whole pass's cursors: `WalkedFrom` the cursor the pass resumed at. */
    ghost predicate Walked(ds: DataSource, fr: Rect, before: map<int, Attr>, after: map<int, Attr>, firstIndex: int,
                           stop: int, resumed: Cursor, atStop: Cursor, last: Cursor)
      reads this`sectionWidth, this`numberOfItems
    {
      && Resumed(before, fr, firstIndex, ds, resumed)
      && WalkedFrom(ds, fr, before, after, firstIndex, stop, resumed, atStop, last)
    }

    /** Changes that keep every item's layout (the frame step) keep the cursors of a pass. */
    lemma WalkedKept(ds: DataSource, fr: Rect, before: map<int, Attr>, after: map<int, Attr>, after': map<int, Attr>,
                     firstIndex: int, stop: int, resumed: Cursor, atStop: Cursor, last: Cursor)
      requires Walked(ds, fr, before, after, firstIndex, stop, resumed, atStop, last)
      requires after'.Keys == after.Keys && forall k :: k in after ==> LayoutKept(after[k], after'[k])
      ensures Walked(ds, fr, before, after', firstIndex, stop, resumed, atStop, last)
    {
      var run := FreshRun(ds.downstream, before.Keys + set k | k in Range(firstIndex, stop));
      WalkKept(after, after', ds, Range(firstIndex, stop), resumed);
      WalkKept(after, after', ds, run, atStop);
      LaidOutKept(ds, fr, before, after, after', firstIndex, stop, resumed);
      ForcedKept(ds, fr, after, after', ds.downstream, |run|, atStop);
    }

    /**
     * The bottom edge a pass ends with, the one the section's height is
     * measured to: never above the resumed cursor's, at or below the bottom
     * of every item the pass placed that advances the cursor, and equal to
     * the resumed one or to one of those bottoms.
     */
    lemma {:induction false} PassBottomIsMax(ds: DataSource, fr: Rect, before: map<int, Attr>, after: map<int, Attr>,
                                             firstIndex: int, stop: int, resumed: Cursor, atStop: Cursor, last: Cursor)
      requires WalkedFrom(ds, fr, before, after, firstIndex, stop, resumed, atStop, last)
      ensures resumed.maxY <= last.maxY
      ensures var run := FreshRun(ds.downstream, before.Keys + set k | k in Range(firstIndex, stop));
        forall k :: (firstIndex <= k < stop || k in run) && Advances(after[k]) ==> after[k].originalFrame.MaxY() <= last.maxY
      ensures var run := FreshRun(ds.downstream, before.Keys + set k | k in Range(firstIndex, stop));
        last.maxY == resumed.maxY ||
        exists k :: (firstIndex <= k < stop || k in run) && Advances(after[k]) && last.maxY == after[k].originalFrame.MaxY()
    {
      var run := FreshRun(ds.downstream, before.Keys + set k | k in Range(firstIndex, stop));
      WalkIsMax(after, ds, Range(firstIndex, stop), resumed);
      WalkIsMax(after, ds, run, atStop);
      if last.maxY != atStop.maxY {
        var k :| k in run && Advances(after[k]) && last.maxY == after[k].originalFrame.MaxY();
      } else if atStop.maxY != resumed.maxY {
        var k :| k in Range(firstIndex, stop) && Advances(after[k]) && atStop.maxY == after[k].originalFrame.MaxY();
        assert firstIndex <= k < stop;
      }
    }

    /**
     * The section of the lazy-loading tests: 100 items, each as wide as the
     * section (320 points) and 100 points high, in a vertical section
     * without a parent, insets or downstream items, whose frame `fr` is at
     * the origin; the frame of interest is the first 500 points.
     */
    ghost predicate HundredRows(ds: DataSource, fr: Rect)
      reads this`sectionWidth, this`numberOfItems
    {
      && sectionAttributes.None? && sectionWidth == 320.0 && numberOfItems == 100
      && fr.x == 0.0 && fr.y == 0.0
      && ds.scrollDirection == Vertical && ds.edgeInsets == EdgeInsets(0.0, 0.0, 0.0, 0.0) && ds.inset == 0.0
      && ds.frameOfInterest == Rect(0.0, 0.0, 320.0, 500.0) && ds.downstream == []
      && forall k :: 0 <= k < 100 ==> ItemWidth(ds, 320.0, k) == 320.0 && ds.size(k, 320.0) == Size(320.0, 100.0)
    }

    /** In `HundredRows`, the walk over the first `j` laid-out items stacks them: the cursor is right of item `j - 1`, at its top, with the bottom at `100 j`. */
    lemma {:induction false} StackedWalk(ds: DataSource, fr: Rect, after: map<int, Attr>, stop: int, start: Cursor,
                                         invalidate: bool, custom: HeightOverride, j: int)
      requires HundredRows(ds, fr) && start == Cursor(0.0, 0.0, 0.0)
      requires 0 <= j <= stop <= 100
      requires LaidOut(ds, fr, map[], after, 0, stop, start)
      requires PassDone(map[], after, 0, stop, ds, sectionWidth, invalidate, custom)
      ensures Walk(after, ds, Range(0, j), start) ==
        if j == 0 then start else Cursor(320.0, 100.0 * (j - 1) as real, 100.0 * j as real)
      decreases j
    {
      if j > 0 {
        var k := j - 1;
        StackedWalk(ds, fr, after, stop, start, invalidate, custom, k);
        RangeExtend(0, k);
        assert Range(0, j)[..|Range(0, j)| - 1] == Range(0, k);
        assert PlacedAt(ds, fr, map[], after, 0, start, k);
        assert Computed(after[k], Prior(map[], k), k, ds, ItemWidth(ds, sectionWidth, k), invalidate);
        assert after[k].originalFrame == Rect(0.0, 100.0 * k as real, 320.0, 100.0);
      }
    }

    /**
     * The lazy-loading test of a 320 by 500 frame of interest over 100
     * items 100 points high: a pass from item 0 with nothing computed lays
     * out exactly items 0 to 4. Item 4 starts at 400, inside the frame of
     * interest; item 5 would start at 500, outside it.
     */
    lemma FiveOfHundred(ds: DataSource, fr: Rect, after: map<int, Attr>, stop: int, resumed: Cursor, atStop: Cursor,
                        last: Cursor, invalidate: bool, custom: HeightOverride)
      requires HundredRows(ds, fr) && 0 <= stop <= 100
      requires Walked(ds, fr, map[], after, 0, stop, resumed, atStop, last)
      requires PassDone(map[], after, 0, stop, ds, sectionWidth, invalidate, custom)
      ensures stop == 5 && forall k :: k in after <==> 0 <= k < 5
    {
      var p, lowest :| ResumesAt(map[], fr, 0, ds, resumed, p, lowest);
      assert resumed == Cursor(0.0, 0.0, 0.0);
      StackedWalk(ds, fr, after, stop, resumed, invalidate, custom, stop);
      assert stop >= 5;
      StackedWalk(ds, fr, after, stop, resumed, invalidate, custom, stop - 1);
      assert PlacedAt(ds, fr, map[], after, 0, resumed, stop - 1);
      assert stop <= 5;
      assert FreshRun(ds.downstream, set k | k in Range(0, stop)) == [];
    }

    /** The height an override supplies for `a`: the current height of the item that reported its size. */
    function CustomHeight(custom: HeightOverride, a: Attr): Option<real>
      reads this
    {
      OverrideHeight(custom, a, attributes)
    }

    /**
     * The section frame a pass leaves, given the cursor `last` it ended at
     * and the frame `before` it: the left edge stays; with the first item
     * computed, the top is that item's top minus the top inset and the height
     * is the section height (exact or extrapolated, zero when not above the
     * vertical insets); otherwise the top stays and the height is zero. The
     * width is the section width in vertical flow and the packed extent in
     * horizontal flow.
     */
    ghost predicate FrameAfterPass(ds: DataSource, last: Cursor, before: Rect)
      reads this
      requires Valid()
    {
      && frame.x == before.x
      && (0 in attributes ==>
            && frame.y == attributes[0].originalFrame.y - ds.edgeInsets.top
            && frame.h == SectionHeight(last.maxY - attributes[0].originalFrame.y, ds.edgeInsets, ds.inset,
                                        |attributes|, numberOfItems))
      && (0 !in attributes ==> frame.y == before.y && frame.h == 0.0)
      && frame.w == match ds.scrollDirection
                    case Vertical => sectionWidth
                    case Horizontal => last.x - ds.inset + ds.edgeInsets.right
    }

    constructor(sectionIndex: int, sectionAttributes: Option<ParentAttrs>, numberOfItems: int, origin: Point,
                sectionWidth: real, dataSource: Option<DataSource>)
      requires 0 <= numberOfItems
      ensures Valid() && attributes == map[] && created == []
      ensures this.sectionIndex == sectionIndex && this.sectionAttributes == sectionAttributes
      ensures this.numberOfItems == numberOfItems && this.sectionWidth == sectionWidth
      ensures this.dataSource == dataSource
      ensures frame == Rect(origin.x, origin.y, sectionWidth, 0.0)
    {
      this.sectionIndex := sectionIndex;
      this.sectionAttributes := sectionAttributes;
      this.numberOfItems := numberOfItems;
      this.sectionWidth := sectionWidth;
      this.dataSource := dataSource;
      attributes := map[];
      created := [];
      frame := Rect(origin.x, origin.y, sectionWidth, 0.0);
    }

    /**
     * Gives the row that ends at `index` the reported height `maxHeight`:
     * walking down from `index`, every item whose original top equals the
     * top of the item at `index` gets that frame height; the walk stops at
     * another row or at a missing index. Original frames are not touched.
     */
    method UpdateHeightForRowsFromIndex(index: int, maxHeight: real) returns (ghost lo: int)
      requires Valid()
      modifies this`attributes
      ensures Valid() && attributes.Keys == old(attributes).Keys
      ensures RowAligned(old(attributes), attributes, index, maxHeight, lo)
      ensures 0 <= index && index in old(attributes) ==>
        var y := old(attributes)[index].originalFrame.y;
        RowWalkAsWritten(old(attributes), index, y).Some? ==> lo == RowWalkAsWritten(old(attributes), index, y).value
      ensures forall k :: k in attributes ==> LayoutKept(old(attributes)[k], attributes[k])
    {
      lo := index + 1;
      if index < 0 || index !in attributes {
        return;
      }
      ghost var A := attributes;
      var y := attributes[index].originalFrame.y;
      var currentIndex := index;
      while currentIndex >= 0
        invariant -1 <= currentIndex <= index && lo == currentIndex + 1
        invariant attributes.Keys == A.Keys
        invariant forall k :: lo <= k <= index ==> k in A && A[k].originalFrame.y == y
        invariant forall k :: k in attributes ==>
          attributes[k] == if lo <= k <= index then A[k].(frame := A[k].frame.(h := maxHeight)) else A[k]
        decreases currentIndex
      {
        if currentIndex !in attributes || attributes[currentIndex].originalFrame.y != y {
          break;
        }
        var a := attributes[currentIndex];
        ghost var prev := attributes;
        attributes := attributes[currentIndex := a.(frame := a.frame.(h := maxHeight))];
        forall k | k in attributes
          ensures attributes[k] == if currentIndex <= k <= index then A[k].(frame := A[k].frame.(h := maxHeight)) else A[k]
        {
          if k != currentIndex {
            assert attributes[k] == prev[k];
          }
        }
        currentIndex := currentIndex - 1;
        lo := lo - 1;
      }
    }

    /** Stores a fresh attribute for `index`, with identity and estimate flag from the data source. */
    method CreateAttribute(index: int, ds: DataSource) returns (a: Attr)
      requires Valid() && 0 <= index < numberOfItems
      modifies this`attributes
      ensures Valid()
      ensures a == NewAttr(index, ds) && attributes == old(attributes)[index := a]
    {
      a := NewAttr(index, ds);
      attributes := attributes[index := a];
    }

    /**
     * Moves the cursor to the start of the next row when the item does not
     * fit in the current one, first giving the finished row, which ends at
     * `index - 1`, the row's height when row heights are aligned.
     */
    method WrapRow(index: int, ds: DataSource, cur: Cursor, width: real) returns (p: Point)
      requires Valid()
      modifies this`attributes
      ensures Valid() && attributes.Keys == old(attributes).Keys
      ensures p == Placement(frame, ds, cur, width)
      ensures forall k :: k in attributes ==> LayoutKept(old(attributes)[k], attributes[k])
      ensures forall k :: k in attributes && k >= index ==> attributes[k] == old(attributes)[k]
      ensures !(ds.alignRowHeights && ShouldBeOnNextRow(frame, ds, cur.x, width)) ==> attributes == old(attributes)
    {
      var nextX, nextY := cur.x, cur.y;
      if ShouldBeOnNextRow(frame, ds, cur.x, width) {
        if ds.alignRowHeights {
          ghost var _ := UpdateHeightForRowsFromIndex(index - 1, cur.maxY - nextY);
        }
        if cur.maxY > nextY {
          nextY := cur.maxY + ds.inset;
        }
        nextX := frame.x + ds.edgeInsets.left;
      }
      p := Point(nextX, nextY);
    }

    /**
     * Creates or updates the attribute of the item at `index` placed at `p`
     * (original coordinates). An existing attribute is reset when the pass
     * invalidates; a new one is announced to the delegate. The measured
     * height (standardized) is reused when the standardized width is unchanged and the pass does not
     * invalidate (an applicable height override wins); otherwise the data
     * source sizes the item. Alpha follows the hidden flag.
     */
    method FillAttribute(index: int, ds: DataSource, p: Point, invalidate: bool, custom: HeightOverride)
      returns (a: Attr)
      requires Valid() && 0 <= index < numberOfItems
      modifies this`attributes, this`created
      ensures Valid() && attributes == old(attributes)[index := a]
      ensures created == if index in old(attributes) then old(created) else old(created) + [index]
      ensures Computed(a, Prior(old(attributes), index), index, ds, ItemWidth(ds, sectionWidth, index), invalidate)
      ensures index in old(attributes) && Reuse(old(attributes)[index], ItemWidth(ds, sectionWidth, index), invalidate) ==>
        a.originalFrame.h ==
          match OverrideHeight(custom, old(attributes)[index], old(attributes))
          case Some(h) => h
          case None => old(attributes)[index].originalFrame.Height()
      ensures a.originalFrame.x == p.x && a.originalFrame.y == p.y
      ensures a.frame == a.originalFrame.Translate(ParentOffset(frame).x, ParentOffset(frame).y)
    {
      var width := ItemWidth(ds, sectionWidth, index);
      var existing := index in attributes;
      var offset := ParentOffset(frame);
      var cellOrigin := Point(p.x + offset.x, p.y + offset.y);
      if existing {
        a := attributes[index];
        if invalidate {
          a := a.(isEstimateSize := ds.isEstimate(index), originalFrame := ZeroRect, frame := ZeroRect);
        }
      } else {
        a := CreateAttribute(index, ds);
      }
      if !existing || invalidate {
        a := a.(zIndex := ds.zIndex(index));
      }

      var w, h;
      if existing && !invalidate && attributes[index].originalFrame.Width() == width {
        var customHeight := CustomHeight(custom, attributes[index]);
        h := if customHeight.Some? then customHeight.value else attributes[index].originalFrame.Height();
        w := width;
      } else {
        var size := ds.size(index, width);
        w, h := size.w, size.h;
      }

      a := a.(frame := Rect(cellOrigin.x, cellOrigin.y, w, h),
              originalFrame := Rect(cellOrigin.x - offset.x, cellOrigin.y - offset.y, w, h));
      if !existing {
        created := created + [index];
      }
      a := a.(alpha := if a.hidden then 0.0 else 1.0);
      attributes := attributes[index := a];
    }

    /**
     * Places the item at `index` at the cursor `cur`, wrapping to the next
     * row when it does not fit. A new item whose origin falls outside the
     * frame of interest is not created unless `force` is set; `ok` is false
     * then and the cursor stays. Otherwise the item is created or updated
     * and the cursor advances past it when it is visible with positive
     * height (or the section is hidden).
     */
    method CreateOrUpdateAttribute(index: int, ds: DataSource, cur: Cursor, force: bool, invalidate: bool,
                                   custom: HeightOverride)
      returns (ok: bool, next: Cursor)
      requires Valid() && 0 <= index < numberOfItems
      modifies this`attributes, this`created
      ensures Valid()
      ensures ok <==> index in old(attributes) || force || ds.frameOfInterest.Contains(CellOrigin(frame, ds, cur, ItemWidth(ds, sectionWidth, index)))
      ensures attributes.Keys == if ok then old(attributes).Keys + {index} else old(attributes).Keys
      ensures created == if ok && index !in old(attributes) then old(created) + [index] else old(created)
      ensures forall k :: k in old(attributes) && k != index ==> LayoutKept(old(attributes)[k], attributes[k])
      ensures !(ds.alignRowHeights && ShouldBeOnNextRow(frame, ds, cur.x, ItemWidth(ds, sectionWidth, index))) ==>
        forall k :: k in old(attributes) && k != index ==> attributes[k] == old(attributes)[k]
      ensures !ok ==> next == cur
      ensures ok ==> Computed(attributes[index], Prior(old(attributes), index), index, ds, ItemWidth(ds, sectionWidth, index), invalidate)
      ensures ok && index in old(attributes) && Reuse(old(attributes)[index], ItemWidth(ds, sectionWidth, index), invalidate) ==>
        attributes[index].originalFrame.h ==
          match OverrideHeight(custom, old(attributes)[index], old(attributes))
          case Some(h) => h
          case None => old(attributes)[index].originalFrame.Height()
      ensures ok ==>
        var a := attributes[index];
        var p := Placement(frame, ds, cur, ItemWidth(ds, sectionWidth, index));
        && a.originalFrame.x == p.x && a.originalFrame.y == p.y
        && a.frame == a.originalFrame.Translate(ParentOffset(frame).x, ParentOffset(frame).y)
        && next == Advance(ds, a, cur)
    {
      var width := ItemWidth(ds, sectionWidth, index);
      var existing := index in attributes;
      ghost var customBefore := CustomHeight(custom, if existing then attributes[index] else NewAttr(index, ds));
      var p := WrapRow(index, ds, cur, width);
      assert existing ==> CustomHeight(custom, attributes[index]) == customBefore;
      var offset := ParentOffset(frame);
      var cellOrigin := Point(p.x + offset.x, p.y + offset.y);
      if !existing && !ds.frameOfInterest.Contains(cellOrigin) && !force {
        return false, cur;
      }
      var a := FillAttribute(index, ds, p, invalidate, custom);
      if Advances(a) {
        next := Cursor(a.originalFrame.MaxX() + ds.inset, p.y, Max(a.originalFrame.MaxY(), cur.maxY));
      } else {
        next := Cursor(p.x, p.y, cur.maxY);
      }
      ok := true;
    }

    /**
     * The cursor a pass starting at `firstIndex` resumes from. With nothing
     * computed, or from the first item, packing starts inside the insets of
     * the start frame. Otherwise the scan walks down from `firstIndex - 1`
     * over the visible computed items: the first one found (`p`) gives the
     * start, right of it on its row, and the bottom edge grows over the
     * items scanned until one on another row (`lowest`) ends the scan.
     */
    method ResumeCursor(firstIndex: int, ds: DataSource) returns (start: Point, maxY: real, ghost p: int, ghost lowest: int)
      requires 0 <= firstIndex
      ensures ResumesAt(attributes, frame, firstIndex, ds, Cursor(start.x, start.y, maxY), p, lowest)
    {
      var base := StartFrame(frame);
      if attributes != map[] && firstIndex > 0 {
        start, maxY, p, lowest := ScanBack(firstIndex, ds, base);
      } else {
        start := Point(base.x + ds.edgeInsets.left, base.y + ds.edgeInsets.top);
        maxY := base.y;
        p, lowest := -1, firstIndex;
      }
    }

    /**
     * The backward scan of `ResumeCursor`, from `firstIndex - 1` down over
     * the visible computed items, with `base` the start frame.
     */
    method ScanBack(firstIndex: int, ds: DataSource, base: Rect) returns (start: Point, maxY: real, ghost p: int, ghost lowest: int)
      requires 0 < firstIndex
      ensures -1 <= p < firstIndex && 0 <= lowest <= firstIndex
      ensures p < 0 ==> start == Point(base.x + ds.edgeInsets.left, base.y + ds.edgeInsets.top)
      ensures p < 0 ==> forall k :: 0 <= k < firstIndex && k in attributes ==> attributes[k].hidden
      ensures p >= 0 ==>
        && p in attributes && !attributes[p].hidden
        && (forall k :: p < k < firstIndex && k in attributes ==> attributes[k].hidden)
        && start == Point(attributes[p].originalFrame.MaxX() + ds.inset, attributes[p].originalFrame.y)
        && lowest <= p
      ensures p >= 0 ==>
        var row := if firstIndex in attributes then attributes[firstIndex].originalFrame.MinY() else attributes[p].originalFrame.MinY();
        && (forall k :: lowest < k < firstIndex && k in attributes && !attributes[k].hidden ==> attributes[k].originalFrame.MinY() == row)
        && (lowest == 0 || (lowest in attributes && !attributes[lowest].hidden && attributes[lowest].originalFrame.MinY() != row))
      ensures maxY == RowBottom(attributes, lowest, firstIndex, base.y)
      ensures base.y <= maxY
      ensures (forall k :: 0 <= k < firstIndex && k in attributes ==> attributes[k].hidden) ==>
        start == Point(base.x + ds.edgeInsets.left, base.y + ds.edgeInsets.top) && maxY == base.y
    {
      start := Point(base.x + ds.edgeInsets.left, base.y + ds.edgeInsets.top);
      maxY := base.y;
      p := -1;
      var originY: Option<real> := None;
      if firstIndex in attributes {
        originY := Some(attributes[firstIndex].originalFrame.MinY());
      }
      var found := false;
      var index := firstIndex - 1;
      lowest := 0;
      while index > -1
        invariant -1 <= index < firstIndex && lowest == 0
        invariant found <==> p >= 0
        invariant found ==> index < p < firstIndex && p in attributes && !attributes[p].hidden
        invariant found ==> start == Point(attributes[p].originalFrame.MaxX() + ds.inset, attributes[p].originalFrame.y)
        invariant !found ==> p == -1 && start == Point(base.x + ds.edgeInsets.left, base.y + ds.edgeInsets.top)
        invariant forall k :: (if found then p else index) < k < firstIndex && k in attributes ==> attributes[k].hidden
        invariant originY == if firstIndex in attributes then Some(attributes[firstIndex].originalFrame.MinY())
                             else if found then Some(attributes[p].originalFrame.MinY()) else None
        invariant forall k :: index < k < firstIndex && k in attributes && !attributes[k].hidden ==>
          attributes[k].originalFrame.MinY() == originY.value
        invariant maxY == RowBottom(attributes, index + 1, firstIndex, base.y)
        decreases index
      {
        if index in attributes && !attributes[index].hidden {
          var nextAttribute := attributes[index];
          if originY.None? {
            originY := Some(nextAttribute.originalFrame.MinY());
          }
          if !found {
            start := Point(nextAttribute.originalFrame.MaxX() + ds.inset, nextAttribute.originalFrame.y);
            found := true;
            p := index;
          }
          maxY := Max(maxY, nextAttribute.originalFrame.MaxY());
          if originY.value != nextAttribute.originalFrame.MinY() {
            lowest := index;
            break;
          }
        }
        index := index - 1;
      }
      RowBottomIsMax(attributes, lowest, firstIndex, base.y);
    }

    /**
     * The forward walk of a pass: creates or updates the items from
     * `firstIndex` on, in index order, and stops at the first new item whose
     * origin falls outside the frame of interest (`stop`), or at the end.
     * The cursor `next` is the one the walk ended with, the one `stop` was
     * placed from; `A` and `log` name the attributes and the log the walk
     * starts from, and every item it laid out is `PlacedAt` its place.
     */
    method PackFrom(firstIndex: int, ds: DataSource, cur: Cursor, invalidate: bool, custom: HeightOverride,
                    ghost A: map<int, Attr>, ghost log: seq<int>)
      returns (ghost stop: int, next: Cursor)
      requires Valid() && 0 <= firstIndex <= numberOfItems
      requires A == attributes && log == created
      requires custom.Override? ==> custom.at in attributes
      modifies this`attributes, this`created
      ensures Valid() && firstIndex <= stop <= numberOfItems
      ensures StoppedAt(ds, frame, A, stop, next)
      ensures Packing(ds, A, log, firstIndex, stop, cur, next, invalidate, custom)
    {
      next := cur;
      var index := firstIndex;
      while index < numberOfItems
        invariant Valid() && firstIndex <= index <= numberOfItems
        invariant Packing(ds, A, log, firstIndex, index, cur, next, invalidate, custom)
      {
        var ok;
        ok, next := PackStep(index, ds, next, invalidate, custom, A, log, firstIndex, cur);
        if !ok {
          break;
        }
        index := index + 1;
      }
      stop := index;
    }

    /**
     * The state of the forward walk from `firstIndex` over the attributes
     * `A` and the log `log`, started from `start`, once the items before
     * `index` are laid out: only those are new, the log holds the new keys,
     * each is computed and placed, and `next` is the walk's cursor.
     */
    ghost predicate Packing(ds: DataSource, A: map<int, Attr>, log: seq<int>, firstIndex: int, index: int, start: Cursor,
                            next: Cursor, invalidate: bool, custom: HeightOverride)
      reads this`attributes, this`created, this`frame, this`sectionWidth
    {
      && (forall k :: k in attributes && k !in A ==> firstIndex <= k < index)
      && LogHasNewKeys(A.Keys, log, attributes, created)
      && PassDone(A, attributes, firstIndex, index, ds, sectionWidth, invalidate, custom)
      && next == Walk(attributes, ds, Range(firstIndex, index), start)
      && LaidOut(ds, frame, A, attributes, firstIndex, index, start)
    }

    /** One item of the packing loop: the pass invariant moves past `index` exactly when it is laid out. */
    method PackStep(index: int, ds: DataSource, cur: Cursor, invalidate: bool, custom: HeightOverride,
                    ghost A: map<int, Attr>, ghost log0: seq<int>, ghost firstIndex: int, ghost start: Cursor)
      returns (ok: bool, next: Cursor)
      requires Valid() && 0 <= firstIndex <= index < numberOfItems
      requires custom.Override? ==> custom.at in A
      requires Packing(ds, A, log0, firstIndex, index, start, cur, invalidate, custom)
      modifies this`attributes, this`created
      ensures Valid()
      ensures !ok ==>
        && next == cur && StoppedAt(ds, frame, A, index, next)
        && Packing(ds, A, log0, firstIndex, index, start, next, invalidate, custom)
      ensures ok ==> Packing(ds, A, log0, firstIndex, index + 1, start, next, invalidate, custom)
    {
      ghost var before, beforeLog := attributes, created;
      ok, next := CreateOrUpdateAttribute(index, ds, cur, false, invalidate, custom);
      if !ok {
        WalkKept(before, attributes, ds, Range(firstIndex, index), start);
        PassDoneKept(A, before, attributes, firstIndex, index, ds, sectionWidth, invalidate, custom);
        LaidOutKept(ds, frame, A, before, attributes, firstIndex, index, start);
        return;
      }
      LaidOutStep(ds, frame, A, before, attributes, firstIndex, index, start);
      PackStepKept(A, log0, before, beforeLog, attributes, created, ds, firstIndex, index, start, cur, next,
                   sectionWidth, invalidate, custom);
    }

    /** What laying out `index` in the packing loop keeps and extends, stated over the maps and logs before and after it. */
    lemma PackStepKept(A: map<int, Attr>, log0: seq<int>, attrs: map<int, Attr>, log1: seq<int>,
                       attrs': map<int, Attr>, log2: seq<int>, ds: DataSource, firstIndex: int, index: int,
                       start: Cursor, cur: Cursor, next: Cursor, width: real, invalidate: bool, custom: HeightOverride)
      requires 0 <= firstIndex <= index
      requires custom.Override? ==> custom.at in A
      requires forall k :: k in attrs && k !in A ==> firstIndex <= k < index
      requires LogHasNewKeys(A.Keys, log0, attrs, log1)
      requires PassDone(A, attrs, firstIndex, index, ds, width, invalidate, custom)
      requires cur == Walk(attrs, ds, Range(firstIndex, index), start)
      requires attrs'.Keys == attrs.Keys + {index}
      requires log2 == if index !in attrs then log1 + [index] else log1
      requires forall k :: k in attrs && k != index ==> LayoutKept(attrs[k], attrs'[k])
      requires Computed(attrs'[index], Prior(attrs, index), index, ds, ItemWidth(ds, width, index), invalidate)
      requires index in attrs && Reuse(attrs[index], ItemWidth(ds, width, index), invalidate) ==>
        attrs'[index].originalFrame.h ==
          match OverrideHeight(custom, attrs[index], attrs)
          case Some(h) => h
          case None => attrs[index].originalFrame.Height()
      requires next == Advance(ds, attrs'[index], cur)
      ensures forall k :: k in attrs' && k !in A ==> firstIndex <= k < index + 1
      ensures LogHasNewKeys(A.Keys, log0, attrs', log2)
      ensures PassDone(A, attrs', firstIndex, index + 1, ds, width, invalidate, custom)
      ensures next == Walk(attrs', ds, Range(firstIndex, index + 1), start)
    {
      WalkRangeStep(attrs, attrs', ds, firstIndex, index, start);
      LogStep(A.Keys, log0, attrs, log1, attrs', log2, index);
      PassStep(A, attrs, attrs', firstIndex, index, ds, width, invalidate, custom);
    }

    /**
     * The downstream step of a pass: the data source's downstream items are
     * created in order, regardless of the frame of interest, until one that
     * is already computed.
     */
    method CreateDownstream(ds: DataSource, cur: Cursor, invalidate: bool, custom: HeightOverride,
                            ghost A: map<int, Attr>, ghost firstIndex: int, ghost stop: int)
      returns (next: Cursor)
      requires Valid() && forall i :: i in ds.downstream ==> 0 <= i < numberOfItems
      requires PassDone(A, attributes, firstIndex, stop, ds, sectionWidth, invalidate, custom)
      modifies this`attributes, this`created
      ensures Valid() && old(attributes).Keys <= attributes.Keys
      ensures forall k :: k in attributes && k !in old(attributes) ==> k in ds.downstream
      ensures forall k :: k in old(attributes) ==> LayoutKept(old(attributes)[k], attributes[k])
      ensures LogHasNewKeys(old(attributes).Keys, old(created), attributes, created)
      ensures PassDone(A, attributes, firstIndex, stop, ds, sectionWidth, invalidate, custom)
      ensures var run := FreshRun(ds.downstream, old(attributes).Keys);
        && (forall k :: k in attributes <==> k in old(attributes) || k in run)
        && next == Walk(attributes, ds, run, cur)
        && ForcedRun(ds, frame, attributes, ds.downstream, |run|, cur)
    {
      next := cur;
      ghost var B, log := attributes, created;
      ghost var run := FreshRun(ds.downstream, B.Keys);
      var i := 0;
      while i < |ds.downstream|
        invariant Valid() && 0 <= i <= |run| && B.Keys <= attributes.Keys
        invariant forall k :: k in attributes <==> k in B || k in ds.downstream[..i]
        invariant forall k :: k in B ==> LayoutKept(B[k], attributes[k])
        invariant LogHasNewKeys(B.Keys, log, attributes, created)
        invariant PassDone(A, attributes, firstIndex, stop, ds, sectionWidth, invalidate, custom)
        invariant next == Walk(attributes, ds, ds.downstream[..i], cur)
        invariant ForcedRun(ds, frame, attributes, ds.downstream, i, cur)
      {
        var item := ds.downstream[i];
        if item in attributes {
          break;
        }
        next := DownstreamStep(ds, cur, next, invalidate, custom, A, firstIndex, stop, B, log, i);
        i := i + 1;
      }
      DownstreamExit(ds, B, attributes, cur, next, i);
    }

    /** Where the downstream loop ends, its first `i` items are exactly the `FreshRun`. */
    lemma DownstreamExit(ds: DataSource, B: map<int, Attr>, attrs: map<int, Attr>, cur: Cursor, next: Cursor, i: int)
      requires 0 <= i <= |FreshRun(ds.downstream, B.Keys)|
      requires i == |ds.downstream| || ds.downstream[i] in attrs
      requires forall k :: k in attrs <==> k in B || k in ds.downstream[..i]
      requires next == Walk(attrs, ds, ds.downstream[..i], cur)
      ensures var run := FreshRun(ds.downstream, B.Keys);
        && i == |run|
        && (forall k :: k in attrs <==> k in B || k in run)
        && next == Walk(attrs, ds, run, cur)
    {
      var run := FreshRun(ds.downstream, B.Keys);
      if i < |ds.downstream| {
        var item := ds.downstream[i];
        assert item in B || item in ds.downstream[..i];
      }
      assert i == |run|;
      assert run == ds.downstream[..i];
    }

    /** One downstream item of `CreateDownstream`: creating `ds.downstream[i]` extends the walk over the prefix by it. */
    method DownstreamStep(ds: DataSource, ghost cur: Cursor, next: Cursor, invalidate: bool, custom: HeightOverride,
                          ghost A: map<int, Attr>, ghost firstIndex: int, ghost stop: int,
                          ghost B: map<int, Attr>, ghost log: seq<int>, i: int)
      returns (after: Cursor)
      requires Valid() && 0 <= i < |ds.downstream| && forall j :: j in ds.downstream ==> 0 <= j < numberOfItems
      requires ds.downstream[i] !in attributes && i <= |FreshRun(ds.downstream, B.Keys)| && B.Keys <= attributes.Keys
      requires forall k :: k in attributes <==> k in B || k in ds.downstream[..i]
      requires forall k :: k in B ==> LayoutKept(B[k], attributes[k])
      requires LogHasNewKeys(B.Keys, log, attributes, created)
      requires PassDone(A, attributes, firstIndex, stop, ds, sectionWidth, invalidate, custom)
      requires next == Walk(attributes, ds, ds.downstream[..i], cur)
      requires ForcedRun(ds, frame, attributes, ds.downstream, i, cur)
      modifies this`attributes, this`created
      ensures Valid() && i + 1 <= |FreshRun(ds.downstream, B.Keys)| && B.Keys <= attributes.Keys
      ensures forall k :: k in attributes <==> k in B || k in ds.downstream[..i + 1]
      ensures forall k :: k in B ==> LayoutKept(B[k], attributes[k])
      ensures LogHasNewKeys(B.Keys, log, attributes, created)
      ensures PassDone(A, attributes, firstIndex, stop, ds, sectionWidth, invalidate, custom)
      ensures after == Walk(attributes, ds, ds.downstream[..i + 1], cur)
      ensures ForcedRun(ds, frame, attributes, ds.downstream, i + 1, cur)
    {
      var item := ds.downstream[i];
      assert item in ds.downstream;
      ghost var before, beforeLog := attributes, created;
      var _, a := CreateOrUpdateAttribute(item, ds, next, true, invalidate, custom);
      after := a;
      DownstreamStepKept(A, B, log, before, beforeLog, attributes, created, ds, i, cur, next, after,
                         firstIndex, stop, sectionWidth, invalidate, custom);
      ForcedStep(ds, frame, before, attributes, ds.downstream, i, cur);
    }

    /** What one downstream item's creation keeps and extends, stated over the maps and logs before and after it. */
    lemma DownstreamStepKept(A: map<int, Attr>, B: map<int, Attr>, log: seq<int>,
                             attrs: map<int, Attr>, log1: seq<int>, attrs': map<int, Attr>, log2: seq<int>,
                             ds: DataSource, i: int, cur: Cursor, next: Cursor, after: Cursor,
                             firstIndex: int, stop: int, width: real, invalidate: bool, custom: HeightOverride)
      requires 0 <= i < |ds.downstream| && ds.downstream[i] !in attrs
      requires B.Keys <= attrs.Keys && i <= |FreshRun(ds.downstream, B.Keys)|
      requires forall k :: k in attrs <==> k in B || k in ds.downstream[..i]
      requires forall k :: k in B ==> LayoutKept(B[k], attrs[k])
      requires LogHasNewKeys(B.Keys, log, attrs, log1)
      requires PassDone(A, attrs, firstIndex, stop, ds, width, invalidate, custom)
      requires next == Walk(attrs, ds, ds.downstream[..i], cur)
      requires attrs'.Keys == attrs.Keys + {ds.downstream[i]} && log2 == log1 + [ds.downstream[i]]
      requires forall k :: k in attrs && k != ds.downstream[i] ==> LayoutKept(attrs[k], attrs'[k])
      requires after == Advance(ds, attrs'[ds.downstream[i]], next)
      ensures i + 1 <= |FreshRun(ds.downstream, B.Keys)| && B.Keys <= attrs'.Keys
      ensures forall k :: k in attrs' <==> k in B || k in ds.downstream[..i + 1]
      ensures forall k :: k in B ==> LayoutKept(B[k], attrs'[k])
      ensures LogHasNewKeys(B.Keys, log, attrs', log2)
      ensures PassDone(A, attrs', firstIndex, stop, ds, width, invalidate, custom)
      ensures after == Walk(attrs', ds, ds.downstream[..i + 1], cur)
    {
      var item := ds.downstream[i];
      assert item !in B && item !in ds.downstream[..i];
      LogStep(B.Keys, log, attrs, log1, attrs', log2, item);
      PassDoneKept(A, attrs, attrs', firstIndex, stop, ds, width, invalidate, custom);
      WalkPrefixStep(attrs, attrs', ds, ds.downstream, i, cur);
      TakeOneMore(ds.downstream, i);
    }

    /**
     * The item steps of a pass: the forward walk from `firstIndex`, the
     * alignment of the last row, and the downstream items.
     */
    method LayOutItems(firstIndex: int, ds: DataSource, cur: Cursor, invalidate: bool, custom: HeightOverride)
      returns (ghost stop: int, next: Cursor, ghost atStop: Cursor)
      requires Valid() && 0 <= firstIndex <= numberOfItems
      requires forall i :: i in ds.downstream ==> 0 <= i < numberOfItems
      requires custom.Override? ==> custom.at in attributes
      modifies this`attributes, this`created
      ensures Valid() && old(attributes).Keys <= attributes.Keys
      ensures LogHasNewKeys(old(attributes).Keys, old(created), attributes, created)
      ensures firstIndex <= stop <= numberOfItems
      ensures WalkedFrom(ds, frame, old(attributes), attributes, firstIndex, stop, cur, atStop, next)
      ensures forall k :: k in attributes && k !in old(attributes) ==> firstIndex <= k < stop || k in ds.downstream
      ensures PassDone(old(attributes), attributes, firstIndex, stop, ds, sectionWidth, invalidate, custom)
    {
      ghost var A := attributes;
      ghost var log := created;
      stop, next := PackAndAlign(firstIndex, ds, cur, invalidate, custom);
      atStop := next;
      ghost var aligned := attributes;
      ghost var alignedLog := created;
      next := CreateDownstream(ds, next, invalidate, custom, A, firstIndex, stop);
      WalkKept(aligned, attributes, ds, Range(firstIndex, stop), cur);
      LaidOutKept(ds, frame, A, aligned, attributes, firstIndex, stop, cur);
      LogTrans(A.Keys, log, aligned, alignedLog, attributes, created);
    }

    /** The forward walk of a pass, then the alignment of the last row, which moves no cursor. */
    method PackAndAlign(firstIndex: int, ds: DataSource, cur: Cursor, invalidate: bool, custom: HeightOverride)
      returns (ghost stop: int, next: Cursor)
      requires Valid() && 0 <= firstIndex <= numberOfItems
      requires custom.Override? ==> custom.at in attributes
      modifies this`attributes, this`created
      ensures Valid() && firstIndex <= stop <= numberOfItems
      ensures attributes.Keys == old(attributes).Keys + set k | k in Range(firstIndex, stop)
      ensures LogHasNewKeys(old(attributes).Keys, old(created), attributes, created)
      ensures PassDone(old(attributes), attributes, firstIndex, stop, ds, sectionWidth, invalidate, custom)
      ensures StoppedAt(ds, frame, old(attributes), stop, next)
      ensures next == Walk(attributes, ds, Range(firstIndex, stop), cur)
      ensures LaidOut(ds, frame, old(attributes), attributes, firstIndex, stop, cur)
    {
      ghost var A := attributes;
      ghost var log := created;
      stop, next := PackFrom(firstIndex, ds, cur, invalidate, custom, A, log);
      KeysAfterWalk(A, attributes, firstIndex, stop);
      ghost var packed := attributes;
      ghost var packedLog := created;
      ghost var _ := AlignLastRow(next, ds);
      PassDoneKept(A, packed, attributes, firstIndex, stop, ds, sectionWidth, invalidate, custom);
      LogKept(A.Keys, log, packed, attributes, created);
      WalkKept(packed, attributes, ds, Range(firstIndex, stop), cur);
      LaidOutKept(ds, frame, A, packed, attributes, firstIndex, stop, cur);
    }

    /**
     * The pass every mutator ends with. From the cursor resumed before
     * `firstIndex`, items are packed up to `stop`; the last row is aligned;
     * downstream items are created; and the section frame is recomputed: its
     * top follows the first item, its height is exact when every item is
     * computed and extrapolated otherwise, and its width is the section
     * width in vertical flow and the packed extent in horizontal flow.
     * Without a data source nothing happens.
     */
    method CreateOrUpdateCells(firstIndex: int, invalidate: bool, custom: HeightOverride)
      returns (ghost stop: int, ghost resumed: Cursor, ghost atStop: Cursor, ghost last: Cursor)
      requires Valid() && 0 <= firstIndex <= numberOfItems && DownstreamFits(numberOfItems)
      requires custom.Override? ==> custom.at in attributes
      modifies this`attributes, this`created, this`frame
      ensures Valid() && old(attributes).Keys <= attributes.Keys
      ensures LogHasNewKeys(old(attributes).Keys, old(created), attributes, created)
      ensures dataSource.None? ==> unchanged(this)
      ensures dataSource.Some? ==>
        var ds := dataSource.value;
        && firstIndex <= stop <= numberOfItems
        && Walked(ds, old(frame), old(attributes), attributes, firstIndex, stop, resumed, atStop, last)
        && (forall k :: k in attributes && k !in old(attributes) ==> firstIndex <= k < stop || k in ds.downstream)
        && PassDone(old(attributes), attributes, firstIndex, stop, ds, sectionWidth, invalidate, custom)
      ensures dataSource.Some? ==> FrameAfterPass(dataSource.value, last, old(frame))
    {
      stop, resumed, atStop, last := firstIndex, Cursor(0.0, 0.0, 0.0), Cursor(0.0, 0.0, 0.0), Cursor(0.0, 0.0, 0.0);
      if dataSource.None? {
        return;
      }
      var ds := dataSource.value;
      ghost var A := attributes;
      ghost var log := created;
      var cur;
      stop, cur, resumed, atStop := ResumeAndLayOut(firstIndex, ds, invalidate, custom);
      last := cur;
      ghost var laidOut := attributes;
      FinishPass(firstIndex, ds, cur, A, log, stop, invalidate, custom);
      WalkedKept(ds, old(frame), A, laidOut, attributes, firstIndex, stop, resumed, atStop, last);
    }

    /** The item steps of a pass, from the cursor resumed before `firstIndex`. */
    method ResumeAndLayOut(firstIndex: int, ds: DataSource, invalidate: bool, custom: HeightOverride)
      returns (ghost stop: int, last: Cursor, ghost resumed: Cursor, ghost atStop: Cursor)
      requires Valid() && 0 <= firstIndex <= numberOfItems
      requires forall i :: i in ds.downstream ==> 0 <= i < numberOfItems
      requires custom.Override? ==> custom.at in attributes
      modifies this`attributes, this`created
      ensures Valid() && old(attributes).Keys <= attributes.Keys
      ensures LogHasNewKeys(old(attributes).Keys, old(created), attributes, created)
      ensures firstIndex <= stop <= numberOfItems
      ensures Walked(ds, frame, old(attributes), attributes, firstIndex, stop, resumed, atStop, last)
      ensures forall k :: k in attributes && k !in old(attributes) ==> firstIndex <= k < stop || k in ds.downstream
      ensures PassDone(old(attributes), attributes, firstIndex, stop, ds, sectionWidth, invalidate, custom)
    {
      var start, maxY;
      ghost var p, lowest;
      start, maxY, p, lowest := ResumeCursor(firstIndex, ds);
      var cur := Cursor(start.x, start.y, maxY);
      resumed := cur;
      stop, last, atStop := LayOutItems(firstIndex, ds, cur, invalidate, custom);
    }

    /**
     * The frame step of a pass, which keeps what the item steps did: the
     * computed indices, the log and the per-item guarantees.
     */
    method FinishPass(firstIndex: int, ds: DataSource, last: Cursor, ghost A: map<int, Attr>, ghost log: seq<int>,
                      ghost stop: int, invalidate: bool, custom: HeightOverride)
      requires Valid() && 0 <= firstIndex && A.Keys <= attributes.Keys
      requires LogHasNewKeys(A.Keys, log, attributes, created)
      requires PassDone(A, attributes, firstIndex, stop, ds, sectionWidth, invalidate, custom)
      modifies this`attributes, this`frame
      ensures Valid() && attributes.Keys == old(attributes).Keys
      ensures forall k :: k in attributes ==> LayoutKept(old(attributes)[k], attributes[k])
      ensures LogHasNewKeys(A.Keys, log, attributes, created)
      ensures PassDone(A, attributes, firstIndex, stop, ds, sectionWidth, invalidate, custom)
      ensures FrameAfterPass(ds, last, old(frame))
    {
      UpdateSectionFrame(firstIndex, ds, last);
      PassDoneKept(A, old(attributes), attributes, firstIndex, stop, ds, sectionWidth, invalidate, custom);
      LogKept(A.Keys, log, old(attributes), attributes, created);
    }

    /**
     * The alignment step of a pass: when row heights are aligned, the row
     * that ends at the last computed item gets the height of the row being
     * packed. Only reported frame
     * heights change, so what the pass has done so far stands.
     */
    method AlignLastRow(cur: Cursor, ds: DataSource) returns (ghost lo: int)
      requires Valid()
      modifies this`attributes
      ensures Valid() && attributes.Keys == old(attributes).Keys
      ensures ds.alignRowHeights ==> RowAligned(old(attributes), attributes, |old(attributes)| - 1, cur.maxY - cur.y, lo)
      ensures !ds.alignRowHeights ==> attributes == old(attributes)
      ensures forall k :: k in attributes ==> LayoutKept(old(attributes)[k], attributes[k])
    {
      lo := 0;
      if ds.alignRowHeights {
        lo := UpdateHeightForRowsFromIndex(|attributes| - 1, cur.maxY - cur.y);
      }
    }

    /**
     * The frame step of a pass, with the cursor `last` it ended at. When the
     * first item is computed, the frame's top moves to the first item's top
     * minus the top inset (moving the reported frames of the items before
     * `firstIndex` with it) and the height is exact when every item is
     * computed and extrapolated otherwise, and zero when not above the
     * vertical insets. The width is the section width in vertical flow and
     * the packed extent in horizontal flow.
     */
    method UpdateSectionFrame(firstIndex: int, ds: DataSource, last: Cursor)
      requires Valid() && 0 <= firstIndex
      modifies this`attributes, this`frame
      ensures Valid() && attributes.Keys == old(attributes).Keys
      ensures forall k :: k in attributes ==> LayoutKept(old(attributes)[k], attributes[k])
      ensures FrameAfterPass(ds, last, old(frame))
    {
      var frameHeight := 0.0;
      ghost var extent, count := 0.0, 1;
      if 0 in attributes {
        var first := attributes[0];
        extent, count := last.maxY - first.originalFrame.y, |attributes|;
        if numberOfItems != |attributes| {
          var height := (last.maxY - first.originalFrame.y) + ds.inset;
          var percentageDone := (|attributes| as real) / (numberOfItems as real);
          frameHeight := height / percentageDone;
        } else {
          frameHeight := (last.maxY - first.originalFrame.y) + ds.edgeInsets.bottom + ds.edgeInsets.top;
        }
        MoveSectionTop(firstIndex, ds);
        assert extent == last.maxY - attributes[0].originalFrame.y && count == |attributes|;
      }
      if frameHeight <= ds.edgeInsets.bottom + ds.edgeInsets.top {
        frameHeight := 0.0;
      }
      assert 0 in attributes ==> frameHeight == SectionHeight(extent, ds.edgeInsets, ds.inset, count, numberOfItems);
      var width := match ds.scrollDirection
        case Vertical => sectionWidth
        case Horizontal => (last.x - ds.inset) + ds.edgeInsets.right;
      frame := frame.(w := width, h := frameHeight);
    }

    /**
     * The top step of a frame update: the section's top moves to the first
     * item's top minus the top inset, and the reported frames of the items
     * below `firstIndex` move back by the same amount.
     */
    method MoveSectionTop(firstIndex: int, ds: DataSource)
      requires Valid() && 0 <= firstIndex && 0 in attributes
      modifies this`attributes, this`frame
      ensures Valid() && attributes.Keys == old(attributes).Keys && |attributes| == |old(attributes)|
      ensures forall k :: k in attributes ==> LayoutKept(old(attributes)[k], attributes[k])
      ensures frame == old(frame).(y := attributes[0].originalFrame.y - ds.edgeInsets.top)
    {
      var originY := attributes[0].originalFrame.y - ds.edgeInsets.top;
      if frame.y != originY {
        var originDiff := frame.y - originY;
        frame := frame.(y := originY);
        CompensateOrigin(firstIndex, originDiff);
        assert |attributes| == |attributes.Keys| == |old(attributes).Keys| == |old(attributes)|;
      }
    }

    /** Moves the reported frames of the items below `firstIndex` up by `originDiff`, after the section's top moved. */
    method CompensateOrigin(firstIndex: int, originDiff: real)
      requires 0 <= firstIndex
      modifies this`attributes
      ensures attributes.Keys == old(attributes).Keys
      ensures forall k :: k in attributes ==>
        attributes[k] == if 0 <= k < firstIndex then old(attributes)[k].(frame := old(attributes)[k].frame.(y := old(attributes)[k].frame.y - originDiff))
                         else old(attributes)[k]
      ensures forall k :: k in attributes ==> LayoutKept(old(attributes)[k], attributes[k])
    {
      for index := 0 to firstIndex
        invariant attributes.Keys == old(attributes).Keys
        invariant forall k :: k in attributes ==>
          attributes[k] == if 0 <= k < index then old(attributes)[k].(frame := old(attributes)[k].frame.(y := old(attributes)[k].frame.y - originDiff))
                           else old(attributes)[k]
      {
        if index in attributes {
          var a := attributes[index];
          attributes := attributes[index := a.(frame := a.frame.(y := a.frame.y - originDiff))];
        }
      }
    }

    /**
     * Drops the attributes of the items at `n` and above, largest index
     * first: what shrinking the section to `n` items must leave behind.
     */
    method RemoveAttributesFrom(n: int)
      modifies this`attributes
      ensures forall k :: k in attributes <==> k in old(attributes) && k < n
      ensures forall k :: k in attributes ==> attributes[k] == old(attributes)[k]
    {
      while attributes != map[] && MaxKey(attributes.Keys) >= n
        invariant forall k :: k in attributes ==> k in old(attributes) && attributes[k] == old(attributes)[k]
        invariant forall k :: k in old(attributes) && k < n ==> k in attributes
        decreases attributes.Keys
      {
        attributes := attributes - {MaxKey(attributes.Keys)};
      }
    }

    /**
     * Sets the number of items. Growing packs on from the first index not
     * computed; shrinking drops the attributes past the new end and re-packs
     * from there, invalidating. The same count changes nothing.
     */
    method SetNumberOfItems(n: int) returns (ghost stop: int, ghost resumed: Cursor, ghost atStop: Cursor, ghost last: Cursor)
      requires Valid() && 0 <= n && DownstreamFits(n)
      modifies this`numberOfItems, this`attributes, this`created, this`frame
      ensures Valid() && numberOfItems == n
      ensures n == old(numberOfItems) ==> unchanged(this)
      ensures forall k :: k in old(attributes) && k < n ==> k in attributes
      ensures |old(created)| <= |created| && created[..|old(created)|] == old(created)
      ensures forall k :: k in attributes && k !in old(attributes) ==> k in created[|old(created)|..]
      ensures n > old(numberOfItems) ==>
        && LogHasNewKeys(old(attributes).Keys, old(created), attributes, created)
        && (dataSource.Some? ==>
              && |old(attributes)| <= stop <= n
              && Walked(dataSource.value, old(frame), old(attributes), attributes, |old(attributes)|, stop, resumed, atStop, last) && FrameAfterPass(dataSource.value, last, old(frame))
              && PassDone(old(attributes), attributes, |old(attributes)|, stop, dataSource.value, sectionWidth, false, NoOverride))
      ensures n < old(numberOfItems) && dataSource.Some? ==>
        var kept := Truncated(old(attributes), n);
        && |kept| <= stop <= n
        && Walked(dataSource.value, old(frame), kept, attributes, |kept|, stop, resumed, atStop, last) && FrameAfterPass(dataSource.value, last, old(frame))
        && PassDone(kept, attributes, |kept|, stop, dataSource.value, sectionWidth, true, NoOverride)
    {
      stop, resumed, atStop, last := 0, Cursor(0.0, 0.0, 0.0), Cursor(0.0, 0.0, 0.0), Cursor(0.0, 0.0, 0.0);
      if n == numberOfItems {
        return;
      }
      if n > numberOfItems {
        KeysBelowBound(attributes.Keys, numberOfItems);
        numberOfItems := n;
        stop, resumed, atStop, last := CreateOrUpdateCells(|attributes|, false, NoOverride);
      } else {
        numberOfItems := n;
        RemoveAttributesFrom(n);
        ghost var kept := attributes;
        assert forall k :: k in kept <==> k in Truncated(old(attributes), n);
        assert kept == Truncated(old(attributes), n);
        KeysBelowBound(attributes.Keys, n);
        stop, resumed, atStop, last := CreateOrUpdateCells(|attributes|, true, NoOverride);
        assert forall k :: k in attributes && k !in old(attributes) ==> k !in kept;
      }
    }

    /** One more item: packing goes on from the first index not computed, invalidating. */
    method AppendItem() returns (ghost stop: int, ghost resumed: Cursor, ghost atStop: Cursor, ghost last: Cursor)
      requires Valid() && DownstreamFits(numberOfItems + 1)
      modifies this`numberOfItems, this`attributes, this`created, this`frame
      ensures Valid() && numberOfItems == old(numberOfItems) + 1
      ensures old(attributes).Keys <= attributes.Keys
      ensures LogHasNewKeys(old(attributes).Keys, old(created), attributes, created)
      ensures dataSource.Some? ==>
        && |old(attributes)| <= stop <= numberOfItems
        && Walked(dataSource.value, old(frame), old(attributes), attributes, |old(attributes)|, stop, resumed, atStop, last) && FrameAfterPass(dataSource.value, last, old(frame))
        && PassDone(old(attributes), attributes, |old(attributes)|, stop, dataSource.value, sectionWidth, true, NoOverride)
    {
      KeysBelowBound(attributes.Keys, numberOfItems);
      numberOfItems := numberOfItems + 1;
      stop, resumed, atStop, last := CreateOrUpdateCells(|attributes|, true, NoOverride);
    }

    /**
     * Drops the item with the largest computed index (`removed`) and
     * re-packs from the first index not computed, invalidating. Nothing
     * happens when nothing is computed.
     */
    method DeleteLastItem() returns (ghost removed: int, ghost stop: int, ghost resumed: Cursor, ghost atStop: Cursor, ghost last: Cursor)
      requires Valid() && (attributes != map[] ==> DownstreamFits(numberOfItems - 1))
      modifies this`numberOfItems, this`attributes, this`created, this`frame
      ensures Valid()
      ensures old(attributes) == map[] ==> unchanged(this)
      ensures old(attributes) != map[] ==>
        && removed in old(attributes) && (forall k :: k in old(attributes) ==> k <= removed)
        && numberOfItems == old(numberOfItems) - 1
        && (forall k :: k in old(attributes) && k != removed ==> k in attributes)
        && (removed == numberOfItems ==> removed !in attributes)
      ensures old(attributes) != map[] && dataSource.Some? ==>
        var kept := old(attributes) - {removed};
        && |kept| <= stop <= numberOfItems
        && Walked(dataSource.value, old(frame), kept, attributes, |kept|, stop, resumed, atStop, last) && FrameAfterPass(dataSource.value, last, old(frame))
        && PassDone(kept, attributes, |kept|, stop, dataSource.value, sectionWidth, true, NoOverride)
    {
      removed, stop, resumed, atStop, last := -1, 0, Cursor(0.0, 0.0, 0.0), Cursor(0.0, 0.0, 0.0), Cursor(0.0, 0.0, 0.0);
      if attributes == map[] {
        return;
      }
      var lastIndex := MaxKey(attributes.Keys);
      removed := lastIndex;
      numberOfItems := numberOfItems - 1;
      attributes := attributes - {lastIndex};
      KeysBelowBound(attributes.Keys, numberOfItems);
      ghost var kept, fr := attributes, frame;
      assert kept == old(attributes) - {removed} && fr == old(frame);
      stop, resumed, atStop, last := CreateOrUpdateCells(|attributes|, true, NoOverride);
    }

    /** Moves every stored frame by `(dx, dy)`, and every original frame too unless the move comes from a behavior. */
    method OffsetFrames(dx: real, dy: real, fromBehaviors: bool)
      modifies this`attributes
      ensures attributes.Keys == old(attributes).Keys
      ensures forall k :: k in attributes ==> attributes[k] == Moved(old(attributes)[k], dx, dy, fromBehaviors)
    {
      var todo := attributes.Keys;
      while todo != {}
        invariant todo <= old(attributes).Keys && attributes.Keys == old(attributes).Keys
        invariant forall k :: k in attributes ==>
          attributes[k] == if k in todo then old(attributes)[k] else Moved(old(attributes)[k], dx, dy, fromBehaviors)
        decreases todo
      {
        NonEmptyHasMember(todo);
        var k :| k in todo;
        attributes := attributes[k := Moved(attributes[k], dx, dy, fromBehaviors)];
        todo := todo - {k};
      }
    }

    /**
     * Moves the section to `origin`. Every reported frame moves by the same
     * offset; original frames move too unless the move comes from a layout
     * behavior. The same origin changes nothing.
     */
    method SetOrigin(origin: Point, fromBehaviors: bool)
      requires Valid()
      modifies this`frame, this`attributes
      ensures Valid() && attributes.Keys == old(attributes).Keys
      ensures frame == old(frame).(x := origin.x, y := origin.y)
      ensures origin == Point(old(frame).x, old(frame).y) ==> attributes == old(attributes)
      ensures forall k :: k in attributes ==>
        attributes[k] == Moved(old(attributes)[k], origin.x - old(frame).x, origin.y - old(frame).y, fromBehaviors)
    {
      if Point(frame.x, frame.y) == origin {
        return;
      }
      var dx, dy := origin.x - frame.x, origin.y - frame.y;
      frame := frame.(x := origin.x, y := origin.y);
      OffsetFrames(dx, dy, fromBehaviors);
    }

    /** Re-packs every item from the first, invalidating: sizes are asked again. */
    method InvalidateAttributes() returns (ghost stop: int, ghost resumed: Cursor, ghost atStop: Cursor, ghost last: Cursor)
      requires Valid() && DownstreamFits(numberOfItems)
      modifies this`attributes, this`created, this`frame
      ensures Valid() && old(attributes).Keys <= attributes.Keys
      ensures LogHasNewKeys(old(attributes).Keys, old(created), attributes, created)
      ensures dataSource.Some? ==>
        && 0 <= stop <= numberOfItems
        && Walked(dataSource.value, old(frame), old(attributes), attributes, 0, stop, resumed, atStop, last) && FrameAfterPass(dataSource.value, last, old(frame))
        && PassDone(old(attributes), attributes, 0, stop, dataSource.value, sectionWidth, true, NoOverride)
        && (dataSource.value.scrollDirection == Vertical ==> frame.w == sectionWidth)
    {
      stop, resumed, atStop, last := CreateOrUpdateCells(0, true, NoOverride);
    }

    /** A new section width re-packs every item, invalidating; the same width changes nothing. */
    method SetSectionWidth(width: real) returns (ghost stop: int, ghost resumed: Cursor, ghost atStop: Cursor, ghost last: Cursor)
      requires Valid() && DownstreamFits(numberOfItems)
      modifies this`sectionWidth, this`attributes, this`created, this`frame
      ensures Valid() && sectionWidth == width
      ensures width == old(sectionWidth) ==> unchanged(this)
      ensures old(attributes).Keys <= attributes.Keys
      ensures LogHasNewKeys(old(attributes).Keys, old(created), attributes, created)
      ensures width != old(sectionWidth) && dataSource.Some? ==>
        && 0 <= stop <= numberOfItems
        && Walked(dataSource.value, old(frame), old(attributes), attributes, 0, stop, resumed, atStop, last) && FrameAfterPass(dataSource.value, last, old(frame))
        && PassDone(old(attributes), attributes, 0, stop, dataSource.value, width, true, NoOverride)
        && (dataSource.value.scrollDirection == Vertical ==> frame.w == width)
    {
      stop, resumed, atStop, last := 0, Cursor(0.0, 0.0, 0.0), Cursor(0.0, 0.0, 0.0), Cursor(0.0, 0.0, 0.0);
      if sectionWidth != width {
        sectionWidth := width;
        stop, resumed, atStop, last := InvalidateAttributes();
      }
    }

    /**
     * The item at `index` reports its exact height. Its estimate flag is
     * cleared; when the height differs, it is stored and the section is
     * re-packed from `index`, where later estimated items with the same
     * identifier take the reported height too. An index not computed
     * changes nothing.
     */
    method UpdateHeight(height: real, index: int) returns (ghost stop: int, ghost resumed: Cursor, ghost atStop: Cursor, ghost last: Cursor)
      requires Valid() && DownstreamFits(numberOfItems)
      modifies this`attributes, this`created, this`frame
      ensures Valid() && old(attributes).Keys <= attributes.Keys
      ensures LogHasNewKeys(old(attributes).Keys, old(created), attributes, created)
      ensures index !in old(attributes) ==> unchanged(this)
      ensures index in old(attributes) && old(attributes)[index].originalFrame.Height() == height ==>
        && attributes == old(attributes)[index := old(attributes)[index].(isEstimateSize := false)]
        && frame == old(frame) && created == old(created)
      ensures index in old(attributes) && old(attributes)[index].originalFrame.Height() != height ==>
        var o := old(attributes)[index];
        var reported := o.(isEstimateSize := false, originalFrame := o.originalFrame.(h := height));
        && (dataSource.None? ==> attributes == old(attributes)[index := reported])
        && (dataSource.Some? ==>
              var ds := dataSource.value;
              && index < stop <= numberOfItems
              && Walked(ds, old(frame), old(attributes)[index := reported], attributes, index, stop, resumed, atStop, last) && FrameAfterPass(ds, last, old(frame))
              && PassDone(old(attributes)[index := reported], attributes, index, stop, ds, sectionWidth, false, Override(index))
              && !attributes[index].isEstimateSize
              && (Reuse(reported, ItemWidth(ds, sectionWidth, index), false) ==>
                    attributes[index].originalFrame.h == reported.originalFrame.Height()))
    {
      stop, resumed, atStop, last := index, Cursor(0.0, 0.0, 0.0), Cursor(0.0, 0.0, 0.0), Cursor(0.0, 0.0, 0.0);
      if index !in attributes {
        return;
      }
      var a := attributes[index].(isEstimateSize := false);
      if a.originalFrame.Height() == height {
        attributes := attributes[index := a];
        assert attributes.Keys == old(attributes).Keys;
        return;
      }
      a := a.(originalFrame := a.originalFrame.(h := height));
      stop, resumed, atStop, last := ReplaceAndRepack(index, a, Override(index));
      if dataSource.Some? {
        PassKeepsReportedHeight(old(attributes)[index := a], attributes, index, stop, dataSource.value, sectionWidth);
      }
    }

    /**
     * The common step of the mutators that change one computed item: the
     * attribute at `index` becomes `a` and the section is re-packed from
     * `index`, without invalidating.
     */
    method ReplaceAndRepack(index: int, a: Attr, custom: HeightOverride)
      returns (ghost stop: int, ghost resumed: Cursor, ghost atStop: Cursor, ghost last: Cursor)
      requires Valid() && DownstreamFits(numberOfItems) && index in attributes && a.index == index
      requires custom.Override? ==> custom.at in attributes
      modifies this`attributes, this`created, this`frame
      ensures Valid() && old(attributes).Keys <= attributes.Keys
      ensures LogHasNewKeys(old(attributes).Keys, old(created), attributes, created)
      ensures dataSource.None? ==> attributes == old(attributes)[index := a] && frame == old(frame) && created == old(created)
      ensures dataSource.Some? ==>
        var ds := dataSource.value;
        && index < stop <= numberOfItems
        && Walked(ds, old(frame), old(attributes)[index := a], attributes, index, stop, resumed, atStop, last)
        && FrameAfterPass(ds, last, old(frame))
        && PassDone(old(attributes)[index := a], attributes, index, stop, ds, sectionWidth, false, custom)
    {
      attributes := attributes[index := a];
      assert attributes.Keys == old(attributes).Keys;
      ghost var replaced := attributes;
      stop, resumed, atStop, last := CreateOrUpdateCells(index, false, custom);
      LogRekeyed(replaced.Keys, old(attributes).Keys, old(created), attributes, created);
      if dataSource.Some? {
        StopsPast(dataSource.value, old(frame), replaced, index, stop, atStop);
      }
    }

    /** A walk from a computed item stops past it. */
    lemma StopsPast(ds: DataSource, fr: Rect, before: map<int, Attr>, index: int, stop: int, at: Cursor)
      requires index in before && index <= stop && index < numberOfItems
      requires StoppedAt(ds, fr, before, stop, at)
      ensures index < stop
    {
    }

    /**
     * Resets the attribute at `index` (an estimate again, sized afresh by
     * the data source) and re-packs from it. The data source must be there
     * and the index computed.
     */
    method InvalidateAt(index: int) returns (ghost stop: int, ghost resumed: Cursor, ghost atStop: Cursor, ghost last: Cursor)
      requires Valid() && DownstreamFits(numberOfItems)
      requires dataSource.Some? && index in attributes
      modifies this`attributes, this`created, this`frame
      ensures Valid() && old(attributes).Keys <= attributes.Keys
      ensures LogHasNewKeys(old(attributes).Keys, old(created), attributes, created)
      ensures
        var ds := dataSource.value;
        var size := ds.size(index, ItemWidth(ds, sectionWidth, index));
        var reset := ResetAttr(old(attributes)[index], size);
        && index < stop <= numberOfItems
        && Walked(ds, old(frame), old(attributes)[index := reset], attributes, index, stop, resumed, atStop, last) && FrameAfterPass(ds, last, old(frame))
        && PassDone(old(attributes)[index := reset], attributes, index, stop, ds, sectionWidth, false, NoOverride)
        && attributes[index].isEstimateSize
        && attributes[index].originalFrame.Width() == Rect(0.0, 0.0, size.w, size.h).Width()
        && attributes[index].originalFrame.Height() == Rect(0.0, 0.0, size.w, size.h).Height()
    {
      var ds := dataSource.value;
      var width := ItemWidth(ds, sectionWidth, index);
      var size := ds.size(index, width);
      var reset := ResetAttr(attributes[index], size);
      stop, resumed, atStop, last := ReplaceAndRepack(index, reset, NoOverride);
      PassKeepsQueriedSize(old(attributes)[index := reset], attributes, index, stop, ds, sectionWidth, index);
    }

    /**
     * Hides or shows the item at `index` and re-packs from it; a hidden
     * item is transparent and does not move the cursor. An index not
     * computed changes nothing.
     */
    method ChangeVisibility(hidden: bool, index: int) returns (ghost stop: int, ghost resumed: Cursor, ghost atStop: Cursor, ghost last: Cursor)
      requires Valid() && DownstreamFits(numberOfItems)
      modifies this`attributes, this`created, this`frame
      ensures Valid() && old(attributes).Keys <= attributes.Keys
      ensures LogHasNewKeys(old(attributes).Keys, old(created), attributes, created)
      ensures index !in old(attributes) ==> unchanged(this)
      ensures index in old(attributes) ==>
        var changed := old(attributes)[index].(hidden := hidden);
        && attributes[index].hidden == hidden
        && (dataSource.None? ==> attributes == old(attributes)[index := changed])
        && (dataSource.Some? ==>
              && index < stop <= numberOfItems
              && Walked(dataSource.value, old(frame), old(attributes)[index := changed], attributes, index, stop, resumed, atStop, last) && FrameAfterPass(dataSource.value, last, old(frame))
              && attributes[index].alpha == (if hidden then 0.0 else 1.0)
              && PassDone(old(attributes)[index := changed], attributes, index, stop, dataSource.value, sectionWidth, false, NoOverride))
    {
      stop, resumed, atStop, last := index, Cursor(0.0, 0.0, 0.0), Cursor(0.0, 0.0, 0.0), Cursor(0.0, 0.0, 0.0);
      if index !in attributes {
        return;
      }
      stop, resumed, atStop, last := ReplaceAndRepack(index, attributes[index].(hidden := hidden), NoOverride);
    }

    /**
     * Goes on packing when not every item is computed, from the count of
     * computed items minus the downstream ones; a complete section, or one
     * without data source, changes nothing.
     */
    method ContinueCalculatingCells() returns (ghost stop: int, ghost resumed: Cursor, ghost atStop: Cursor, ghost last: Cursor)
      requires Valid() && DownstreamFits(numberOfItems)
      requires |attributes| != numberOfItems && dataSource.Some? ==> |dataSource.value.downstream| <= |attributes|
      modifies this`attributes, this`created, this`frame
      ensures Valid() && old(attributes).Keys <= attributes.Keys
      ensures LogHasNewKeys(old(attributes).Keys, old(created), attributes, created)
      ensures |old(attributes)| == numberOfItems || dataSource.None? ==> unchanged(this)
      ensures |old(attributes)| != numberOfItems && dataSource.Some? ==>
        var nextIndex := |old(attributes)| - |dataSource.value.downstream|;
        && nextIndex <= stop <= numberOfItems
        && Walked(dataSource.value, old(frame), old(attributes), attributes, nextIndex, stop, resumed, atStop, last) && FrameAfterPass(dataSource.value, last, old(frame))
        && PassDone(old(attributes), attributes, nextIndex, stop, dataSource.value, sectionWidth, false, NoOverride)
    {
      stop, resumed, atStop, last := 0, Cursor(0.0, 0.0, 0.0), Cursor(0.0, 0.0, 0.0), Cursor(0.0, 0.0, 0.0);
      if |attributes| == numberOfItems || dataSource.None? {
        return;
      }
      var nextIndex := |attributes| - |dataSource.value.downstream|;
      KeysBelowBound(attributes.Keys, numberOfItems);
      stop, resumed, atStop, last := CreateOrUpdateCells(nextIndex, false, NoOverride);
    }

    /**
     * A lower-bound binary search over the indices `0..<|attributes|` for
     * the first item whose top is not above the rect's top. It stops early,
     * with the bound reached so far, at an index not computed.
     */
    method FindEstimatedClosestIndex(rect: Rect) returns (lowerBound: int)
      ensures 0 <= lowerBound <= |attributes|
      ensures SortedByMinY(attributes) ==>
        forall k :: 0 <= k < lowerBound && k in attributes ==> attributes[k].frame.MinY() < rect.MinY()
      ensures SortedByMinY(attributes) && Dense(attributes) ==>
        forall k :: lowerBound <= k < |attributes| ==> k in attributes && attributes[k].frame.MinY() >= rect.MinY()
    {
      var minY := rect.MinY();
      lowerBound := 0;
      var upperBound := |attributes|;
      while lowerBound < upperBound
        invariant 0 <= lowerBound <= upperBound <= |attributes|
        invariant SortedByMinY(attributes) ==>
          forall k :: 0 <= k < lowerBound && k in attributes ==> attributes[k].frame.MinY() < minY
        invariant SortedByMinY(attributes) && Dense(attributes) ==>
          forall k :: upperBound <= k < |attributes| ==> k in attributes && attributes[k].frame.MinY() >= minY
        decreases upperBound - lowerBound
      {
        var midIndex := lowerBound + (upperBound - lowerBound) / 2;
        if midIndex !in attributes {
          assert !Dense(attributes);
          break;
        }
        if attributes[midIndex].frame.MinY() < minY {
          lowerBound := midIndex + 1;
        } else {
          upperBound := midIndex;
        }
      }
    }

    /**
     * The backward run of a rect query: from `closest - 1` down, the
     * computed items that intersect `rect`, nearest first, up to the first
     * index that is not computed or does not intersect.
     */
    method CollectAbove(rect: Rect, closest: int) returns (above: seq<Attr>, ghost lo: int)
      requires Valid() && 0 <= closest
      ensures 0 <= lo <= closest && |above| == closest - lo
      ensures forall k :: lo <= k < closest ==> k in attributes && above[closest - 1 - k] == attributes[k]
      ensures forall i :: 0 <= i < |above| ==> above[i].index == closest - 1 - i && rect.Intersects(above[i].frame)
      ensures lo > 0 ==> lo - 1 !in attributes || !rect.Intersects(attributes[lo - 1].frame)
    {
      above := [];
      lo := closest;
      var index := closest - 1;
      while index > -1
        invariant -1 <= index < closest && lo == index + 1
        invariant |above| == closest - lo
        invariant forall k :: index < k < closest ==> k in attributes && above[closest - 1 - k] == attributes[k]
        invariant forall i :: 0 <= i < |above| ==> above[i].index == closest - 1 - i
        invariant forall i :: 0 <= i < |above| ==> rect.Intersects(above[i].frame)
        decreases index
      {
        if index !in attributes || !rect.Intersects(attributes[index].frame) {
          break;
        }
        above := above + [attributes[index]];
        index := index - 1;
        lo := lo - 1;
      }
    }

    /**
     * The forward run of a rect query: from `closest` up, the computed
     * items that intersect `rect`, up to the first index that is not
     * computed or does not intersect, or the number of computed items.
     */
    method CollectBelow(rect: Rect, closest: int) returns (below: seq<Attr>, ghost hi: int)
      requires Valid() && 0 <= closest <= |attributes|
      ensures closest <= hi <= |attributes| && |below| == hi - closest
      ensures forall k :: closest <= k < hi ==> k in attributes && below[k - closest] == attributes[k]
      ensures forall i :: 0 <= i < |below| ==> below[i].index == closest + i && rect.Intersects(below[i].frame)
      ensures hi < |attributes| ==> hi !in attributes || !rect.Intersects(attributes[hi].frame)
    {
      below := [];
      var index := closest;
      while index < |attributes|
        invariant closest <= index <= |attributes| && |below| == index - closest
        invariant forall k :: closest <= k < index ==> k in attributes && below[k - closest] == attributes[k]
        invariant forall i :: 0 <= i < |below| ==> below[i].index == closest + i
        invariant forall i :: 0 <= i < |below| ==> rect.Intersects(below[i].frame)
        decreases |attributes| - index
      {
        if index !in attributes || !rect.Intersects(attributes[index].frame) {
          break;
        }
        below := below + [attributes[index]];
        index := index + 1;
      }
      hi := index;
    }

    /**
     * The computed items whose frames intersect `rect`: the backward run
     * from the estimated closest index (nearest first) followed by the
     * forward run from it. Every item is reported once.
     */
    method LayoutAttributesForElementsInRect(rect: Rect) returns (result: seq<Attr>, ghost lo: int, ghost closest: int, ghost hi: int)
      requires Valid()
      ensures attributes == map[] ==> result == []
      ensures ClosestIndex(attributes, rect, closest)
      ensures RectQueryResult(attributes, rect, result, lo, closest, hi)
    {
      result := [];
      lo, closest, hi := 0, 0, 0;
      if attributes == map[] {
        return;
      }
      var closestIndex := FindEstimatedClosestIndex(rect);
      closest := closestIndex;
      var above, below;
      above, lo := CollectAbove(rect, closestIndex);
      below, hi := CollectBelow(rect, closestIndex);
      JoinRuns(attributes, rect, above, below, lo, closest, hi);
      result := above + below;
    }
  }
}
