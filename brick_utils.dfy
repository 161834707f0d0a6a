/** Width arithmetic and the row scan of the brick utilities. */
module BrickUtils {
  import opened Geometry
  import opened Wrappers

  /**
   * The width of a brick that takes `ratio` out of `widthRatio` (the value
   * that stands for 100%) of `totalWidth`, with `inset` between neighbours.
   * Each of the `widthRatio / ratio` columns gives up its share of the
   * insets between them.
   */
  function CalculateWidth(ratio: real, widthRatio: real, totalWidth: real, inset: real): (width: real)
    requires ratio != 0.0 && widthRatio != 0.0
    ensures ratio == widthRatio ==> width == totalWidth
    ensures inset == 0.0 ==> width == totalWidth * ratio / widthRatio
  {
    var rowWidth := totalWidth - (widthRatio / ratio - 1.0) * inset;
    rowWidth * (ratio / widthRatio)
  }

  /**
   * When a row holds exactly `n` columns of the same ratio, the `n` widths
   * and the `n - 1` insets between them fill the total width exactly.
   */
  lemma ColumnsFillRow(ratio: real, widthRatio: real, totalWidth: real, inset: real, n: nat)
    requires ratio != 0.0 && widthRatio != 0.0 && n >= 1
    requires widthRatio / ratio == n as real
    ensures (n as real) * CalculateWidth(ratio, widthRatio, totalWidth, inset) + (n as real - 1.0) * inset == totalWidth
  {
    var nr := n as real;
    var rowWidth := totalWidth - (nr - 1.0) * inset;
    assert widthRatio == nr * ratio;
    assert ratio / widthRatio == 1.0 / nr;
    assert CalculateWidth(ratio, widthRatio, totalWidth, inset) == rowWidth * (1.0 / nr);
    assert nr * (rowWidth * (1.0 / nr)) == rowWidth;
  }

  /** A frame and a hidden flag: what the row scan looks at. */
  datatype Frameable = Frameable(frame: Rect, hidden: bool)

  /**
   * Scans backwards from `itemIndex - 1` over a sparse index-to-frame map,
   * skipping missing and hidden entries, and keeps the entry with the
   * largest bottom edge while each entry starts at the running maximum's
   * bottom edge. The first visible entry that does not start there is
   * returned at once. The running maximum starts as the entry at
   * `itemIndex - 1`, which is compared with itself first: when it is
   * visible with a positive height it is returned straight away.
   */
  method FindRowMaxY(itemIndex: int, frames: map<int, Frameable>) returns (r: Option<Frameable>)
    ensures r.None? <==> (itemIndex > |frames| || itemIndex == 0 || itemIndex - 1 !in frames)
    ensures r.Some? ==> exists k :: k in frames && k < itemIndex && (0 <= k || k == itemIndex - 1) && frames[k] == r.value
    ensures r.Some? ==> r.value == frames[itemIndex - 1] || !r.value.hidden
    ensures r.Some? && !frames[itemIndex - 1].hidden && frames[itemIndex - 1].frame.h > 0.0 ==> r.value == frames[itemIndex - 1]
    ensures r.Some? ==>
      // either the row maximum over every visible entry scanned, or an entry starting off the bottom of one scanned
      || (&& frames[itemIndex - 1].frame.MaxY() <= r.value.frame.MaxY()
          && forall k :: 0 <= k < itemIndex && k in frames && !frames[k].hidden ==> frames[k].frame.MaxY() <= r.value.frame.MaxY())
      || (&& !r.value.hidden
          && exists k :: k in frames && k < itemIndex && (k == itemIndex - 1 || (0 <= k && !frames[k].hidden)) &&
                         frames[k].frame.MaxY() != r.value.frame.y)
  {
    if itemIndex > |frames| {
      return None;
    }
    if itemIndex == 0 {
      return None;
    }
    if itemIndex - 1 !in frames {
      return None;
    }
    var maxFrameable := frames[itemIndex - 1];
    ghost var maxKey := itemIndex - 1;
    var index := itemIndex - 1;
    while index > -1
      invariant -1 <= index <= itemIndex - 1 || index == itemIndex - 1
      invariant maxKey in frames && maxKey < itemIndex && (maxKey == itemIndex - 1 || (0 <= maxKey && !frames[maxKey].hidden))
      invariant frames[maxKey] == maxFrameable
      invariant maxFrameable.frame.MaxY() >= frames[itemIndex - 1].frame.MaxY()
      invariant index == itemIndex - 1 ==> maxFrameable == frames[itemIndex - 1]
      invariant index < itemIndex - 1 ==> frames[itemIndex - 1].hidden || frames[itemIndex - 1].frame.h <= 0.0
      invariant forall k :: index < k < itemIndex && k in frames && !frames[k].hidden ==>
        frames[k].frame.MaxY() <= maxFrameable.frame.MaxY()
    {
      if index in frames && !frames[index].hidden {
        var nextFrameable := frames[index];
        if maxFrameable.frame.MaxY() != nextFrameable.frame.y {
          return Some(nextFrameable);
        }
        if nextFrameable.frame.MaxY() > maxFrameable.frame.MaxY() {
          maxFrameable := nextFrameable;
          maxKey := index;
        }
      }
      index := index - 1;
    }
    return Some(maxFrameable);
  }
}
