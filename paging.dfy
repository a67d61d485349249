/**
 * Arithmetic shared by every pager of the site: `Math.ceil(count / size)`,
 * SQL `LIMIT`/`OFFSET` windows, and the `Math.max`/`Math.min` clamps of the
 * previous/next buttons.
 */
module Paging {

  function Min(a: int, b: int): int { if a <= b then a else b }
  function Max(a: int, b: int): int { if a >= b then a else b }

  /** `Math.ceil(count / size)` for a non-negative count. */
  function CeilDiv(count: nat, size: nat): (pages: nat)
    requires size > 0
    ensures count == 0 ==> pages == 0
    ensures count > 0 ==> (pages - 1) * size < count <= pages * size
  {
    if count == 0 then 0 else 1 + CeilDiv(if count <= size then 0 else count - size, size)
  }

  /** `LIMIT limit OFFSET offset` over an already ordered result. */
  function Window<T>(s: seq<T>, offset: nat, limit: nat): (w: seq<T>)
    ensures |w| == if offset >= |s| then 0 else Min(limit, |s| - offset)
    ensures forall k :: 0 <= k < |w| ==> w[k] == s[offset + k]
  {
    if offset >= |s| then [] else s[offset..offset + Min(limit, |s| - offset)]
  }

  /** The offset of 1-based page `page` when pages hold `size` rows. */
  function PageOffset(page: int, size: nat): nat
    requires page >= 1
  {
    (page - 1) * size
  }

  /** Pages 1..n concatenated, in page order. */
  function FirstPages<T>(s: seq<T>, n: nat, size: nat): seq<T>
  {
    if n == 0 then [] else FirstPages(s, n - 1, size) + Window(s, PageOffset(n, size), size)
  }

  /** Reading pages 1..n one after another yields exactly the first n*size rows, in order, once each. */
  lemma {:induction false} FirstPagesArePrefix<T>(s: seq<T>, n: nat, size: nat)
    ensures FirstPages(s, n, size) == s[..Min(n * size, |s|)]
  {
    if n > 0 {
      FirstPagesArePrefix(s, n - 1, size);
      var off := PageOffset(n, size);
      NextPageOffset(n, size);
      WindowIsSlice(s, off, size);
      PrefixThenSlice(s, Min(off, |s|), Min(off + size, |s|));
    }
  }

  lemma NextPageOffset(n: nat, size: nat)
    requires n > 0
    ensures PageOffset(n, size) == (n - 1) * size
    ensures PageOffset(n, size) + size == n * size
  {
  }

  lemma WindowIsSlice<T>(s: seq<T>, offset: nat, limit: nat)
    ensures Window(s, offset, limit) == s[Min(offset, |s|)..Min(offset + limit, |s|)]
  {
  }

  lemma PrefixThenSlice<T>(s: seq<T>, lo: nat, hi: nat)
    requires lo <= hi <= |s|
    ensures s[..lo] + s[lo..hi] == s[..hi]
  {
  }

  /** The row at position `pos` falls in the window of page `pos / size + 1` and of no other page. */
  lemma PageOfPosition<T>(s: seq<T>, pos: nat, size: nat, page: int)
    requires size > 0 && pos < |s| && page >= 1
    ensures var off := PageOffset(page, size);
            off <= pos < off + |Window(s, off, size)| <==> page == pos / size + 1
  {
    var off := PageOffset(page, size);
    if off <= pos < off + |Window(s, off, size)| {
      assert (page - 1) * size <= pos < (page - 1) * size + size;
      DivisionBetween(pos, size, page - 1);
    }
  }

  lemma DivisionBetween(n: nat, size: nat, q: nat)
    requires size > 0 && q * size <= n < q * size + size
    ensures n / size == q
  {
    var d, r := n / size, n % size;
    assert n == d * size + r && 0 <= r < size;
    if d > q {
      MulMonotone(q + 1, d, size);
      assert false;
    } else if d < q {
      MulMonotone(d + 1, q, size);
      assert false;
    }
  }

  lemma MulMonotone(a: int, b: int, c: nat)
    requires a <= b
    ensures a * c <= b * c
  {
    assert b * c - a * c == (b - a) * c;
  }

  /** The "previous" target `Math.max(1, current - 1)`. */
  function StepBack(current: int): (target: int)
    ensures target >= 1
    ensures current > 1 ==> target == current - 1
    ensures current <= 1 ==> target == 1
  {
    Max(1, current - 1)
  }

  /** The "next" target `Math.min(total, current + 1)`. */
  function StepForward(current: int, total: int): (target: int)
    ensures target <= total
    ensures current < total ==> target == current + 1
    ensures current >= total ==> target == total
  {
    Min(total, current + 1)
  }

  /** Either step keeps a page that is in `[1, total]` inside `[1, total]`. */
  lemma StepsStayInRange(current: int, total: int)
    requires 1 <= current <= total
    ensures 1 <= StepBack(current) <= total
    ensures 1 <= StepForward(current, total) <= total
  {
  }

  /** A previous/next button: the page it links to, and whether it is hidden. */
  datatype PagerButton = PagerButton(target: int, hidden: bool)

  /** The "previous" button: links to `Math.max(1, current - 1)`, hidden on page 1. */
  function Previous(current: int): (button: PagerButton)
    ensures button.target >= 1
    ensures current > 1 ==> button.target == current - 1
    ensures current <= 1 ==> button.target == 1
    ensures button.hidden <==> current == 1
  {
    PagerButton(StepBack(current), current == 1)
  }

  /** The "next" button: links to `Math.min(total, current + 1)`, hidden on the last page. */
  function Next(current: int, total: int): (button: PagerButton)
    ensures button.target <= total
    ensures current < total ==> button.target == current + 1
    ensures current >= total ==> button.target == total
    ensures button.hidden <==> current == total
  {
    PagerButton(StepForward(current, total), current == total)
  }
}
