/**
 * The news section component of `src/components/sections/News.tsx`: its page
 * count, its pager (every page linked, an ellipsis past seven pages) and the
 * classes of its tile grid.
 */
module NewsSection {
  import opened Wrappers
  import opened Paging
  import Schema
  import NewsActions

  const PageSize: nat := 6
  /** Beyond this many pages an ellipsis follows the links. */
  const EllipsisThreshold: nat := 7

  /** `Math.ceil((newsCount[0]?.count ?? 6) / 6)`: a missing count row reads as 6 articles. */
  function TotalPages(countRow: Option<nat>): (total: nat)
    ensures countRow.None? ==> total == 1
    ensures countRow == Some(0) ==> total == 0
    ensures countRow.Some? && countRow.value > 0 ==>
              (total - 1) * PageSize < countRow.value <= total * PageSize
  {
    CeilDiv(match countRow case Some(n) => n case None => 6, PageSize)
  }

  datatype PageLink = PageLink(page: int, active: bool)

  /** The section's pager: previous, one link per page, an optional ellipsis, next. */
  datatype Pager = Pager(previous: PagerButton, links: seq<PageLink>, ellipsis: bool, next: PagerButton)

  function PagerFor(current: int, total: nat): (pager: Pager)
    ensures |pager.links| == total
    ensures forall i :: 0 <= i < total ==> pager.links[i].page == i + 1
    ensures forall i :: 0 <= i < total ==> (pager.links[i].active <==> current == i + 1)
    ensures (exists i :: 0 <= i < total && pager.links[i].active) <==> 1 <= current <= total
    ensures pager.ellipsis <==> total > EllipsisThreshold
    ensures pager.previous == Previous(current) && pager.next == Next(current, total)
  {
    var links := seq(total, i requires 0 <= i < total => PageLink(i + 1, current == i + 1));
    assert 1 <= current <= total ==> links[current - 1].active;
    Pager(Previous(current), links, total > EllipsisThreshold, Next(current, total))
  }

  /** At most one page link is active. */
  lemma OneActiveLink(current: int, total: nat, i: nat, j: nat)
    requires i < total && j < total
    requires PagerFor(current, total).links[i].active && PagerFor(current, total).links[j].active
    ensures i == j
  {
  }

  /** The three widths a tile of the grid can take. */
  datatype TileSpan = Wide | NarrowLast | Narrow

  /** The class string each width is rendered with. */
  function ClassName(span: TileSpan): string
  {
    match span
    case Wide => "news-span-3"
    case NarrowLast => "news-span-2 order-last"
    case Narrow => "news-span-2"
  }

  /** The width of tile `i`: the first and sixth are wide, the fifth is moved last. */
  function TileClass(i: nat): (span: TileSpan)
    ensures span == Wide <==> i == 0 || i == 5
    ensures span == NarrowLast <==> i == 4
    ensures span == Narrow <==> i != 0 && i != 4 && i != 5
  {
    if i == 0 then Wide else if i == 5 then Wide else if i == 4 then NarrowLast else Narrow
  }

  /** Each tile gets the class string of the `className` ternary over its index. */
  lemma TileClassNames(i: nat)
    ensures ClassName(TileClass(i))
            == if i == 0 || i == 5 then "news-span-3" else if i == 4 then "news-span-2 order-last" else "news-span-2"
  {
  }

  /** The grid switches to its two-row compact layout when fewer than four articles are listed. */
  predicate CompactGrid(listed: nat)
  {
    listed < 4
  }

  /**
   * Every page before the last lists a full six articles, so the compact grid
   * shows only on the last page of the listing or past it.
   */
  lemma CompactGridOnlyFromLastPage(rows: seq<Schema.NewsRow>, page: int)
    requires page >= 1
    ensures CompactGrid(|NewsActions.GetNewsListing(rows, page)|) ==> page >= CeilDiv(|rows|, PageSize)
    ensures page > CeilDiv(|rows|, PageSize) ==> CompactGrid(|NewsActions.GetNewsListing(rows, page)|)
  {
    var total := CeilDiv(|rows|, PageSize);
    if page < total {
      MulMonotone(page, total - 1, PageSize);
    } else if page > total {
      MulMonotone(total, page - 1, PageSize);
    }
  }

  /** The classes of a page of `n` tiles, in tile order. */
  function TileClasses(n: nat): (classes: seq<TileSpan>)
    ensures |classes| == n
    ensures forall i :: 0 <= i < n ==> classes[i] == TileClass(i)
  {
    seq(n, i requires 0 <= i < n => TileClass(i))
  }

  /** A page of up to six tiles has one or two wide tiles; one tile is moved last from five tiles on. */
  lemma {:induction false} TileClassCounts(n: nat)
    ensures n <= 6 ==> multiset(TileClasses(n))[Wide] == (if n >= 6 then 2 else if n >= 1 then 1 else 0)
    ensures multiset(TileClasses(n))[NarrowLast] == (if n >= 5 then 1 else 0)
  {
    if n > 0 {
      TileClassCounts(n - 1);
      assert TileClasses(n) == TileClasses(n - 1) + [TileClass(n - 1)];
      assert multiset(TileClasses(n)) == multiset(TileClasses(n - 1)) + multiset{TileClass(n - 1)};
    }
  }
}
