/**
 * The pager of `src/components/News/NewsPagination.tsx`: page count, the
 * previous/next buttons and the windowed choice of page links and ellipses.
 */
module NewsPagination {
  import opened Wrappers
  import opened Paging

  const PageSize: nat := 6

  /** `Math.ceil(count / 6)`. */
  function TotalPages(count: nat): (total: nat)
    ensures total == 0 <==> count == 0
    ensures count > 0 ==> (total - 1) * PageSize < count <= total * PageSize
  {
    CeilDiv(count, PageSize)
  }

  /** What the pager renders for one page. */
  datatype Slot = Link(page: int, active: bool) | Ellipsis(page: int)

  /** First page, last page and the neighbours of the current page get a link. */
  predicate IsLinkPage(page: int, current: int, total: int)
  {
    page == 1 || page == total || (current - 1 <= page <= current + 1)
  }

  /** The three-way decision of the `map` callback: a link, an ellipsis, or `null`. */
  function SlotFor(page: int, current: int, total: int): Option<Slot>
  {
    if IsLinkPage(page, current, total) then Some(Link(page, page == current))
    else if page == current - 2 || page == current + 2 then Some(Ellipsis(page))
    else None
  }

  /** The slots rendered for pages `first..total`, in page order (the `null`s dropped). */
  function SlotsFrom(first: int, current: int, total: int): (slots: seq<Slot>)
    ensures forall i, j :: 0 <= i < j < |slots| ==> slots[i].page < slots[j].page
    ensures forall i :: 0 <= i < |slots| ==>
              first <= slots[i].page <= total && SlotFor(slots[i].page, current, total) == Some(slots[i])
    ensures forall p :: first <= p <= total && SlotFor(p, current, total).Some? ==>
              SlotFor(p, current, total).value in slots
    decreases total - first
  {
    if first > total then []
    else
      var rest := SlotsFrom(first + 1, current, total);
      match SlotFor(first, current, total)
      case None => rest
      case Some(slot) => [slot] + rest
  }

  /** The slots rendered for pages `1..total`. */
  function Slots(current: int, total: int): seq<Slot>
  {
    SlotsFrom(1, current, total)
  }

  /** The pages that can ever be rendered: 1, the last one and current-2..current+2. */
  function Candidates(current: int, total: int): set<int>
  {
    {1, total, current - 2, current - 1, current, current + 1, current + 2}
  }

  /** At most seven items are rendered: five links and two ellipses. */
  lemma AtMostSevenSlots(current: int, total: int)
    ensures |Slots(current, total)| <= 7
  {
    var slots := Slots(current, total);
    var pages := seq(|slots|, i requires 0 <= i < |slots| => slots[i].page);
    IncreasingWithinSet(pages, Candidates(current, total));
    CandidatesAtMostSeven(current, total);
  }

  lemma {:induction false} IncreasingWithinSet(s: seq<int>, S: set<int>)
    requires forall i, j :: 0 <= i < j < |s| ==> s[i] < s[j]
    requires forall i :: 0 <= i < |s| ==> s[i] in S
    ensures |s| <= |S|
  {
    if s != [] {
      var rest := S - {s[0]};
      assert S == rest + {s[0]};
      IncreasingWithinSet(s[1..], rest);
    }
  }

  lemma CandidatesAtMostSeven(current: int, total: int)
    ensures |Candidates(current, total)| <= 7
  {
    var a := {1};
    var b := a + {total};
    var c := b + {current - 2};
    var d := c + {current - 1};
    var e := d + {current};
    var f := e + {current + 1};
    assert Candidates(current, total) == f + {current + 2};
  }

  /** Page 1, the last page and the current page's neighbours are links; only the current one is active. */
  lemma LinkPagesAreRendered(current: int, total: int, page: int)
    requires 1 <= page <= total && IsLinkPage(page, current, total)
    ensures Link(page, page == current) in Slots(current, total)
  {
    assert SlotFor(page, current, total) == Some(Link(page, page == current));
  }

  /** An ellipsis stands only two pages away from the current page and never where a link belongs. */
  lemma EllipsisPlacement(current: int, total: int, i: nat)
    requires i < |Slots(current, total)| && Slots(current, total)[i].Ellipsis?
    ensures var p := Slots(current, total)[i].page;
            (p == current - 2 || p == current + 2) && !IsLinkPage(p, current, total)
  {
  }
}
