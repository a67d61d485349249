/**
 * The admin article list of `src/components/admin/NewsSidebar.tsx`: its
 * page arithmetic (ten per page), the committed search, the handling of a
 * load, and the local bookkeeping after a delete.
 */
module NewsSidebar {
  import opened Wrappers
  import opened Paging
  import opened Schema
  import opened NewsActions

  /** The page size the sidebar assumes for its page count. */
  const Limit: nat := 10

  /** `Math.ceil(count / 10)`; the count is local state and can drop below zero. */
  function TotalPages(count: int): (total: int)
    ensures count <= 0 ==> total <= 0
    ensures count > 0 ==> (total - 1) * Limit < count <= total * Limit
  {
    if count >= 0 then CeilDiv(count, Limit) else -((-count) / Limit)
  }

  /** The prev/next controls are rendered only when there is more than one page. */
  predicate PagerShown(count: int)
  {
    TotalPages(count) > 1
  }

  /** What `Promise.all([getNewsSidebar(..), getNewsCount(..)])` delivered, or a rejection. */
  datatype LoadOutcome = Fetched(items: seq<SidebarItem>, countRows: seq<nat>) | FetchFailed

  /** What the two server queries return for the table's rows. */
  function Fetch(rows: seq<NewsRow>, page: int, search: string): (outcome: LoadOutcome)
    requires page >= 1
    ensures outcome.Fetched? && |outcome.countRows| == 1
    ensures outcome.countRows[0] == |Matching(rows, search)| && |outcome.items| <= NewsActions.PageSize
  {
    Fetched(GetNewsSidebar(rows, page, search), [GetNewsCount(rows, search)])
  }

  /** `prevNews.filter((item) => item.slug !== slug)`. */
  function WithoutItem(items: seq<SidebarItem>, slug: string): (kept: seq<SidebarItem>)
    ensures |kept| <= |items|
    ensures forall x :: x in kept <==> x in items && x.slug != slug
    ensures (forall k :: 0 <= k < |items| ==> items[k].slug != slug) ==> kept == items
  {
    if items == [] then []
    else
      var rest := WithoutItem(items[1..], slug);
      if items[0].slug != slug then [items[0]] + rest else rest
  }

  /** A single item stays exactly when its slug differs. */
  lemma WithoutItemOfOne(item: SidebarItem, slug: string)
    ensures WithoutItem([item], slug) == if item.slug != slug then [item] else []
  {
    assert [item][1..] == [];
  }

  /** Filtering a concatenation filters each part and keeps their order. */
  lemma {:induction false} WithoutItemAppend(a: seq<SidebarItem>, b: seq<SidebarItem>, slug: string)
    ensures WithoutItem(a + b, slug) == WithoutItem(a, slug) + WithoutItem(b, slug)
  {
    if a != [] {
      assert (a + b)[0] == a[0];
      assert (a + b)[1..] == a[1..] + b;
      WithoutItemAppend(a[1..], b, slug);
    } else {
      assert a + b == b;
    }
  }

  /**
   * The sidebar pages through at most ceil(count/10) pages of six rows, so a
   * match at a position of 6 * ceil(count/10) or beyond is on no page it offers.
   */
  lemma {:induction false} SidebarPagerMissesRows(rows: seq<NewsRow>, search: string, pos: nat, page: int)
    requires var count := GetNewsCount(rows, search);
             6 * TotalPages(count) <= pos < count
    requires 1 <= page <= TotalPages(GetNewsCount(rows, search))
    ensures var off := PageOffset(page, NewsActions.PageSize);
            !(off <= pos < off + |GetNewsSidebar(rows, page, search)|)
  {
    var view := AsSidebarItems(NewestFirst(Matching(rows, search)));
    PageOfPosition(view, pos, NewsActions.PageSize, page);
    var t := TotalPages(GetNewsCount(rows, search));
    assert pos / 6 >= t by {
      DivisionAtLeast(pos, 6, t);
    }
  }

  lemma DivisionAtLeast(n: nat, d: nat, q: nat)
    requires d > 0 && d * q <= n
    ensures n / d >= q
  {
    if n / d < q {
      MulMonotone(n / d + 1, q, d);
      assert false;
    }
  }

  /** Seven matches: the sidebar offers one page of six, and the oldest match is never listed. */
  lemma SeventhMatchIsUnreachable(rows: seq<NewsRow>, search: string)
    requires GetNewsCount(rows, search) == 7
    ensures TotalPages(7) == 1 && !PagerShown(7)
    ensures |GetNewsSidebar(rows, 1, search)| == 6
  {
  }

  /** The local state of the sidebar component. */
  class SidebarState {
    var currentPage: int
    var searchQuery: string
    var debouncedSearchQuery: string
    var news: seq<SidebarItem>
    var count: int
    var loading: bool
    var deleteDialogOpen: bool
    var newsToDelete: Option<SidebarItem>
    var isDeleting: bool

    ghost predicate Valid()
      reads this
    {
      currentPage >= 1
    }

    constructor ()
      ensures Valid() && currentPage == 1 && searchQuery == "" && debouncedSearchQuery == ""
      ensures news == [] && count == 0 && loading && !deleteDialogOpen && newsToDelete.None? && !isDeleting
    {
      currentPage := 1;
      searchQuery := "";
      debouncedSearchQuery := "";
      news := [];
      count := 0;
      loading := true;
      deleteDialogOpen := false;
      newsToDelete := None;
      isDeleting := false;
    }

    /** Typing in the search box. */
    method TypeSearch(query: string)
      requires Valid()
      modifies this`searchQuery
      ensures Valid()
      ensures searchQuery == query
    {
      searchQuery := query;
    }

    /** The debounce timer fires: the query is committed and the list goes back to page 1. */
    method CommitSearch()
      requires Valid()
      modifies this`debouncedSearchQuery, this`currentPage
      ensures Valid()
      ensures debouncedSearchQuery == searchQuery && currentPage == 1
    {
      debouncedSearchQuery := searchQuery;
      currentPage := 1;
    }

    /** The previous button: `setCurrentPage((prev) => Math.max(1, prev - 1))`. */
    method PreviousPage()
      requires Valid()
      modifies this`currentPage
      ensures Valid()
      ensures currentPage == StepBack(old(currentPage))
    {
      currentPage := StepBack(currentPage);
    }

    /** The next button, rendered only while the pager is shown. */
    method NextPage()
      requires Valid() && PagerShown(count)
      modifies this`currentPage
      ensures Valid()
      ensures currentPage == StepForward(old(currentPage), TotalPages(count))
    {
      currentPage := StepForward(currentPage, TotalPages(count));
    }

    /**
     * `loadData`: both queries for the current page and committed search;
     * a missing count row reads as 0, a rejected call as an empty list.
     */
    method LoadData(table: NewsTable, failed: bool)
      requires Valid()
      modifies this`news, this`count, this`loading
      ensures !loading
      ensures failed ==> news == [] && count == 0
      ensures !failed ==> news == GetNewsSidebar(table.rows, currentPage, debouncedSearchQuery)
      ensures !failed ==> count == GetNewsCount(table.rows, debouncedSearchQuery)
    {
      loading := true;
      var outcome := if failed then FetchFailed else Fetch(table.rows, currentPage, debouncedSearchQuery);
      match outcome {
        case Fetched(items, countRows) =>
          news := items;
          count := if countRows == [] then 0 else countRows[0];
        case FetchFailed =>
          news := [];
          count := 0;
      }
      loading := false;
    }

    /** The trash button of an item: remember it and open the confirmation dialog. */
    method SelectForDelete(item: SidebarItem)
      requires Valid()
      modifies this`newsToDelete, this`deleteDialogOpen
      ensures Valid()
      ensures newsToDelete == Some(item) && deleteDialogOpen
    {
      newsToDelete := Some(item);
      deleteDialogOpen := true;
    }

    /**
     * `handleDeleteNews`: delete on the server and, whatever it answers, drop
     * the item locally, count one less and step back a page when the list
     * held just that one item. `storageFails` is a storage error the action
     * catches and answers with an error map, which the sidebar does not read.
     * When the call itself rejects (`rejected`), nothing reaches the server
     * and the list stays. Either way the dialog closes.
     */
    method HandleDeleteNews(table: NewsTable, storageFails: bool, rejected: bool)
      requires Valid() && table.Valid()
      modifies this, table
      ensures Valid() && table.Valid()
      ensures table.nextId == old(table.nextId) && table.clock == old(table.clock)
      ensures old(newsToDelete).None? ==> unchanged(this) && unchanged(table)
      ensures old(newsToDelete).Some? && !rejected ==>
                table.rows == if storageFails then old(table.rows)
                              else WithoutSlug(old(table.rows), old(newsToDelete).value.slug)
      ensures old(newsToDelete).Some? && !rejected ==>
                news == WithoutItem(old(news), old(newsToDelete).value.slug)
      ensures old(newsToDelete).Some? && !rejected ==> count == old(count) - 1
      ensures old(newsToDelete).Some? && !rejected ==>
                currentPage == if |old(news)| == 1 && old(currentPage) > 1 then old(currentPage) - 1
                               else old(currentPage)
      ensures rejected ==> unchanged(table)
      ensures rejected ==> news == old(news) && count == old(count) && currentPage == old(currentPage)
      ensures old(newsToDelete).Some? ==> !deleteDialogOpen && newsToDelete.None? && !isDeleting
      ensures searchQuery == old(searchQuery) && debouncedSearchQuery == old(debouncedSearchQuery)
      ensures loading == old(loading)
    {
      if newsToDelete.None? {
        return;
      }
      var slug := newsToDelete.value.slug;
      isDeleting := true;
      if !rejected {
        var _ := table.DeleteNews(slug, storageFails);
        DropDeleted(slug);
      }
      CloseDeleteDialog();
    }

    /** The local bookkeeping once the server answered: the item leaves the list, the count drops, the page may step back. */
    method DropDeleted(slug: string)
      requires Valid()
      modifies this`news, this`count, this`currentPage
      ensures Valid()
      ensures news == WithoutItem(old(news), slug) && count == old(count) - 1
      ensures currentPage == if |old(news)| == 1 && old(currentPage) > 1 then old(currentPage) - 1
                             else old(currentPage)
    {
      var listed := news;
      news := WithoutItem(news, slug);
      count := count - 1;
      if |listed| == 1 && currentPage > 1 {
        currentPage := currentPage - 1;
      }
    }

    /** The `finally` block: the dialog closes and nothing stays selected. */
    method CloseDeleteDialog()
      requires Valid()
      modifies this`isDeleting, this`deleteDialogOpen, this`newsToDelete
      ensures Valid()
      ensures !deleteDialogOpen && newsToDelete.None? && !isDeleting
    {
      isDeleting := false;
      deleteDialogOpen := false;
      newsToDelete := None;
    }
  }
}
