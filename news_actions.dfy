/**
 * The server actions of `src/lib/actions/news.action.ts` over an in-memory
 * `news` table. The queries are functions of the table's rows (kept in
 * insertion order); the commands are methods of `NewsTable`, which run their
 * checks in the source's order and then change the rows in place.
 */
module NewsActions {
  import opened Wrappers
  import opened Text
  import opened HttpErrors
  import opened Validation
  import opened Schema
  import opened Paging

  /** Rows per page of every query here. */
  const PageSize: nat := 6

  const SlugTaken: string := "Slug already exists"
  const NotFound: string := "News item not found"
  const CreateFailed: string := "Failed to create news. Please try again."
  const UpdateFailed: string := "Failed to update news. Please try again."
  const DeleteFailed: string := "Failed to delete news. Please try again."
  const InvalidUrl: string := "Invalid url"
  /** The reserved key for whole-operation failures. */
  const FormKey: string := "_form"

  /** The projection `getNewsListing` selects. */
  datatype ListingItem = ListingItem(slug: string, title: string, mainImage: string)
  /** The projection `getNewsSidebar` selects. */
  datatype SidebarItem = SidebarItem(slug: string, title: string)
  /** The projection `getNewsBySlug` selects. */
  datatype NewsDetail = NewsDetail(
    id: int, title: string, slug: string, images: seq<string>, mainImage: string, content: string)

  /** `{ success: true }` or `{ error: <field map> }`. */
  datatype ActionResult = Success | Failure(error: FieldErrors)

  // ---------------------------------------------------------------- ordering

  /**
   * `ORDER BY published_at DESC`. Rows are stored oldest first, so the
   * newest-first order is the stored order reversed.
   */
  function NewestFirst(rows: seq<NewsRow>): (ordered: seq<NewsRow>)
    ensures |ordered| == |rows|
    ensures forall k :: 0 <= k < |rows| ==> ordered[k] == rows[|rows| - 1 - k]
  {
    if rows == [] then [] else NewestFirst(rows[1..]) + [rows[0]]
  }

  /** The newest-first order holds every stored row exactly as often as the table does. */
  lemma {:induction false} NewestFirstIsPermutation(rows: seq<NewsRow>)
    ensures multiset(NewestFirst(rows)) == multiset(rows)
  {
    if rows != [] {
      NewestFirstIsPermutation(rows[1..]);
      assert rows == [rows[0]] + rows[1..];
    }
  }

  /** Rows stored in insertion order come out sorted by `published_at` descending. */
  lemma NewestFirstIsSorted(rows: seq<NewsRow>, i: nat, j: nat)
    requires OldestFirst(rows) && i < j < |rows|
    ensures NewestFirst(rows)[i].publishedAt > NewestFirst(rows)[j].publishedAt
  {
    assert NewestFirst(rows)[i] == rows[|rows| - 1 - i];
    assert NewestFirst(rows)[j] == rows[|rows| - 1 - j];
  }

  // ---------------------------------------------------------------- search

  /**
   * `title ILIKE '%search%'` (over ASCII letters), or no filter when the
   * search term is empty or absent (both read as "").
   */
  function MatchesSearch(title: string, search: string): (matches: bool)
    ensures search == "" ==> matches
  {
    search == "" || Contains(Lower(title), Lower(search))
  }

  /** A non-empty search matches exactly the titles that contain it somewhere, ignoring ASCII case. */
  lemma MatchesSearchMeaning(title: string, search: string)
    ensures MatchesSearch(title, search) <==>
              search == "" || exists i :: OccursAt(Lower(title), Lower(search), i)
  {
  }

  /** The rows a search keeps, in stored order. */
  function Matching(rows: seq<NewsRow>, search: string): (kept: seq<NewsRow>)
    ensures |kept| <= |rows|
    ensures forall r :: r in kept <==> r in rows && MatchesSearch(r.title, search)
    ensures search == "" ==> kept == rows
  {
    Where(rows, (r: NewsRow) => MatchesSearch(r.title, search))
  }

  // ---------------------------------------------------------------- queries

  function AsListingItems(rows: seq<NewsRow>): (items: seq<ListingItem>)
    ensures |items| == |rows|
    ensures forall k :: 0 <= k < |rows| ==>
              items[k] == ListingItem(rows[k].slug, rows[k].title, rows[k].mainImage)
  {
    seq(|rows|, k requires 0 <= k < |rows| => ListingItem(rows[k].slug, rows[k].title, rows[k].mainImage))
  }

  function AsSidebarItems(rows: seq<NewsRow>): (items: seq<SidebarItem>)
    ensures |items| == |rows|
    ensures forall k :: 0 <= k < |rows| ==> items[k] == SidebarItem(rows[k].slug, rows[k].title)
  {
    seq(|rows|, k requires 0 <= k < |rows| => SidebarItem(rows[k].slug, rows[k].title))
  }

  /**
   * `getNewsListing(page)`: at most six rows, those at positions
   * (page-1)*6 .. (page-1)*6+5 of the newest-first order, as slug/title/mainImage.
   */
  function GetNewsListing(rows: seq<NewsRow>, page: int): (items: seq<ListingItem>)
    requires page >= 1
    ensures |items| == if PageOffset(page, PageSize) >= |rows| then 0
                       else Min(PageSize, |rows| - PageOffset(page, PageSize))
    ensures forall k :: 0 <= k < |items| ==>
              var row := NewestFirst(rows)[PageOffset(page, PageSize) + k];
              items[k] == ListingItem(row.slug, row.title, row.mainImage)
  {
    Window(AsListingItems(NewestFirst(rows)), PageOffset(page, PageSize), PageSize)
  }

  /**
   * `getNewsSidebar(page, search)`: the same six-row window, taken over the
   * rows whose title matches the search, as slug/title.
   */
  function GetNewsSidebar(rows: seq<NewsRow>, page: int, search: string): (items: seq<SidebarItem>)
    requires page >= 1
    ensures var matching := |Matching(rows, search)|;
            |items| == if PageOffset(page, PageSize) >= matching then 0
                       else Min(PageSize, matching - PageOffset(page, PageSize))
    ensures forall k :: 0 <= k < |items| ==>
              var row := NewestFirst(Matching(rows, search))[PageOffset(page, PageSize) + k];
              items[k] == SidebarItem(row.slug, row.title)
  {
    var matching := Matching(rows, search);
    var ordered := NewestFirst(matching);
    assert |ordered| == |matching|;
    SidebarPage(ordered, page)
  }

  /** One page of six of the given rows, as slug/title. */
  function SidebarPage(ordered: seq<NewsRow>, page: int): (items: seq<SidebarItem>)
    requires page >= 1
    ensures |items| == if PageOffset(page, PageSize) >= |ordered| then 0
                       else Min(PageSize, |ordered| - PageOffset(page, PageSize))
    ensures forall k :: 0 <= k < |items| ==>
              items[k] == SidebarItem(ordered[PageOffset(page, PageSize) + k].slug,
                                      ordered[PageOffset(page, PageSize) + k].title)
  {
    Window(AsSidebarItems(ordered), PageOffset(page, PageSize), PageSize)
  }

  /** `getNewsCount(search)`: how many rows the sidebar's filter keeps. */
  function GetNewsCount(rows: seq<NewsRow>, search: string): (count: nat)
    ensures count <= |rows|
    ensures search == "" ==> count == |rows|
    ensures count == |Matching(rows, search)|
  {
    |Matching(rows, search)|
  }

  /** `WHERE p(row)` for a query that reads one row: the position of a row satisfying `p`, or -1. */
  function FindWhere(rows: seq<NewsRow>, p: NewsRow -> bool): (i: int)
    ensures i == -1 <==> forall k :: 0 <= k < |rows| ==> !p(rows[k])
    ensures i != -1 ==> 0 <= i < |rows| && p(rows[i])
  {
    if rows == [] then -1
    else if p(rows[|rows| - 1]) then |rows| - 1
    else FindWhere(rows[..|rows| - 1], p)
  }

  /** `WHERE id = id`: the position of the row with that key, or -1. */
  function FindById(rows: seq<NewsRow>, id: int): (i: int)
    ensures i == -1 <==> forall k :: 0 <= k < |rows| ==> rows[k].id != id
    ensures i != -1 ==> 0 <= i < |rows| && rows[i].id == id
  {
    FindWhere(rows, (r: NewsRow) => r.id == id)
  }

  /** `WHERE slug = slug`: the position of the row with that slug, or -1. */
  function FindBySlug(rows: seq<NewsRow>, slug: string): (i: int)
    ensures i == -1 <==> forall k :: 0 <= k < |rows| ==> rows[k].slug != slug
    ensures i != -1 ==> 0 <= i < |rows| && rows[i].slug == slug
  {
    FindWhere(rows, (r: NewsRow) => r.slug == slug)
  }

  /** `getNewsById(id)`: the slug of the row with that id, or nothing. */
  function GetNewsById(rows: seq<NewsRow>, id: int): (found: Option<string>)
    ensures found.None? <==> forall k :: 0 <= k < |rows| ==> rows[k].id != id
    ensures found.Some? ==> exists k :: 0 <= k < |rows| && rows[k].id == id && rows[k].slug == found.value
  {
    var i := FindById(rows, id);
    if i == -1 then None else Some(rows[i].slug)
  }

  function Detail(row: NewsRow): NewsDetail
  {
    NewsDetail(row.id, row.title, row.slug, row.images, row.mainImage, row.content)
  }

  /** `getNewsBySlug(slug)`: the full article with that slug, or nothing. */
  function GetNewsBySlug(rows: seq<NewsRow>, slug: string): (found: Option<NewsDetail>)
    ensures found.None? <==> forall k :: 0 <= k < |rows| ==> rows[k].slug != slug
    ensures found.Some? ==> found.value.slug == slug
    ensures found.Some? ==> exists k :: 0 <= k < |rows| && found.value == Detail(rows[k])
  {
    var i := FindBySlug(rows, slug);
    if i == -1 then None else Some(Detail(rows[i]))
  }

  // ---------------------------------------------------------------- properties of the queries

  /** Reading listing pages 1..n in turn lists the 6n newest articles, newest first, each once. */
  lemma ListingPagesCoverTable(rows: seq<NewsRow>, n: nat)
    ensures FirstPages(AsListingItems(NewestFirst(rows)), n, PageSize)
            == AsListingItems(NewestFirst(rows))[..Min(n * PageSize, |rows|)]
  {
    FirstPagesArePrefix(AsListingItems(NewestFirst(rows)), n, PageSize);
  }

  /** Every sidebar item comes from a stored row whose title matches the search. */
  lemma {:induction false} SidebarShowsOnlyMatches(rows: seq<NewsRow>, page: int, search: string, k: nat)
    requires page >= 1 && k < |GetNewsSidebar(rows, page, search)|
    ensures var row := NewestFirst(Matching(rows, search))[PageOffset(page, PageSize) + k];
            row in rows && MatchesSearch(row.title, search)
  {
    var matching := Matching(rows, search);
    var pos := PageOffset(page, PageSize) + k;
    assert pos < |matching|;
    NewestFirstFrom(matching, pos);
    MatchingMember(rows, search, NewestFirst(matching)[pos]);
  }

  /** Each position of the newest-first order holds a stored row. */
  lemma NewestFirstFrom(rows: seq<NewsRow>, pos: nat)
    requires pos < |rows|
    ensures NewestFirst(rows)[pos] in rows
  {
    assert NewestFirst(rows)[pos] == rows[|rows| - 1 - pos];
  }

  /** A row the search keeps is a stored row whose title matches. */
  lemma MatchingMember(rows: seq<NewsRow>, search: string, row: NewsRow)
    requires row in Matching(rows, search)
    ensures row in rows && MatchesSearch(row.title, search)
  {
  }

  /** Without a search term the sidebar shows the listing's articles, page for page. */
  lemma SidebarWithoutSearchIsListing(rows: seq<NewsRow>, page: int)
    requires page >= 1
    ensures |GetNewsSidebar(rows, page, "")| == |GetNewsListing(rows, page)|
    ensures forall k :: 0 <= k < |GetNewsListing(rows, page)| ==>
              GetNewsSidebar(rows, page, "")[k].slug == GetNewsListing(rows, page)[k].slug &&
              GetNewsSidebar(rows, page, "")[k].title == GetNewsListing(rows, page)[k].title
  {
    assert Matching(rows, "") == rows;
  }

  /** With a search term, the count and the sidebar pages agree: ceil(count/6) pages list every match once. */
  lemma SidebarPagesListEveryMatch(rows: seq<NewsRow>, search: string)
    ensures var view := AsSidebarItems(NewestFirst(Matching(rows, search)));
            FirstPages(view, CeilDiv(GetNewsCount(rows, search), PageSize), PageSize) == view
  {
    var view := AsSidebarItems(NewestFirst(Matching(rows, search)));
    var pages := CeilDiv(GetNewsCount(rows, search), PageSize);
    FirstPagesArePrefix(view, pages, PageSize);
    assert Min(pages * PageSize, |view|) == |view|;
  }

  /** With unique slugs, the row found by slug is the one inserted with it. */
  lemma {:induction false} FindBySlugAfterAppend(rows: seq<NewsRow>, row: NewsRow)
    requires forall k :: 0 <= k < |rows| ==> rows[k].slug != row.slug
    ensures GetNewsBySlug(rows + [row], row.slug) == Some(Detail(row))
  {
    assert (rows + [row])[|rows + [row]| - 1] == row;
  }

  // ---------------------------------------------------------------- commands

  /** The `images` validation of `updateNewsImages`: one "Invalid url" per element that is not a URL. */
  function UrlErrors(images: seq<string>, isUrl: string -> bool): (messages: seq<string>)
    ensures messages == [] <==> forall k :: 0 <= k < |images| ==> isUrl(images[k])
    ensures |messages| <= |images|
    ensures forall k :: 0 <= k < |messages| ==> messages[k] == InvalidUrl
  {
    if images == [] then []
    else (if isUrl(images[0]) then [] else [InvalidUrl]) + UrlErrors(images[1..], isUrl)
  }

  /** One image gives one message exactly when it is not a URL. */
  lemma UrlErrorsOfOne(image: string, isUrl: string -> bool)
    ensures UrlErrors([image], isUrl) == if isUrl(image) then [] else [InvalidUrl]
  {
    assert [image][1..] == [];
  }

  /** The messages of two lists of images are those of each list, in order: one per failing image. */
  lemma {:induction false} UrlErrorsAppend(a: seq<string>, b: seq<string>, isUrl: string -> bool)
    ensures UrlErrors(a + b, isUrl) == UrlErrors(a, isUrl) + UrlErrors(b, isUrl)
  {
    if a != [] {
      assert (a + b)[0] == a[0];
      assert (a + b)[1..] == a[1..] + b;
      UrlErrorsAppend(a[1..], b, isUrl);
    } else {
      assert a + b == b;
    }
  }

  /** The row `updateNews` writes: every editable column from the input, id and time kept. */
  function Updated(row: NewsRow, input: NewsInput): NewsRow
  {
    row.(slug := input.slug, title := input.title, mainImage := input.mainImage,
         content := input.content, images := input.images)
  }

  /** The rows left after `DELETE ... WHERE slug = slug`. */
  function WithoutSlug(rows: seq<NewsRow>, slug: string): seq<NewsRow>
  {
    Where(rows, (r: NewsRow) => r.slug != slug)
  }

  /** Deleting by slug removes exactly the one row with that slug, if any, and keeps the rest. */
  lemma {:induction false} DeleteRemovesAtMostOne(rows: seq<NewsRow>, slug: string)
    requires SlugsUnique(rows)
    ensures |WithoutSlug(rows, slug)| == if FindBySlug(rows, slug) == -1 then |rows| else |rows| - 1
    ensures forall r :: r in WithoutSlug(rows, slug) <==> r in rows && r.slug != slug
  {
    if rows != [] {
      DeleteRemovesAtMostOne(rows[1..], slug);
      if rows[0].slug == slug {
        assert forall k :: 0 <= k < |rows[1..]| ==> rows[1..][k].slug != slug by {
          forall k | 0 <= k < |rows[1..]| ensures rows[1..][k].slug != slug {
            assert rows[1..][k] == rows[k + 1];
          }
        }
        assert FindBySlug(rows[1..], slug) == -1;
      } else {
        assert FindBySlug(rows, slug) == -1 <==> FindBySlug(rows[1..], slug) == -1 by {
          assert forall k :: 0 < k < |rows| ==> rows[k] == rows[1..][k - 1];
        }
      }
    }
  }

  /** The `news` table, with its serial sequence and the clock `defaultNow()` reads. */
  class NewsTable {
    /** The stored rows, oldest first. */
    var rows: seq<NewsRow>
    /** The next value of the `id` serial sequence. */
    var nextId: int
    /** The insertion time the next row receives; advances with every insert. */
    var clock: int

    ghost predicate Valid()
      reads this
    {
      TableInvariant(rows) &&
      forall k :: 0 <= k < |rows| ==> rows[k].id < nextId && rows[k].publishedAt < clock
    }

    constructor ()
      ensures Valid() && rows == [] && nextId == 1
    {
      rows := [];
      nextId := 1;
      clock := 0;
    }

    /**
     * `createNews(values)`: validate, then check the slug is free, then insert.
     * Every refusal leaves the table as it was.
     */
    method CreateNews(input: NewsInput) returns (result: ActionResult)
      requires Valid()
      modifies this
      ensures Valid()
      ensures !IsValid(input) ==> result == Failure(Validate(input)) && unchanged(this)
      ensures IsValid(input) && FindBySlug(old(rows), input.slug) != -1 ==>
                result == Failure([("slug", [SlugTaken])]) && unchanged(this)
      ensures var row := NewsRow(old(nextId), input.slug, input.title, input.mainImage,
                                 input.content, input.images, old(clock));
              IsValid(input) && FindBySlug(old(rows), input.slug) == -1 ==>
                if FitsColumns(row) then
                  result == Success && rows == old(rows) + [row] &&
                  nextId == old(nextId) + 1 && clock == old(clock) + 1 &&
                  GetNewsBySlug(rows, input.slug) == Some(Detail(row))
                else
                  result == Failure([(FormKey, [CreateFailed])]) && unchanged(this)
    {
      var errors := Validate(input);
      if errors != [] {
        return Failure(errors);
      }
      var existing := GetNewsBySlug(rows, input.slug);
      if existing.Some? {
        return Failure([("slug", [SlugTaken])]);
      }
      var row := NewsRow(nextId, input.slug, input.title, input.mainImage, input.content, input.images, clock);
      if !FitsColumns(row) {
        return Failure([(FormKey, [CreateFailed])]);
      }
      AppendKeepsInvariant(rows, row);
      FindBySlugAfterAppend(rows, row);
      ghost var before := rows;
      rows := rows + [row];
      nextId := nextId + 1;
      clock := clock + 1;
      forall k | 0 <= k < |rows| ensures rows[k].id < nextId && rows[k].publishedAt < clock {
        if k < |before| {
          assert rows[k] == before[k];
        }
      }
      result := Success;
    }

    /**
     * `updateNews(id, values)`: validate, then check the slug is free for any
     * other id, then check the id exists, then rewrite that one row.
     */
    method UpdateNews(id: int, input: NewsInput) returns (result: ActionResult)
      requires Valid()
      modifies this
      ensures Valid()
      ensures nextId == old(nextId) && clock == old(clock)
      ensures !IsValid(input) ==> result == Failure(Validate(input)) && unchanged(this)
      ensures var s := FindBySlug(old(rows), input.slug);
              IsValid(input) && s != -1 && old(rows)[s].id != id ==>
                result == Failure([("slug", [SlugTaken])]) && unchanged(this)
      ensures var s := FindBySlug(old(rows), input.slug);
              IsValid(input) && (s == -1 || old(rows)[s].id == id) && FindById(old(rows), id) == -1 ==>
                result == Failure([(FormKey, [NotFound])]) && unchanged(this)
      ensures var s, i := FindBySlug(old(rows), input.slug), FindById(old(rows), id);
              IsValid(input) && (s == -1 || old(rows)[s].id == id) && i != -1 ==>
                if FitsColumns(Updated(old(rows)[i], input)) then
                  result == Success && rows == old(rows)[i := Updated(old(rows)[i], input)]
                else
                  result == Failure([(FormKey, [UpdateFailed])]) && unchanged(this)
    {
      var errors := Validate(input);
      if errors != [] {
        return Failure(errors);
      }
      var existing := GetNewsBySlug(rows, input.slug);
      if existing.Some? && existing.value.id != id {
        return Failure([("slug", [SlugTaken])]);
      }
      var i := FindById(rows, id);
      if i == -1 {
        return Failure([(FormKey, [NotFound])]);
      }
      var row := Updated(rows[i], input);
      if !FitsColumns(row) {
        return Failure([(FormKey, [UpdateFailed])]);
      }
      ReplaceKeepsInvariant(rows, i, row);
      rows := rows[i := row];
      result := Success;
    }

    /**
     * `deleteNews(slug)`: removes the row with that slug and succeeds whether
     * or not one existed. A storage error (`fails`) is caught and answered with
     * the `_form` message, the table as it was.
     */
    method DeleteNews(slug: string, fails: bool) returns (result: ActionResult)
      requires Valid()
      modifies this
      ensures Valid()
      ensures fails ==> result == Failure([(FormKey, [DeleteFailed])]) && unchanged(this)
      ensures !fails ==> result == Success && rows == WithoutSlug(old(rows), slug)
      ensures nextId == old(nextId) && clock == old(clock)
    {
      if fails {
        return Failure([(FormKey, [DeleteFailed])]);
      }
      ghost var before := rows;
      WhereKeepsInvariant(rows, (r: NewsRow) => r.slug != slug);
      rows := WithoutSlug(rows, slug);
      forall k | 0 <= k < |rows| ensures rows[k].id < nextId && rows[k].publishedAt < clock {
        assert rows[k] in before;
      }
      result := Success;
    }

    /**
     * `updateNewsImages({id, images})`: every image must be a URL, then the id
     * must exist; only that row's `images` change.
     */
    method UpdateNewsImages(id: int, images: seq<string>, isUrl: string -> bool) returns (result: ActionResult)
      requires Valid()
      modifies this
      ensures Valid()
      ensures nextId == old(nextId) && clock == old(clock)
      ensures UrlErrors(images, isUrl) != [] ==>
                result == Failure([("images", UrlErrors(images, isUrl))]) && unchanged(this)
      ensures UrlErrors(images, isUrl) == [] && FindById(old(rows), id) == -1 ==>
                result == Failure([(FormKey, [NotFound])]) && unchanged(this)
      ensures var i := FindById(old(rows), id);
              UrlErrors(images, isUrl) == [] && i != -1 ==>
                result == Success && rows == old(rows)[i := old(rows)[i].(images := images)]
    {
      var invalid := UrlErrors(images, isUrl);
      if invalid != [] {
        return Failure([("images", invalid)]);
      }
      var i := FindById(rows, id);
      if i == -1 {
        return Failure([(FormKey, [NotFound])]);
      }
      var row := rows[i].(images := images);
      ReplaceKeepsInvariant(rows, i, row);
      rows := rows[i := row];
      result := Success;
    }
  }

  /**
   * Rewriting row `i` with the same id and time, a slug no other row has and
   * values that fit the columns keeps the table invariant.
   */
  lemma ReplaceKeepsInvariant(rows: seq<NewsRow>, i: nat, row: NewsRow)
    requires TableInvariant(rows) && i < |rows|
    requires row.id == rows[i].id && row.publishedAt == rows[i].publishedAt && FitsColumns(row)
    requires forall k :: 0 <= k < |rows| && k != i ==> rows[k].slug != row.slug
    ensures TableInvariant(rows[i := row])
  {
  }
}
