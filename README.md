# News articles of the krus-bialystok site, in Dafny

This project models the news-article core of a small institutional website:
one `news` table, the server actions that list, search, count, create,
update and delete articles, the validator and error classes they use, the
helper that turns an upload URL into a storage key, and the pure rules that
sit inside the pager, sidebar and editor components.

- `wrappers.dfy`, `text.dfy`, `paging.dfy`: `Option`, ASCII case mapping,
  JavaScript's `indexOf` and `join`, `Math.ceil(count / size)`, SQL
  `LIMIT`/`OFFSET` windows and the `Math.max`/`Math.min` prev/next clamps.
- `utils.dfy` (`src/lib/utils.ts`): the storage key after the first `/f/`.
- `http_errors.dfy` (`src/lib/http-errors.ts`): `RequestError` as a class
  with two constructors (the second one is `ValidationError`), and the
  message formatter.
- `validation.dfy` (`src/lib/validation.ts`): `NewsSchema` as a function
  from the submitted values to the field-error map it reports.
- `schema.dfy` (`src/db/schema.ts`): the row type and the table's declared
  constraints as one invariant.
- `news_actions.dfy` (`src/lib/actions/news.action.ts`): the queries are
  functions of the table's rows; the commands are methods of the
  `NewsTable` class, which runs the checks in the source's order and then
  changes its rows in place.
- `news_pagination.dfy`, `news_section.dfy`, `news_sidebar.dfy`,
  `news_form.dfy`: the component rules. The sidebar and the editor keep
  React state that their handlers update step by step, so each is a class.

Modelling choices:

- `defaultNow()` is a logical clock owned by the table. It advances on
  every insert, so rows stored in insertion order are also in
  `published_at` order. `ORDER BY published_at DESC` is then the stored
  order reversed. `NewestFirstIsPermutation` and `NewestFirstIsSorted`
  prove that order a permutation of the rows, sorted by time.
- An absent search term and the empty string are one value here. Both are
  falsy in the source, so both apply no filter.
- Two storage failures are modelled. On create and update, a value longer
  than a varchar(255) column is refused; this keeps the declared column
  widths part of the table invariant. On delete, a storage error is a
  parameter (`fails` of `DeleteNews`). Each returns the source's `_form`
  message and leaves the table as it was.
- `slugify` and zod's `.url()` check are function parameters.
- Strings are sequences of Unicode characters. The schema's minimum lengths
  count UTF-16 code units, as JavaScript's `length` does (`Text.Utf16Length`);
  the varchar(255) widths count characters, as PostgreSQL does.

Discrepancies in the source, modelled as written:

- `images` is selected, inserted and updated by the actions
  (`src/lib/actions/news.action.ts:77,111,160,220`). It is declared neither
  in `NewsSchema` nor in the table. The model passes the submitted list
  through and gives it no rule.
- The sidebar counts its pages with a size of 10
  (`src/components/admin/NewsSidebar.tsx:70-71`). The server pages the
  sidebar with a size of 6. `SidebarPagerMissesRows` proves that matches at
  positions from 6·ceil(count/10) on are on no page the sidebar offers.
  `SeventhMatchIsUnreachable` instantiates this for seven matches.
- The sidebar ignores what `deleteNews` returns
  (`src/components/admin/NewsSidebar.tsx:132-137`). On a storage error the
  action answers with a `_form` message instead of throwing
  (`src/lib/actions/news.action.ts:189-192`). `HandleDeleteNews` then keeps
  the row in the table while the list loses the item and the count drops by
  one, so the sidebar is out of step with the table until its next load.
- The news section component imports `getNewsListing` as a default import
  (`src/components/sections/News.tsx:5`), but the actions module has only
  named exports (`src/lib/actions/news.action.ts:13-201`), so as written the
  listing call has no target. No page renders the section
  (`src/app/(root)/page.tsx` shows the hero, team and footer sections). The
  model gives the section the listing query the import evidently names.

## Model

| member | source | states |
|---|---|---|
| `Text.IndexOf` | src/lib/utils.ts:10 | -1 exactly when the marker occurs nowhere; otherwise an occurrence with none before it (the first one) |
| `Utils.ExtractIdentifierFromUrl` | src/lib/utils.ts:8-24 | the key is a suffix of the URL, at least 3 characters shorter, or ""; no marker gives ""; the key is non-empty iff some `/f/` has a character after it; a non-empty key is what follows the first `/f/` (url == prefix + "/f/" + key, no marker starting inside prefix) |
| `Text.JoinSnoc` | src/lib/http-errors.ts:38 | joining one more part appends the separator and that part |
| `HttpErrors.FormatField` | src/lib/http-errors.ts:27-35 | a first message "Required" gives the field name with its first character upper-cased and the rest unchanged, then " is required"; an empty list gives ""; a single other message is returned as it is |
| `HttpErrors.FragmentIgnoresField` | src/lib/http-errors.ts:32-34 | outside the "Required" case the fragment does not depend on the field name |
| `HttpErrors.FragmentJoinsWithAnd` | src/lib/http-errors.ts:33 | outside the "Required" case messages are glued with the literal "and", no spaces |
| `HttpErrors.Fragments` | src/lib/http-errors.ts:26-36 | one fragment per entry |
| `HttpErrors.FormatFieldErrors` | src/lib/http-errors.ts:25-39 | an empty map gives ""; a one-entry map gives that entry's fragment |
| `HttpErrors.FormatFieldErrorsSnoc` | src/lib/http-errors.ts:26-38 | fragments follow entry order: one more entry appends ", " and its fragment |
| `HttpErrors.RequestError.constructor` | src/lib/http-errors.ts:5-14 | stores exactly the given status code, message and errors; name "RequestError" |
| `HttpErrors.RequestError.Validation` | src/lib/http-errors.ts:18-23 | status 400, errors equal to the input map, message equal to its formatting; name "ValidationError" |
| `Text.Utf16Length` | src/lib/validation.ts:4-7 | JavaScript's `length`: between one and two UTF-16 code units per character |
| `Text.Utf16LengthAppend` | src/lib/validation.ts:4-7 | code units add up over concatenation |
| `Text.Utf16LengthOfBmp` | src/lib/validation.ts:4-7 | text inside the Basic Multilingual Plane has as many code units as characters |
| `Validation.Validate` | src/lib/validation.ts:3-8 | no errors iff title ≥ 3, slug ≥ 3, mainImage ≥ 1 and content ≥ 10 UTF-16 code units (no upper bound, no URL check); at most four entries, all under the four field names |
| `Validation.ValidateReportsEachField` | src/lib/validation.ts:4-7 | each failing field has exactly its fixed message under its own key; each passing field has no entry |
| `Schema.Where` | src/lib/actions/news.action.ts:34 | the kept rows are exactly the stored rows satisfying the condition; a condition every row meets keeps the table as it is |
| `Schema.WhereKeepsInvariant` | src/db/schema.ts:13-18 | filtered rows still have unique ids and slugs, fitting varchar values and insertion-time order |
| `Schema.AppendKeepsInvariant` | src/db/schema.ts:13-18 | inserting a fitting row with a fresh slug and a larger id and time keeps the declared constraints |
| `NewsActions.NewsTable.constructor` | src/db/schema.ts:10-26 | an empty table satisfies the declared constraints: unique id and slug, varchar(255) widths, insertion-time order |
| `NewsActions.ReplaceKeepsInvariant` | src/db/schema.ts:13-16 | rewriting one row with its id and time kept, a slug no other row has and values that fit keeps the constraints |
| `NewsActions.NewestFirstIsPermutation` | src/lib/actions/news.action.ts:21 | ordering returns every stored row exactly as often as the table holds it |
| `NewsActions.NewestFirstIsSorted` | src/lib/actions/news.action.ts:21 | with rows stored in insertion order, an earlier position has a strictly later publishedAt |
| `NewsActions.GetNewsListing` | src/lib/actions/news.action.ts:13-24 | at most 6 items: positions (page-1)·6 onwards of the newest-first order, projected to slug/title/mainImage |
| `NewsActions.ListingPagesCoverTable` | src/lib/actions/news.action.ts:22-23 | pages 1..n read in turn list the 6n newest articles in order, each once |
| `NewsActions.GetNewsSidebar` | src/lib/actions/news.action.ts:26-49 | the same 6-row window over the rows the search keeps, projected to slug/title |
| `NewsActions.SidebarPage` | src/lib/actions/news.action.ts:40-48 | at most 6 items: positions (page-1)·6 onwards of the given order, as slug/title |
| `NewsActions.MatchesSearch` | src/lib/actions/news.action.ts:34 | an empty or absent search term matches every title |
| `NewsActions.MatchesSearchMeaning` | src/lib/actions/news.action.ts:56 | a title matches iff the search is empty or occurs in it at some position, ignoring ASCII case |
| `NewsActions.Matching` | src/lib/actions/news.action.ts:34-56 | the kept rows are exactly the stored rows whose title matches, never more than stored; with no search, all rows in stored order |
| `NewsActions.SidebarShowsOnlyMatches` | src/lib/actions/news.action.ts:34 | every sidebar item comes from a stored row whose title contains the search, ignoring ASCII case |
| `NewsActions.SidebarWithoutSearchIsListing` | src/lib/actions/news.action.ts:40-48 | with no search, the sidebar page shows the listing page's articles |
| `NewsActions.GetNewsCount` | src/lib/actions/news.action.ts:51-60 | the number of rows the sidebar's filter keeps; with no search, the row count |
| `NewsActions.SidebarPagesListEveryMatch` | src/lib/actions/news.action.ts:26-60 | ceil(count/6) sidebar pages list every match exactly once |
| `NewsActions.FindWhere` | src/lib/actions/news.action.ts:62-86 | a single-row `WHERE` lookup: -1 iff no row satisfies the condition, otherwise the position of one that does |
| `NewsActions.GetNewsById` | src/lib/actions/news.action.ts:62-69 | nothing iff no row has the id; otherwise the slug of a row with that id |
| `NewsActions.GetNewsBySlug` | src/lib/actions/news.action.ts:71-86 | nothing iff no row has the slug; otherwise the full article of a row with that slug |
| `NewsActions.FindBySlugAfterAppend` | src/lib/actions/news.action.ts:106-112 | after inserting a row with a fresh slug, looking the slug up returns that row |
| `NewsActions.UrlErrors` | src/lib/actions/news.action.ts:196-199 | no message iff every image is a URL; one "Invalid url" per failing image |
| `NewsActions.UrlErrorsOfOne` | src/lib/actions/news.action.ts:196-199 | one image gives no message if it is a URL and exactly one "Invalid url" otherwise |
| `NewsActions.UrlErrorsAppend` | src/lib/actions/news.action.ts:196-199 | the messages of two lists of images are those of the first followed by those of the second, so there is one per failing image |
| `NewsActions.DeleteRemovesAtMostOne` | src/lib/actions/news.action.ts:180-182 | with unique slugs, deleting by slug removes one row if one has it, none otherwise, and keeps every other row |
| `NewsActions.NewsTable.CreateNews` | src/lib/actions/news.action.ts:90-125 | invalid input returns the validator's map; a taken slug returns {slug: ["Slug already exists"]}; both leave the table unchanged; otherwise exactly one row with a fresh id and the next time is appended, slugs stay unique, and the slug looks up to it |
| `NewsActions.NewsTable.UpdateNews` | src/lib/actions/news.action.ts:127-178 | validation first; then a slug held by another id is refused even when the target id does not exist; then a missing id returns {_form: ["News item not found"]}; on success only that row changes, id and time kept |
| `NewsActions.NewsTable.DeleteNews` | src/lib/actions/news.action.ts:180-193 | without a storage error, success and the rows become those without that slug; with one, the `_form` message "Failed to delete news. Please try again." and the table as it was; id sequence and clock kept either way |
| `NewsActions.NewsTable.UpdateNewsImages` | src/lib/actions/news.action.ts:201-232 | non-URLs are refused, then an unknown id; otherwise only that row's images change |
| `Paging.CeilDiv` | src/components/News/NewsPagination.tsx:18 | the least number of pages of the given size that holds the count |
| `Paging.Window` | src/lib/actions/news.action.ts:47-48 | LIMIT/OFFSET: the elements from the offset on, at most limit of them |
| `Paging.FirstPagesArePrefix` | src/lib/actions/news.action.ts:36-37 | pages 1..n together are the first n·size elements, in order |
| `Paging.PageOfPosition` | src/lib/actions/news.action.ts:22-23 | the element at position pos is in the window of page pos/size+1 and of no other page |
| `Paging.StepBack` | src/components/admin/NewsSidebar.tsx:284 | at least 1; one page back from any page after the first |
| `Paging.StepForward` | src/components/admin/NewsSidebar.tsx:298 | at most the page count; one page on from any page before the last |
| `Paging.StepsStayInRange` | src/components/admin/NewsSidebar.tsx:283-299 | from a page in [1, total], either step stays in [1, total] |
| `Paging.Previous` | src/components/News/NewsPagination.tsx:22-27 | targets max(1, current-1), so page 1 from page 1 or below; hidden iff current == 1 |
| `Paging.Next` | src/components/News/NewsPagination.tsx:54-59 | targets min(total, current+1), so the last page from the last page or beyond; hidden iff current == total |
| `NewsPagination.TotalPages` | src/components/News/NewsPagination.tsx:17-18 | ceil(count/6): zero only for no articles, otherwise the least page count that holds them |
| `NewsPagination.SlotsFrom` | src/components/News/NewsPagination.tsx:29-53 | items in strictly increasing page order, each within range and what the three-way rule gives for its page; every page the rule keeps appears |
| `NewsPagination.AtMostSevenSlots` | src/components/News/NewsPagination.tsx:29-53 | at most 7 items are rendered (5 links and 2 ellipses) |
| `NewsPagination.LinkPagesAreRendered` | src/components/News/NewsPagination.tsx:30-43 | page 1, the last page and the neighbours of the current page are links; a link is active iff it is the current page |
| `NewsPagination.EllipsisPlacement` | src/components/News/NewsPagination.tsx:45-51 | an ellipsis stands only at current±2 and never where a link belongs |
| `NewsSection.TotalPages` | src/components/sections/News.tsx:22 | ceil(count/6); a missing count row gives 1 |
| `NewsSection.PagerFor` | src/components/sections/News.tsx:69-100 | exactly total links, numbered 1..total, active iff current == i+1; some link is active iff current is in range; an ellipsis iff total > 7; the prev/next buttons of the pager rule |
| `NewsSection.OneActiveLink` | src/components/sections/News.tsx:81 | at most one link is active |
| `NewsSection.TileClass` | src/components/sections/News.tsx:39 | wide ("news-span-3") iff tile 0 or 5, narrow and moved last ("news-span-2 order-last") iff tile 4, narrow ("news-span-2") otherwise |
| `NewsSection.TileClassNames` | src/components/sections/News.tsx:39 | each tile is rendered with the class string the index ternary gives it |
| `NewsSection.CompactGridOnlyFromLastPage` | src/components/sections/News.tsx:31 | the compact two-row grid (fewer than four articles) shows only on the last listing page or beyond it, and always beyond it |
| `NewsSection.TileClasses` | src/components/sections/News.tsx:34-39 | one class per tile, in tile order, each the class of its index |
| `NewsSection.TileClassCounts` | src/components/sections/News.tsx:34-39 | a page of one to five tiles has one wide tile and six tiles have two; one tile is moved last iff there are at least five |
| `NewsSidebar.TotalPages` | src/components/admin/NewsSidebar.tsx:70-71 | ceil(count/10), at most 0 when the count is not positive |
| `NewsSidebar.Fetch` | src/components/admin/NewsSidebar.tsx:98-101 | the server answers with at most 6 items and one count row equal to the number of matches |
| `NewsSidebar.WithoutItem` | src/components/admin/NewsSidebar.tsx:134-136 | keeps exactly the items with another slug; nothing changes when no item has the slug |
| `NewsSidebar.WithoutItemOfOne` | src/components/admin/NewsSidebar.tsx:134-136 | one item is dropped iff it has the slug |
| `NewsSidebar.WithoutItemAppend` | src/components/admin/NewsSidebar.tsx:134-136 | filtering a concatenation filters each part in place, so the kept items keep their order and their multiplicity |
| `NewsSidebar.SidebarPagerMissesRows` | src/components/admin/NewsSidebar.tsx:70-71 | a match at a position of 6·ceil(count/10) or beyond is on no page the sidebar offers |
| `NewsSidebar.SeventhMatchIsUnreachable` | src/components/admin/NewsSidebar.tsx:277 | with seven matches there is one page and no pager, and page 1 holds six |
| `NewsSidebar.SidebarState.constructor` | src/components/admin/NewsSidebar.tsx:57-67 | page 1, empty query and list, count 0, loading, no dialog and no selection |
| `NewsSidebar.SidebarState.TypeSearch` | src/components/admin/NewsSidebar.tsx:220 | the typed query is stored |
| `NewsSidebar.SidebarState.CommitSearch` | src/components/admin/NewsSidebar.tsx:79-82 | committing a query always resets the page to 1 |
| `NewsSidebar.SidebarState.PreviousPage` | src/components/admin/NewsSidebar.tsx:283-285 | the page becomes max(1, page-1) |
| `NewsSidebar.SidebarState.NextPage` | src/components/admin/NewsSidebar.tsx:297-299 | while the pager is shown, the page becomes min(totalPages, page+1) |
| `NewsSidebar.SidebarState.LoadData` | src/components/admin/NewsSidebar.tsx:95-118 | on success the list is the sidebar query's page for the current page and committed search, and the count is the count query's number of matches; a failure leaves an empty list and count 0; loading ends |
| `NewsSidebar.SidebarState.DropDeleted` | src/components/admin/NewsSidebar.tsx:134-147 | the list loses exactly the items with the slug, the count drops by 1, the page steps back only when the old list held one item and page > 1 |
| `NewsSidebar.SidebarState.CloseDeleteDialog` | src/components/admin/NewsSidebar.tsx:151-155 | the dialog closes, nothing is selected and no deletion is in progress |
| `NewsSidebar.SidebarState.SelectForDelete` | src/components/admin/NewsSidebar.tsx:264-267 | the item is selected and the dialog opens |
| `NewsSidebar.SidebarState.HandleDeleteNews` | src/components/admin/NewsSidebar.tsx:127-156 | with nothing selected nothing changes; when the call returns, the list loses exactly the items with that slug, the count drops by 1 and the page steps back only when the old list held one item and page > 1, whatever the server answered: the row goes on success and stays after a storage error; when the call is rejected, table, list, count and page stay; either way the dialog closes with the selection cleared, the search is kept, and the table's id sequence and clock never change |
| `NewsForm.UpdateTarget` | src/components/admin/NewsForm.tsx:66-68 | update only when the article has a non-zero id, create otherwise |
| `NewsForm.ReplaceAt` | src/components/admin/NewsForm.tsx:251-256 | same length; only position index takes the new value |
| `NewsForm.RemoveAt` | src/components/admin/NewsForm.tsx:282-284 | exactly position index is removed, the rest keep their order |
| `NewsForm.FieldMessages` | src/components/admin/NewsForm.tsx:80-87 | `_form` never becomes a field error |
| `NewsForm.FieldMessagesKeys` | src/components/admin/NewsForm.tsx:80-87 | a key gets a field error iff it is not `_form` and has a non-empty message list |
| `NewsForm.FieldMessagesFirst` | src/components/admin/NewsForm.tsx:82-85 | with distinct keys, the field error of a key is the first of its messages |
| `NewsForm.NewsFormState.constructor` | src/components/admin/NewsForm.tsx:44-60 | defaults from the article or empty values; the article's gallery copied into the gallery state |
| `NewsForm.NewsFormState.EditImage` | src/components/admin/NewsForm.tsx:251-256 | only the gallery state changes, at one position; the form's images value is not written |
| `NewsForm.NewsFormState.DeleteImage` | src/components/admin/NewsForm.tsx:274-288 | a remote deletion is requested only for a non-empty key; when that deletion rejects both lists stay; otherwise the image leaves the gallery state and the form value |
| `NewsForm.NewsFormState.UploadComplete` | src/components/admin/NewsForm.tsx:298-305 | the new URL is appended to both lists |
| `NewsForm.NewsFormState.MainImageUploaded` | src/components/admin/NewsForm.tsx:221-225 | the uploaded URL becomes the main image |
| `NewsForm.NewsFormState.Cancel` | src/components/admin/NewsForm.tsx:347-349 | the form returns to its default values and its errors are cleared; the gallery state is kept |
| `NewsForm.NewsFormState.GenerateSlug` | src/components/admin/NewsForm.tsx:134-140 | nothing on an empty title; otherwise the slug is the slugified title |
| `NewsForm.NewsFormState.TitleBlur` | src/components/admin/NewsForm.tsx:171-176 | a slug is generated only while the slug is empty |
| `NewsForm.NewsFormState.ClearAfterCreate` | src/components/admin/NewsForm.tsx:104-112 | the gallery is emptied, the values become the empty defaults and no field error remains |
| `NewsForm.NewsFormState.ApplyErrors` | src/components/admin/NewsForm.tsx:80-87 | the form's errors gain exactly the field messages of the map |
| `NewsForm.NewsFormState.Submit` | src/components/admin/NewsForm.tsx:62-132 | the field errors are replaced by the schema's: invalid values are blocked with the validator's map as field errors and reach no server; valid values clear them, then a rejected call leaves everything else as it was and a server error map becomes exactly its field messages, the table, gallery and values unchanged; a successful create appends exactly the row with the next id and time, advances both by one, makes the row findable by its slug, and (without an article) clears gallery and values; a successful update rewrites exactly the row with the article's id with the submitted values, id sequence and clock kept, and leaves gallery and values; no field error survives a success |
| `NewsForm.NewsFormState.Send` | src/components/admin/NewsForm.tsx:66-68 | an id-less article is created and one with an id updated: a refusal leaves the table unchanged; a create appends exactly the new row and advances the id sequence and clock by one; an update rewrites exactly the row with that id |
| `NewsForm.NewsFormState.Settle` | src/components/admin/NewsForm.tsx:70-115 | after the resolver cleared the errors: a server error map becomes exactly its field messages with gallery and values kept; a success leaves no field error and, for a new article, empties gallery and values |

## Left out

- Framework cache invalidation (`revalidatePath`), logging, toasts, router navigation (including the sidebar's redirect after deleting the open article) and authentication: they do not change the modelled state.
- Storage failures of create and update other than an over-long varchar value; a storage failure of delete is a parameter. The create failure's second `_form` entry (the raw exception object) is not modelled.
- `CreateNews`: a value longer than 255 characters whose excess is all spaces is refused, whereas PostgreSQL truncates it to 255 and stores it; a refused insert leaves `nextId` as it was, whereas PostgreSQL's `nextval` is not rolled back and the next id may skip. Both keep the column rule and the id sequence simple.
- `UpdateNews`: the same over-long value with only trailing spaces in excess is refused, whereas PostgreSQL truncates and stores it.
- The check-then-insert race on the slug and the database's unique-constraint backstop: commands run one at a time here.
- The `isMounted` cancellation flag, the 300 ms debounce timer (only its effect, "commit query, page := 1", is kept), the 200 ms delay before navigation, and the refresh timestamp context.
- `ILIKE` treats `%` and `_` in the search term as wildcards and `\` as its escape character; the model uses plain substring containment. Case folding is ASCII only, and so is the upper-casing in `Capitalize`.
- `Number(page)` on a non-numeric string, and pages below 1: the queries require `page >= 1`. The all-news pages clamp the page to at least 1 (`src/app/(root)/news/wszystkie/page.tsx:10`, `src/app/(root)/news/wszystkie/[page]/page.tsx:18`). The news section component passes `Number(page)` unclamped (`src/components/sections/News.tsx:19`); its listing query below page 1 is not modelled. Its pager is modelled for any page, and with no articles its Next button targets page 0.
- `HandleDeleteNews`: a rejection is modelled as leaving the table unchanged. A server that deletes the row and then fails to answer is not modelled.
- `Submit`: a rejected server call is modelled as leaving the table unchanged. A server that writes the row and then fails to answer is not modelled.
- `CompactGridOnlyFromLastPage`: relates the compact grid to `getNewsListing`, the evidently intended target of the section's default import; as written that import binds nothing, and no page renders the section.
- Ties between equal `published_at` values: the logical clock makes every insertion time distinct.
- `slugify`, zod's URL check, the upload and file-deletion services, the markdown preview and `cn` class merging are external. `slugify` and the URL check are parameters. `DeleteImage` returns the key it would delete.
- React rendering, JSX and CSS other than the tile-class and compact-grid rules. Plain typing into the title, slug, main-image and content fields (`form.setValue`) is not modelled.
- Messages the zod resolver would attach to fields beyond the first per field: the schema has one rule per field, so there is at most one.
- Under zod's default handling of undeclared keys, the validated data would carry no `images`. The model passes the submitted `images` through, as the actions' code reads it.
