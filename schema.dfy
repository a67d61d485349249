/**
 * The `news` table of `src/db/schema.ts`: the row type and the constraints
 * the table declares (serial primary key, unique slug, varchar(255) columns,
 * `published_at` defaulting to the insertion time).
 */
module Schema {

  /** The declared width of the varchar columns. */
  const VarcharLength: nat := 255

  /**
   * One stored article. `images` is read and written by the actions although
   * the table declaration does not list it.
   */
  datatype NewsRow = NewsRow(
    id: int,
    slug: string,
    title: string,
    mainImage: string,
    content: string,
    images: seq<string>,
    publishedAt: int)

  /** The varchar(255) columns hold their values; `content` is unbounded text. */
  predicate FitsColumns(row: NewsRow)
  {
    |row.slug| <= VarcharLength && |row.title| <= VarcharLength && |row.mainImage| <= VarcharLength
  }

  /** `slug` is `unique()`. */
  predicate SlugsUnique(rows: seq<NewsRow>)
  {
    forall i, j :: 0 <= i < j < |rows| ==> rows[i].slug != rows[j].slug
  }

  /** `id` is the primary key. */
  predicate IdsUnique(rows: seq<NewsRow>)
  {
    forall i, j :: 0 <= i < j < |rows| ==> rows[i].id != rows[j].id
  }

  /** Rows kept in insertion order carry strictly increasing insertion times. */
  predicate OldestFirst(rows: seq<NewsRow>)
  {
    forall i, j :: 0 <= i < j < |rows| ==> rows[i].publishedAt < rows[j].publishedAt
  }

  /** Everything the table declares about its rows. */
  predicate TableInvariant(rows: seq<NewsRow>)
  {
    SlugsUnique(rows) && IdsUnique(rows) && OldestFirst(rows) &&
    forall i :: 0 <= i < |rows| ==> FitsColumns(rows[i])
  }

  /** SQL `WHERE keep(row)`: the rows that satisfy `keep`, in stored order. */
  function Where(rows: seq<NewsRow>, keep: NewsRow -> bool): (kept: seq<NewsRow>)
    ensures |kept| <= |rows|
    ensures forall r :: r in kept <==> r in rows && keep(r)
    ensures (forall i :: 0 <= i < |rows| ==> keep(rows[i])) ==> kept == rows
  {
    if rows == [] then []
    else
      var rest := Where(rows[1..], keep);
      if keep(rows[0]) then [rows[0]] + rest else rest
  }

  /** Filtering a table keeps every constraint it declares. */
  lemma {:induction false} WhereKeepsInvariant(rows: seq<NewsRow>, keep: NewsRow -> bool)
    requires TableInvariant(rows)
    ensures TableInvariant(Where(rows, keep))
  {
    if rows != [] {
      WhereKeepsInvariant(rows[1..], keep);
      if keep(rows[0]) {
        PrependKeepsInvariant(rows, Where(rows[1..], keep));
      }
    }
  }

  /** Inserting a row that fits, with a fresh slug and a larger id and time than every stored row, keeps the invariant. */
  lemma AppendKeepsInvariant(rows: seq<NewsRow>, row: NewsRow)
    requires TableInvariant(rows) && FitsColumns(row)
    requires forall k :: 0 <= k < |rows| ==>
               rows[k].slug != row.slug && rows[k].id < row.id && rows[k].publishedAt < row.publishedAt
    ensures TableInvariant(rows + [row])
  {
    var t := rows + [row];
    forall i, j | 0 <= i < j < |t|
      ensures t[i].slug != t[j].slug && t[i].id != t[j].id && t[i].publishedAt < t[j].publishedAt
    {
      if j < |rows| {
        assert t[i] == rows[i] && t[j] == rows[j];
      } else {
        assert t[i] == rows[i] && t[j] == row;
      }
    }
  }

  /** Putting a table's first row back in front of rows drawn from the rest keeps the invariant. */
  lemma PrependKeepsInvariant(rows: seq<NewsRow>, rest: seq<NewsRow>)
    requires rows != [] && TableInvariant(rows) && TableInvariant(rest)
    requires forall r :: r in rest ==> r in rows[1..]
    ensures TableInvariant([rows[0]] + rest)
  {
    var t := [rows[0]] + rest;
    forall j | 0 < j < |t|
      ensures rows[0].slug != t[j].slug && rows[0].id != t[j].id
      ensures rows[0].publishedAt < t[j].publishedAt
    {
      assert t[j] in rows[1..];
      var k :| 0 <= k < |rows[1..]| && rows[1..][k] == t[j];
      assert rows[k + 1] == t[j];
    }
  }
}
