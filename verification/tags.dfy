/**
 The tag table and the catalog built from it once at start-up: the rows
 whose `is_valid` flag is set, ordered by descending `count`.
 */
module Tags {

  /** One row of the tag table, keeping the columns the search reads. */
  datatype TagRecord = TagRecord(
    displayName: string,
    isValid: bool,
    count: int,
    stackshareUrl: string)

  /** Counts never increase from one record to any later one. */
  predicate SortedByCount(s: seq<TagRecord>)
  {
    forall i, j :: 0 <= i < j < |s| ==> s[i].count >= s[j].count
  }

  /** `r` holds exactly the valid rows of `rows`, each as often as it occurs there. */
  ghost predicate HoldsValidRowsOf(r: seq<TagRecord>, rows: seq<TagRecord>)
  {
    forall x :: multiset(r)[x] == if x.isValid then multiset(rows)[x] else 0
  }

  /** Indexing a table by a boolean mask (`df[mask]`): the rows whose flag is set, in table order. */
  function Select<T>(rows: seq<T>, mask: seq<bool>): (r: seq<T>)
    requires |mask| == |rows|
    ensures multiset(r) <= multiset(rows)
  {
    if rows == [] then []
    else
      assert rows == [rows[0]] + rows[1..];
      var rest := Select(rows[1..], mask[1..]);
      if mask[0] then [rows[0]] + rest else rest
  }

  /** The boolean mask `is_valid == True`: the valid rows, in table order. */
  function ValidRows(rows: seq<TagRecord>): (r: seq<TagRecord>)
    ensures forall i :: 0 <= i < |r| ==> r[i].isValid
    ensures HoldsValidRowsOf(r, rows)
  {
    if rows == [] then []
    else
      assert rows == [rows[0]] + rows[1..];
      if rows[0].isValid then [rows[0]] + ValidRows(rows[1..]) else ValidRows(rows[1..])
  }

  /** Keeping the valid rows is indexing the table by its `is_valid` column. */
  lemma {:induction false} ValidRowsIsMaskSelect(rows: seq<TagRecord>)
    ensures ValidRows(rows) == Select(rows, seq(|rows|, i requires 0 <= i < |rows| => rows[i].isValid))
  {
    if rows != [] {
      var mask := seq(|rows|, i requires 0 <= i < |rows| => rows[i].isValid);
      var tail := rows[1..];
      ValidRowsIsMaskSelect(tail);
      assert mask[1..] == seq(|tail|, i requires 0 <= i < |tail| => tail[i].isValid);
    }
  }

  /** Dropping the head of a sorted sequence leaves it sorted. */
  lemma TailSorted(s: seq<TagRecord>)
    requires SortedByCount(s) && s != []
    ensures SortedByCount(s[1..])
  {
    var t := s[1..];
    forall i, j | 0 <= i < j < |t|
      ensures t[i].count >= t[j].count
    {
      assert t[i] == s[i + 1] && t[j] == s[j + 1];
    }
  }

  /** A record no smaller than the head of a sorted sequence can go in front of it. */
  lemma PrependKeepsSorted(a: TagRecord, s: seq<TagRecord>)
    requires SortedByCount(s)
    requires s != [] ==> a.count >= s[0].count
    ensures SortedByCount([a] + s)
  {
    forall i, j | 0 <= i < j < |s| + 1
      ensures ([a] + s)[i].count >= ([a] + s)[j].count
    {
      if i == 0 && j > 1 {
        assert s[0].count >= s[j - 1].count;
      }
    }
  }

  /** Places `x` in front of the first record whose count does not exceed its own. */
  function Insert(x: TagRecord, s: seq<TagRecord>): (r: seq<TagRecord>)
    requires SortedByCount(s)
    ensures SortedByCount(r)
    ensures multiset(r) == multiset(s) + multiset{x}
    ensures r[0] == x || r[0] == s[0]
  {
    if s == [] || x.count >= s[0].count then [x] + s
    else
      assert s == [s[0]] + s[1..];
      TailSorted(s);
      var rest := Insert(x, s[1..]);
      assert rest[0] == x || rest[0] == s[1];
      PrependKeepsSorted(s[0], rest);
      [s[0]] + rest
  }

  /** Orders records by descending count (`sort_values(by=['count'], ascending=False)`). */
  function SortByCount(s: seq<TagRecord>): (r: seq<TagRecord>)
    ensures SortedByCount(r)
    ensures multiset(r) == multiset(s)
  {
    if s == [] then []
    else
      assert s == [s[0]] + s[1..];
      Insert(s[0], SortByCount(s[1..]))
  }

  /**
   The catalog: the valid rows, none lost and none added, ordered by
   non-increasing count.
   */
  function BuildCatalog(rows: seq<TagRecord>): (catalog: seq<TagRecord>)
    ensures SortedByCount(catalog)
    ensures HoldsValidRowsOf(catalog, rows)
    ensures forall i :: 0 <= i < |catalog| ==> catalog[i].isValid
  {
    var valid := ValidRows(rows);
    var catalog := SortByCount(valid);
    assert forall i :: 0 <= i < |catalog| ==> catalog[i] in multiset(valid);
    catalog
  }

  /** A record of the catalog is a valid row of the table, and every valid row made it in. */
  lemma CatalogMembership(rows: seq<TagRecord>, x: TagRecord)
    ensures x in BuildCatalog(rows) <==> x in rows && x.isValid
  {
    var catalog := BuildCatalog(rows);
    assert multiset(catalog)[x] == if x.isValid then multiset(rows)[x] else 0;
  }

}
