/**
 `search_list`: the live query of the search box against the catalog.
 The query is lower-cased, the stored display names are not, so a record
 is found only when its display name literally contains the lower-cased
 query. The first ten such records, in catalog order, become
 (label, selection) pairs labelled with the title-cased display name.

 `search_list` passes the query to `str.contains`, which reads it as a
 regular expression; here it is a literal substring. Queries holding
 regular-expression metacharacters are matched character for character,
 and a query that is not a valid pattern, on which `search_list` raises an
 error, is searched for literally instead.
 */
module TagSearch {

  import opened Wrappers
  import opened AsciiText
  import opened Tags

  /** Most entries the suggestion list shows (`head(10)`). */
  const Limit: nat := 10

  /** The `{name, url}` value handed back when a suggestion is picked. */
  datatype Selection = Selection(name: string, url: string)

  /** One suggestion: the label shown in the list and the value it selects. */
  type Entry = (string, Selection)

  function Min(a: nat, b: nat): (m: nat) { if a <= b then a else b }

  /** A record is a hit for an already lower-cased needle. */
  predicate IsHit(rec: TagRecord, needle: string)
  {
    Contains(rec.displayName, needle)
  }

  /** The boolean mask `display_name.str.contains(needle)`, one flag per catalog record. */
  function HitMask(catalog: seq<TagRecord>, needle: string): (mask: seq<bool>)
  {
    seq(|catalog|, i requires 0 <= i < |catalog| => IsHit(catalog[i], needle))
  }

  /** The positions, from `lo` on, whose flag is set, in increasing order. */
  function SetPositionsFrom(mask: seq<bool>, lo: nat): (idx: seq<nat>)
    requires lo <= |mask|
    decreases |mask| - lo
  {
    if lo == |mask| then []
    else if mask[lo] then [lo] + SetPositionsFrom(mask, lo + 1)
    else SetPositionsFrom(mask, lo + 1)
  }

  /** Every listed position is flagged and lies between `lo` and the end of the mask. */
  lemma {:induction false} PositionsInRange(mask: seq<bool>, lo: nat)
    requires lo <= |mask|
    ensures forall k :: 0 <= k < |SetPositionsFrom(mask, lo)| ==>
              lo <= SetPositionsFrom(mask, lo)[k] < |mask| && mask[SetPositionsFrom(mask, lo)[k]]
    decreases |mask| - lo
  {
    if lo < |mask| {
      PositionsInRange(mask, lo + 1);
      var rest := SetPositionsFrom(mask, lo + 1);
      if mask[lo] {
        var r := [lo] + rest;
        assert SetPositionsFrom(mask, lo) == r;
        assert forall k :: 1 <= k < |r| ==> r[k] == rest[k - 1];
      } else {
        assert SetPositionsFrom(mask, lo) == rest;
      }
    }
  }

  /** The positions are listed in strictly increasing order, so each appears once. */
  lemma {:induction false} PositionsIncrease(mask: seq<bool>, lo: nat)
    requires lo <= |mask|
    ensures forall k, l :: 0 <= k < l < |SetPositionsFrom(mask, lo)| ==>
              SetPositionsFrom(mask, lo)[k] < SetPositionsFrom(mask, lo)[l]
    decreases |mask| - lo
  {
    if lo < |mask| && mask[lo] {
      PositionsIncrease(mask, lo + 1);
      PositionsInRange(mask, lo + 1);
      var rest := SetPositionsFrom(mask, lo + 1);
      var r := [lo] + rest;
      assert SetPositionsFrom(mask, lo) == r;
      forall k, l | 0 <= k < l < |r|
        ensures r[k] < r[l]
      {
        assert r[l] == rest[l - 1];
        if k > 0 {
          assert r[k] == rest[k - 1];
        }
      }
    } else if lo < |mask| {
      PositionsIncrease(mask, lo + 1);
      assert SetPositionsFrom(mask, lo) == SetPositionsFrom(mask, lo + 1);
    }
  }

  /** Every flagged position from `lo` on is listed. */
  lemma {:induction false} PositionsComplete(mask: seq<bool>, lo: nat)
    requires lo <= |mask|
    ensures forall j :: lo <= j < |mask| && mask[j] ==> j in SetPositionsFrom(mask, lo)
    decreases |mask| - lo
  {
    if lo < |mask| {
      PositionsComplete(mask, lo + 1);
      var rest := SetPositionsFrom(mask, lo + 1);
      if mask[lo] {
        assert SetPositionsFrom(mask, lo) == [lo] + rest;
      } else {
        assert SetPositionsFrom(mask, lo) == rest;
      }
    }
  }

  /** The positions of all hits in the catalog, in increasing order. */
  function HitPositions(catalog: seq<TagRecord>, needle: string): (idx: seq<nat>)
    ensures forall k :: 0 <= k < |idx| ==> idx[k] < |catalog| && IsHit(catalog[idx[k]], needle)
    ensures forall k, l :: 0 <= k < l < |idx| ==> idx[k] < idx[l]
    ensures forall j :: 0 <= j < |catalog| && IsHit(catalog[j], needle) ==> j in idx
  {
    PositionsInRange(HitMask(catalog, needle), 0);
    PositionsIncrease(HitMask(catalog, needle), 0);
    PositionsComplete(HitMask(catalog, needle), 0);
    SetPositionsFrom(HitMask(catalog, needle), 0)
  }

  /** Selecting from position `lo` on: the row at `lo` if its flag is set, then the rest. */
  lemma SelectStep<T>(rows: seq<T>, mask: seq<bool>, lo: nat)
    requires |mask| == |rows| && lo < |rows|
    ensures Select(rows[lo..], mask[lo..]) ==
            (if mask[lo] then [rows[lo]] else []) + Select(rows[lo + 1..], mask[lo + 1..])
  {
    assert rows[lo..][1..] == rows[lo + 1..];
    assert mask[lo..][1..] == mask[lo + 1..];
  }

  /** `f` holds, in order, the rows of `rows` at the first `|f|` positions of `idx`. */
  ghost predicate PickedAt<T>(f: seq<T>, rows: seq<T>, idx: seq<nat>)
  {
    |f| <= |idx| && forall k :: 0 <= k < |f| ==> idx[k] < |rows| && f[k] == rows[idx[k]]
  }

  /** Putting row `p` in front of rows picked at positions `idx` picks them at `[p] + idx`. */
  lemma PrependPosition<T>(rows: seq<T>, f: seq<T>, idx: seq<nat>, p: nat)
    requires p < |rows| && |f| == |idx| && PickedAt(f, rows, idx)
    ensures PickedAt([rows[p]] + f, rows, [p] + idx)
  {
    var g := [rows[p]] + f;
    var jdx := [p] + idx;
    forall k | 1 <= k < |g|
      ensures jdx[k] < |rows| && g[k] == rows[jdx[k]]
    {
      assert g[k] == f[k - 1] && jdx[k] == idx[k - 1];
    }
  }

  /** Selecting by a mask keeps exactly the rows at the set positions, in order. */
  lemma {:induction false} SelectAtSetPositions<T>(rows: seq<T>, mask: seq<bool>, lo: nat)
    requires |mask| == |rows| && lo <= |rows|
    ensures |Select(rows[lo..], mask[lo..])| == |SetPositionsFrom(mask, lo)|
    ensures PickedAt(Select(rows[lo..], mask[lo..]), rows, SetPositionsFrom(mask, lo))
    decreases |rows| - lo
  {
    if lo < |rows| {
      SelectAtSetPositions(rows, mask, lo + 1);
      SelectStep(rows, mask, lo);
      var idx' := SetPositionsFrom(mask, lo + 1);
      var f' := Select(rows[lo + 1..], mask[lo + 1..]);
      var f := Select(rows[lo..], mask[lo..]);
      var idx := SetPositionsFrom(mask, lo);
      if mask[lo] {
        assert idx == [lo] + idx';
        assert f == [rows[lo]] + f';
        PrependPosition(rows, f', idx', lo);
      } else {
        assert f == f' && idx == idx';
      }
    } else {
      assert SetPositionsFrom(mask, lo) == [];
    }
  }

  /**
   The records `search_list` reports for a query: nothing for `None`,
   otherwise the records at the first ten hit positions, in catalog order.
   */
  function Hits(catalog: seq<TagRecord>, query: Option<string>): (r: seq<TagRecord>)
    ensures query.None? ==> r == []
    ensures query.Some? ==> |r| == Min(Limit, |HitPositions(catalog, Lower(query.value))|)
    ensures query.Some? ==> PickedAt(r, catalog, HitPositions(catalog, Lower(query.value)))
  {
    match query
    case None => []
    case Some(q) =>
      var mask := HitMask(catalog, Lower(q));
      var f := Select(catalog, mask);
      SelectAtSetPositions(catalog, mask, 0);
      assert catalog[0..] == catalog && mask[0..] == mask;
      f[..Min(Limit, |f|)]
  }

  /**
   Suggestion `e` presents record `rec`: the label is the title-cased
   display name, and picking it yields that same name with the record's link.
   */
  predicate Presents(e: Entry, rec: TagRecord)
  {
    e.0 == Title(rec.displayName) && e.1.name == e.0 && e.1.url == rec.stackshareUrl
  }

  /** The suggestion a record becomes: its title-cased name, and the name with its link. */
  function ToEntry(rec: TagRecord): (e: Entry)
    ensures Presents(e, rec)
  {
    (Title(rec.displayName), Selection(Title(rec.displayName), rec.stackshareUrl))
  }

  /**
   `search_list`: nothing for `None`; otherwise one suggestion for each of
   the first ten hit positions of the catalog, in order, presenting the
   record found there.
   */
  function SearchList(catalog: seq<TagRecord>, query: Option<string>): (r: seq<Entry>)
    ensures query.None? ==> r == []
    ensures |r| <= Limit
    ensures query.Some? ==> |r| == Min(Limit, |HitPositions(catalog, Lower(query.value))|)
    ensures query.Some? ==>
              forall k :: 0 <= k < |r| ==>
                HitPositions(catalog, Lower(query.value))[k] < |catalog| &&
                Presents(r[k], catalog[HitPositions(catalog, Lower(query.value))[k]])
  {
    if query.None? then []
    else
      var hits := Hits(catalog, query);
      if |hits| > 0 then seq(|hits|, k requires 0 <= k < |hits| => ToEntry(hits[k]))
      else []
  }

  /** A query finds nothing exactly when no catalog record is a hit for it. */
  lemma EmptyIffNoHit(catalog: seq<TagRecord>, q: string)
    ensures SearchList(catalog, Some(q)) == [] <==>
            forall i :: 0 <= i < |catalog| ==> !IsHit(catalog[i], Lower(q))
  {
    var idx := HitPositions(catalog, Lower(q));
    if exists i :: 0 <= i < |catalog| && IsHit(catalog[i], Lower(q)) {
      var i :| 0 <= i < |catalog| && IsHit(catalog[i], Lower(q));
      assert i in idx;
    }
  }

  /**
   No hit is passed over in favour of a later one: a hit the search does
   not report comes after ten reported hits that filled the list.
   */
  lemma NoHitSkipped(catalog: seq<TagRecord>, q: string, j: nat)
    requires j < |catalog| && IsHit(catalog[j], Lower(q))
    ensures j in HitPositions(catalog, Lower(q))[..|Hits(catalog, Some(q))|] ||
            (|Hits(catalog, Some(q))| == Limit &&
             forall k :: 0 <= k < Limit ==> HitPositions(catalog, Lower(q))[k] < j)
  {
    var idx := HitPositions(catalog, Lower(q));
    var n := |Hits(catalog, Some(q))|;
    assert j in idx;
    var m :| 0 <= m < |idx| && idx[m] == j;
    if m < n {
      assert idx[..n][m] == j;
    } else {
      assert n == Limit;
      forall k | 0 <= k < n
        ensures idx[k] < j
      {
        assert k < m;
      }
    }
  }

  /**
   Every reported record sits in the catalog and its display name contains
   the lower-cased query.
   */
  lemma HitsAreCatalogHits(catalog: seq<TagRecord>, q: string)
    ensures forall rec :: rec in Hits(catalog, Some(q)) ==> rec in catalog && IsHit(rec, Lower(q))
  {
    var hits := Hits(catalog, Some(q));
    var idx := HitPositions(catalog, Lower(q));
    forall rec | rec in hits
      ensures rec in catalog && IsHit(rec, Lower(q))
    {
      var k :| 0 <= k < |hits| && hits[k] == rec;
      assert rec == catalog[idx[k]];
    }
  }

  /** Over a catalog sorted by count, the reported counts never increase. */
  lemma HitsKeepCountOrder(catalog: seq<TagRecord>, q: string)
    requires SortedByCount(catalog)
    ensures SortedByCount(Hits(catalog, Some(q)))
  {
    var hits := Hits(catalog, Some(q));
    var idx := HitPositions(catalog, Lower(q));
    forall k, l | 0 <= k < l < |hits|
      ensures hits[k].count >= hits[l].count
    {
      assert hits[k] == catalog[idx[k]] && hits[l] == catalog[idx[l]];
      assert idx[k] < idx[l];
    }
  }

  /**
   Over a catalog built from a table, every reported record is a valid row
   of that table, so an invalid row never reaches the suggestions.
   */
  lemma HitsFromCatalogAreValidRows(rows: seq<TagRecord>, q: string)
    ensures forall rec :: rec in Hits(BuildCatalog(rows), Some(q)) ==> rec.isValid && rec in rows
  {
    var catalog := BuildCatalog(rows);
    HitsAreCatalogHits(catalog, q);
    forall rec | rec in Hits(catalog, Some(q))
      ensures rec.isValid && rec in rows
    {
      CatalogMembership(rows, rec);
    }
  }

  /** With every flag set, the set positions are simply `lo`, `lo + 1`, ... */
  lemma {:induction false} AllPositionsSet(mask: seq<bool>, lo: nat)
    requires lo <= |mask|
    requires forall i :: 0 <= i < |mask| ==> mask[i]
    ensures SetPositionsFrom(mask, lo) == seq(|mask| - lo, k requires 0 <= k < |mask| - lo => lo + k)
    decreases |mask| - lo
  {
    if lo < |mask| {
      AllPositionsSet(mask, lo + 1);
      assert mask[lo];
      assert seq(|mask| - lo, k requires 0 <= k < |mask| - lo => lo + k) ==
             [lo] + seq(|mask| - (lo + 1), k requires 0 <= k < |mask| - (lo + 1) => lo + 1 + k);
    }
  }

  /**
   The empty query is contained in every display name, so it lists the
   first ten catalog records rather than nothing.
   */
  lemma EmptyQueryListsFirstTen(catalog: seq<TagRecord>)
    ensures Hits(catalog, Some("")) == catalog[..Min(Limit, |catalog|)]
  {
    var mask := HitMask(catalog, Lower(""));
    forall i | 0 <= i < |catalog|
      ensures mask[i]
    {
      ContainsEmpty(catalog[i].displayName);
    }
    AllPositionsSet(mask, 0);
  }

  /**
   Lower-casing both sides keeps an occurrence of an already lower-case
   pattern: a display name containing the lower-cased query still contains
   it after lower-casing.
   */
  lemma LowerKeepsLowerOccurrence(s: string, q: string)
    requires Contains(s, Lower(q))
    ensures Contains(Lower(s), Lower(q))
  {
    var p := Lower(q);
    ContainsIffOccurs(s, p);
    var i :| OccursAt(s, p, i);
    LowerIsIdempotent(q);
    LowerKeepsOccurrence(s, p, i);
    ContainsIffOccurs(Lower(s), p);
  }

  /**
   The search is case-insensitive on the record side only for display
   names with no upper-case letter: every hit is also a case-insensitive
   hit, and for such names the two notions agree.
   */
  lemma CaseInsensitiveForLowerNames(rec: TagRecord, q: string)
    ensures IsHit(rec, Lower(q)) ==> Contains(Lower(rec.displayName), Lower(q))
    ensures Lower(rec.displayName) == rec.displayName ==>
              (IsHit(rec, Lower(q)) <==> Contains(Lower(rec.displayName), Lower(q)))
  {
    if IsHit(rec, Lower(q)) {
      LowerKeepsLowerOccurrence(rec.displayName, q);
    }
  }

  /**
   Every label is already in title case, and read case-insensitively it
   contains the query: the case-insensitive promise holds for what is shown.
   */
  lemma LabelsMatchQuery(catalog: seq<TagRecord>, q: string)
    ensures forall k :: 0 <= k < |SearchList(catalog, Some(q))| ==>
              Title(SearchList(catalog, Some(q))[k].0) == SearchList(catalog, Some(q))[k].0 &&
              Contains(Lower(SearchList(catalog, Some(q))[k].0), Lower(q))
  {
    var r := SearchList(catalog, Some(q));
    var idx := HitPositions(catalog, Lower(q));
    forall k | 0 <= k < |r|
      ensures Title(r[k].0) == r[k].0 && Contains(Lower(r[k].0), Lower(q))
    {
      var d := catalog[idx[k]].displayName;
      assert r[k].0 == Title(d);
      TitleIsIdempotent(d);
      LowerOfTitle(d);
      LowerKeepsLowerOccurrence(d, q);
    }
  }

}
