# Tech-term tag search, modelled in Dafny

This project models the tag lookup behind a small search box for technology
terms. The tag table is a snapshot of a Q&A site's tag metadata. It has one row
per tag, and each row carries a `display_name`, an `is_valid` flag, a usage
`count` and a `stackshare_url` link. At start-up the table becomes the
**catalog**. The catalog keeps only the valid rows and orders them by
descending count. On every keystroke, `search_list` turns the typed query into
at most ten suggestions. Each suggestion is a pair: a label, and a selection
holding a `name` and a `url`.

The model has five modules:

- `Wrappers` (`wrappers.dfy`): the `Option` type. A missing query is `None`.
- `AsciiText` (`ascii_text.dfy`): `str.lower`, `str.title` and literal
  substring containment, over ASCII letters.
- `Tags` (`tags.dfy`): the `TagRecord` row and `BuildCatalog`. `BuildCatalog`
  is the `is_valid` mask followed by a sort on descending count.
- `TagSearch` (`tag_search.dfy`): `Hits` returns the records a query reports.
  `SearchList` is `search_list` itself. The lemmas state the bound, order,
  prefix and validity properties.
- `Scenarios` (`scenarios.dfy`): worked searches on small tables, stated as
  lemmas.

Every operation is a pure function over `seq`. `HitPositions` describes the
same search a second way, as the increasing list of catalog positions whose
record is a hit. The contracts of `Hits` and `SearchList` say that the k-th
result comes from the k-th hit position. They also say the result has
`min(10, number of hits)` entries. Together with the three `Positions*`
lemmas, this pins down which records come back and in what order.

Three behaviours of the code are easy to miss, and the model follows the
code in each:

- The search is not fully case-insensitive. The query is lower-cased, but
  the stored display name is not (search_tags.py:15-16), so matching is
  case-sensitive on the record side. `Scenarios.CapitalisedNameNotFound`
  shows a capitalised name that is not found even when the query is its own
  spelling. For a display name with no upper-case letter, a hit is exactly a
  case-insensitive hit (`TagSearch.CaseInsensitiveForLowerNames`); the
  `.title()` call at search_tags.py:19 is what gives such names their
  capitals in the list (`Scenarios.PyFindsPythonThenPytorch`).
- Unlike `None` (search_tags.py:13-14), the empty query `""` gives the first
  ten catalog records, not an empty list, because the empty string occurs in
  every name (`TagSearch.EmptyQueryListsFirstTen`).
- The sort is not stable: pandas' default `sort_values` may reorder records
  with equal counts. Only the order by count and the fact that no row is
  lost or added are stated.

## Model

| member | source | states |
|---|---|---|
| AsciiText.ToLowerChar | search_tags.py:16 | the per-character map of `str.lower`: its result is never an upper-case letter, it is a letter exactly when the input is, and every character that is not an upper-case letter is kept |
| AsciiText.ToUpperChar | search_tags.py:19 | the per-character upper-casing `str.title` applies to word starts: its result is never a lower-case letter, it is a letter exactly when the input is, and every character that is not a lower-case letter is kept |
| AsciiText.Lower | search_tags.py:16 | lower-casing keeps the length and maps each character to its lower-case form, so no upper-case letter remains |
| AsciiText.LowerIsIdempotent | search_tags.py:16 | a lower-cased query has no upper-case letter, and lower-casing it again changes nothing |
| AsciiText.TitleFrom | search_tags.py:19 | the title-casing scan upper-cases a letter exactly when the character before it, or the carried-in state at the start, is not a letter; every other letter is lower-cased |
| AsciiText.Title | search_tags.py:19-21 | `str.title` upper-cases exactly the first letter of every run of letters, lower-cases the other letters and keeps the length |
| AsciiText.TitleKeepsWordStarts | search_tags.py:19-21 | title-casing keeps which characters are letters, so the word starts stay in place |
| AsciiText.TitleIsIdempotent | search_tags.py:19-21 | a title-cased label is unchanged by title-casing it again |
| AsciiText.LowerOfTitle | search_tags.py:19-21 | title-casing only changes the case of letters: lower-casing the label gives the lower-cased display name |
| AsciiText.ContainsIffOccurs | search_tags.py:15-16 | the containment scan `Contains`, the literal stand-in for `str.contains`, succeeds exactly when the pattern occurs at some index of the text (both directions) |
| AsciiText.ContainsEmpty | search_tags.py:15-16 | the empty pattern is contained in every display name |
| AsciiText.LowerOfSlice | search_tags.py:16 | lower-casing commutes with taking a slice |
| AsciiText.LowerKeepsOccurrence | search_tags.py:15-16 | an occurrence of a pattern with no upper-case letter survives lower-casing the text |
| Tags.Select | search_tags.py:15 | indexing a table by a boolean mask, as line 15 and also line 7 do, keeps only rows of the table, none more often than it occurs there; that it keeps exactly the flagged rows, in table order, is `TagSearch.SelectAtSetPositions` |
| Tags.ValidRowsIsMaskSelect | search_tags.py:7 | keeping the valid rows is the same as indexing the table by its `is_valid` column |
| Tags.ValidRows | search_tags.py:7-8 | the `is_valid == True` mask keeps only valid rows, and it keeps each valid row exactly as often as it occurs in the table |
| Tags.Insert | search_tags.py:7-8 | inserting into a list sorted by descending count keeps it sorted and adds exactly that one record |
| Tags.SortByCount | search_tags.py:7-8 | the sort result is ordered by non-increasing count and is a permutation of its input |
| Tags.BuildCatalog | search_tags.py:6-9 | the catalog is ordered by non-increasing count, holds exactly the valid rows with none lost or added, and holds no invalid record |
| Tags.CatalogMembership | search_tags.py:7-8 | a record is in the catalog if and only if it is a valid row of the table |
| TagSearch.PositionsInRange | search_tags.py:15-16 | every listed hit position is in range and has its mask flag set |
| TagSearch.PositionsIncrease | search_tags.py:15-16 | hit positions are listed in strictly increasing (catalog) order |
| TagSearch.PositionsComplete | search_tags.py:15-16 | every flagged position is listed |
| TagSearch.HitPositions | search_tags.py:15-16 | the positions flagged by the `str.contains` mask `HitMask`: lists, in increasing order, exactly the catalog positions whose display name contains the needle |
| TagSearch.SelectAtSetPositions | search_tags.py:15-16 | indexing the catalog by the boolean mask yields the records at the hit positions, in order, and nothing else |
| TagSearch.Hits | search_tags.py:13-16 | `None` reports nothing; otherwise the result has min(10, number of hits) records, and the k-th is the record at the k-th hit position |
| TagSearch.ToEntry | search_tags.py:18-23 | the suggestion a record becomes presents it: its label is the title-cased display name, the selection's `name` equals the label, and its `url` is the record's `stackshare_url` |
| TagSearch.SearchList | search_tags.py:12-26 | `None` gives `[]`; there are never more than 10 entries; entry k, built by `ToEntry`, presents the record at the k-th hit position: its label is the title-cased display name, the selection's `name` equals the label, and its `url` is the record's `stackshare_url` |
| TagSearch.EmptyIffNoHit | search_tags.py:17-26 | the result is empty if and only if no catalog record's display name contains the lower-cased query |
| TagSearch.NoHitSkipped | search_tags.py:15-16 | a hit that is not reported comes after ten reported hits that filled the list, so no earlier hit is skipped in favour of a later one |
| TagSearch.HitsAreCatalogHits | search_tags.py:15-16 | every reported record is in the catalog, and its display name contains the lower-cased query |
| TagSearch.HitsKeepCountOrder | search_tags.py:7-16 | over a catalog sorted by count, the reported records have non-increasing counts |
| TagSearch.HitsFromCatalogAreValidRows | search_tags.py:7-16 | over the built catalog, every reported record is a valid row of the table, so no invalid row is ever suggested |
| TagSearch.AllPositionsSet | search_tags.py:15-16 | when every record is a hit, the hit positions are 0, 1, 2, ... |
| TagSearch.EmptyQueryListsFirstTen | search_tags.py:13-16 | the query `""` reports the first ten catalog records rather than nothing |
| TagSearch.LowerKeepsLowerOccurrence | search_tags.py:15-16 | a display name that contains the lower-cased query still contains it once the name is lower-cased |
| TagSearch.CaseInsensitiveForLowerNames | search_tags.py:15-16 | every hit is also a hit when both the name and the query are lower-cased, and for a display name with no upper-case letter the converse holds too |
| TagSearch.LabelsMatchQuery | search_tags.py:15-21 | every label is already title-cased, and lower-cased it contains the lower-cased query |
| Scenarios.SortThree | search_tags.py:7-8 | three records ranked first, third and second by count are sorted into that order |
| Scenarios.CatalogOfThree | search_tags.py:6-9 | three valid rows are catalogued by descending count |
| Scenarios.TwoHitsListed | search_tags.py:15-26 | a query with exactly two hits lists those two records in catalog order |
| Scenarios.PyFindsPythonThenPytorch | search_tags.py:6-26 | over the rows python (500), pytorch (80) and java (300), the query "Py" returns Python, then Pytorch, with their links |
| Scenarios.CapitalisedNameNotFound | search_tags.py:15-16 | a record stored as "Python" is not found by the query "Python", because only the query is lower-cased |

## Left out

- Reading the CSV file with pandas (search_tags.py:6). The table is an input
  sequence of `TagRecord` values.
- The `astype(str)` conversion of `display_name` (search_tags.py:9). Display
  names are strings from the start, so a missing name that pandas would
  render as `"nan"` is not modelled.
- Only the four columns the search reads are modelled. The table's other
  columns are left out.
- Missing or non-integer `count` values, and pandas' placement of them, are
  left out. `count` is an unbounded integer.
- An `is_valid` column holding something other than booleans is left out.
  `isValid` is a `bool`.
- The Streamlit UI is left out: the title, the `st_searchbox` wiring, the
  markdown link shown after a selection and the footer HTML
  (search_tags.py:29-58). These are UI and foreign calls. `SearchList`
  returns the selection value that the link would show.
- Regular-expression matching is left out. `str.contains` reads its argument
  as a regular expression by default (search_tags.py:15-16). The model
  matches the query as a literal substring, so a query with metacharacters
  such as `.net` is matched character for character.
- The `re.error` path is left out. A query that is not a valid regular
  expression, such as `(`, `[`, `*`, `?` or a trailing `\`, makes
  `search_list` raise an error instead of returning a list. `SearchList`
  returns the literal-substring result for these queries. `c++` is such an
  invalid pattern before Python 3.11. From Python 3.11 on it is valid and
  matches every name containing `c`, while the model looks for the literal
  text `c++`.
- Python's full Unicode `str.lower` and `str.title` are left out. Only the
  ASCII letters are cased here. Every other character counts as uncased and is
  left unchanged.
- Tags.SortByCount: does not fix the order of records with equal counts,
  because pandas' default `sort_values` is not stable. Only the order by
  count and the permutation are stated.
- Tags.BuildCatalog: states the order by count and the multiset of valid rows
  but not the tie order, for the same reason.
