/**
 Worked searches over small tables, stated as lemmas: the lower-cased
 query against display names that are, or are not, lower-case.
 */
module Scenarios {

  import opened Wrappers
  import opened AsciiText
  import opened Tags
  import opened TagSearch

  const PythonRow := TagRecord("python", true, 500, "https://stackshare.io/python")
  const PyTorchRow := TagRecord("pytorch", true, 80, "https://stackshare.io/pytorch")
  const JavaRow := TagRecord("java", true, 300, "https://stackshare.io/java")

  /** A table whose rows are all valid passes the mask unchanged. */
  lemma {:induction false} AllValidKept(rows: seq<TagRecord>)
    requires forall i :: 0 <= i < |rows| ==> rows[i].isValid
    ensures ValidRows(rows) == rows
  {
    if rows != [] {
      AllValidKept(rows[1..]);
    }
  }

  /** Three valid records are catalogued by descending count. */
  lemma CatalogOfThree(a: TagRecord, b: TagRecord, c: TagRecord)
    requires a.isValid && b.isValid && c.isValid
    requires a.count > c.count > b.count
    ensures BuildCatalog([a, b, c]) == [a, c, b]
  {
    AllValidKept([a, b, c]);
    SortThree(a, b, c);
  }

  /** Three records whose counts rank first, third and second are sorted into that order. */
  lemma SortThree(a: TagRecord, b: TagRecord, c: TagRecord)
    requires a.count > c.count > b.count
    ensures SortByCount([a, b, c]) == [a, c, b]
  {
    assert [a, b, c][1..] == [b, c];
    assert [b, c][1..] == [c];
    assert SortByCount([c]) == [c] by {
      assert [c][1..] == [];
    }
    assert Insert(b, [c]) == [c, b] by {
      assert [c][1..] == [];
    }
  }

  /** Which of the three display names contain the lower-cased query "Py". */
  lemma ExampleMatches()
    ensures Lower("Py") == "py"
    ensures Contains("python", "py") && Contains("pytorch", "py") && !Contains("java", "py")
  {
    assert "Py"[1..] == "y";
    assert "python"[..2] == "py";
    assert "pytorch"[..2] == "py";
    assert "java"[1..] == "ava";
    assert "ava"[1..] == "va";
    assert "va"[1..] == "a";
  }

  /** A lower-case word gets its first letter upper-cased and keeps the rest. */
  lemma TitleOfLowerWord(s: string)
    requires |s| > 0 && forall i :: 0 <= i < |s| ==> IsLower(s[i])
    ensures Title(s) == [ToUpperChar(s[0])] + s[1..]
  {
    var t := Title(s);
    assert t[0] == ToUpperChar(s[0]);
    forall i | 1 <= i < |s|
      ensures t[i] == s[i]
    {
      assert !StartsWord(s, i);
    }
    assert t == [t[0]] + t[1..];
  }

  /** The two labels the example shows. */
  lemma ExampleTitles()
    ensures Title("python") == "Python" && Title("pytorch") == "Pytorch"
  {
    TitleOfLowerWord("python");
    TitleOfLowerWord("pytorch");
    assert ToUpperChar('p') == 'P';
  }

  /** The hit mask of "py" over the example catalog. */
  lemma ExampleMask()
    ensures HitMask([PythonRow, JavaRow, PyTorchRow], "py") == [true, false, true]
  {
    ExampleMatches();
    var mask := HitMask([PythonRow, JavaRow, PyTorchRow], "py");
    assert mask[0] && !mask[1] && mask[2];
  }

  /** The flagged positions of a three-flag mask. */
  lemma PositionsOfMask(mask: seq<bool>)
    requires mask == [true, false, true]
    ensures SetPositionsFrom(mask, 0) == [0, 2]
  {
    assert SetPositionsFrom(mask, 3) == [];
    assert SetPositionsFrom(mask, 2) == [2];
    assert SetPositionsFrom(mask, 1) == [2];
  }

  /** "py" hits the first and third records of the example catalog. */
  lemma ExampleHitPositions()
    ensures HitPositions([PythonRow, JavaRow, PyTorchRow], "py") == [0, 2]
  {
    ExampleMask();
    PositionsOfMask(HitMask([PythonRow, JavaRow, PyTorchRow], "py"));
  }

  /** A query with exactly two hits lists those two records, in catalog order. */
  lemma TwoHitsListed(catalog: seq<TagRecord>, q: string, a: nat, b: nat)
    requires a < b < |catalog|
    requires HitPositions(catalog, Lower(q)) == [a, b]
    ensures SearchList(catalog, Some(q)) == [ToEntry(catalog[a]), ToEntry(catalog[b])]
  {
    var r := SearchList(catalog, Some(q));
    assert |r| == 2;
    assert r[0] == ToEntry(catalog[a]);
    assert r[1] == ToEntry(catalog[b]);
  }

  /**
   Lower-case display names are found by a query in any case and come back
   title-cased, most used first.
   */
  lemma PyFindsPythonThenPytorch()
    ensures SearchList(BuildCatalog([PythonRow, PyTorchRow, JavaRow]), Some("Py")) ==
              [("Python", Selection("Python", "https://stackshare.io/python")),
               ("Pytorch", Selection("Pytorch", "https://stackshare.io/pytorch"))]
  {
    CatalogOfThree(PythonRow, PyTorchRow, JavaRow);
    ExampleMatches();
    ExampleHitPositions();
    TwoHitsListed([PythonRow, JavaRow, PyTorchRow], "Py", 0, 2);
    ExampleTitles();
  }

  /**
   The stored display name is not lower-cased before the comparison: a
   capitalised name is not found even by its own spelling.
   */
  lemma CapitalisedNameNotFound()
    ensures var catalog := [TagRecord("Python", true, 500, "https://stackshare.io/python")];
            SearchList(catalog, Some("Python")) == []
  {
    var catalog := [TagRecord("Python", true, 500, "https://stackshare.io/python")];
    assert Lower("Python") == "python" by {
      assert Lower("Python")[0] == 'p';
    }
    assert !Contains("Python", "python") by {
      assert "Python"[..6][0] != "python"[0];
    }
    EmptyIffNoHit(catalog, "Python");
  }

}
