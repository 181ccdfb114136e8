/**
 String helpers the tag search relies on: Python's `str.lower`, `str.title`
 and literal substring containment, restricted to ASCII letters. Every
 character outside `A`-`Z` and `a`-`z` is treated as uncased and is left
 unchanged by both case mappings.
 */
module AsciiText {

  predicate IsUpper(c: char) { 'A' <= c <= 'Z' }

  predicate IsLower(c: char) { 'a' <= c <= 'z' }

  /** A character that has an upper- and a lower-case form. */
  predicate IsCased(c: char) { IsUpper(c) || IsLower(c) }

  function ToLowerChar(c: char): (d: char)
    ensures !IsUpper(d)
    ensures IsCased(d) == IsCased(c)
    ensures !IsUpper(c) ==> d == c
  {
    if IsUpper(c) then (c as int + 32) as char else c
  }

  function ToUpperChar(c: char): (d: char)
    ensures !IsLower(d)
    ensures IsCased(d) == IsCased(c)
    ensures !IsLower(c) ==> d == c
  {
    if IsLower(c) then (c as int - 32) as char else c
  }

  /** Both case mappings of a cased character agree up to case. */
  lemma CaseMappingsAgree(c: char)
    ensures ToLowerChar(ToUpperChar(c)) == ToLowerChar(c)
    ensures ToUpperChar(ToLowerChar(c)) == ToUpperChar(c)
    ensures ToLowerChar(ToLowerChar(c)) == ToLowerChar(c)
    ensures ToUpperChar(ToUpperChar(c)) == ToUpperChar(c)
  {
  }

  /** `str.lower`: every character mapped to its lower-case form. */
  function Lower(s: string): (r: string)
    ensures |r| == |s|
    ensures forall i :: 0 <= i < |s| ==> r[i] == ToLowerChar(s[i])
  {
    if s == [] then [] else [ToLowerChar(s[0])] + Lower(s[1..])
  }

  /** A lower-cased string has no upper-case letter left, and lowering it again changes nothing. */
  lemma LowerIsIdempotent(s: string)
    ensures forall i :: 0 <= i < |Lower(s)| ==> !IsUpper(Lower(s)[i])
    ensures Lower(Lower(s)) == Lower(s)
  {
    forall i | 0 <= i < |s|
      ensures Lower(Lower(s))[i] == Lower(s)[i]
    {
      CaseMappingsAgree(s[i]);
    }
  }

  /**
   Position `i` of `s` holds the first letter of a run of cased characters,
   where `afterCased` says whether the text before `s` ended in a cased one.
   */
  predicate StartsWordAfter(s: string, i: int, afterCased: bool)
    requires 0 <= i < |s|
  {
    IsCased(s[i]) && (if i == 0 then !afterCased else !IsCased(s[i - 1]))
  }

  /** Lower-casing works character by character, so it commutes with slicing. */
  lemma LowerOfSlice(s: string, i: int, j: int)
    requires 0 <= i <= j <= |s|
    ensures Lower(s)[i..j] == Lower(s[i..j])
  {
    var a := Lower(s)[i..j];
    var b := Lower(s[i..j]);
    assert |a| == |b|;
    forall m | 0 <= m < j - i
      ensures a[m] == b[m]
    {
      assert a[m] == Lower(s)[i + m] == ToLowerChar(s[i + m]);
      assert b[m] == ToLowerChar(s[i..j][m]);
    }
  }

  /** Position `i` of `s` holds the first letter of a run of cased characters. */
  predicate StartsWord(s: string, i: int)
    requires 0 <= i < |s|
  {
    StartsWordAfter(s, i, false)
  }

  /**
   The scan behind `str.title`: a cased character is upper-cased when the
   character before it is uncased (or when there is none and `afterCased`
   is false) and lower-cased otherwise.
   */
  function TitleFrom(s: string, afterCased: bool): (r: string)
    ensures |r| == |s|
    ensures forall i :: 0 <= i < |s| ==>
              r[i] == (if StartsWordAfter(s, i, afterCased) then ToUpperChar(s[i]) else ToLowerChar(s[i]))
  {
    if s == [] then []
    else
      var c := if IsCased(s[0]) && !afterCased then ToUpperChar(s[0]) else ToLowerChar(s[0]);
      var rest := TitleFrom(s[1..], IsCased(s[0]));
      forall i | 1 <= i < |s|
        ensures ([c] + rest)[i] == (if StartsWordAfter(s, i, afterCased) then ToUpperChar(s[i]) else ToLowerChar(s[i]))
      {
        assert StartsWordAfter(s[1..], i - 1, IsCased(s[0])) == StartsWordAfter(s, i, afterCased);
      }
      [c] + rest
  }

  /**
   `str.title`: the first letter of every run of letters is upper-case and
   every other letter is lower-case; nothing else changes.
   */
  function Title(s: string): (r: string)
    ensures |r| == |s|
    ensures forall i :: 0 <= i < |s| ==>
              r[i] == (if StartsWord(s, i) then ToUpperChar(s[i]) else ToLowerChar(s[i]))
  {
    TitleFrom(s, false)
  }

  /** Title-casing keeps which characters are cased, so word starts stay where they were. */
  lemma TitleKeepsWordStarts(s: string)
    ensures forall i :: 0 <= i < |s| ==> IsCased(Title(s)[i]) == IsCased(s[i])
    ensures forall i :: 0 <= i < |s| ==> StartsWord(Title(s), i) == StartsWord(s, i)
  {
  }

  /** Title-casing a title-cased string changes nothing. */
  lemma TitleIsIdempotent(s: string)
    ensures Title(Title(s)) == Title(s)
  {
    var t := Title(s);
    TitleKeepsWordStarts(s);
    forall i | 0 <= i < |s|
      ensures Title(t)[i] == t[i]
    {
      CaseMappingsAgree(s[i]);
    }
  }

  /** Title-casing changes only the case of letters: lower-casing undoes the difference. */
  lemma LowerOfTitle(s: string)
    ensures Lower(Title(s)) == Lower(s)
  {
    forall i | 0 <= i < |s|
      ensures Lower(Title(s))[i] == Lower(s)[i]
    {
      CaseMappingsAgree(s[i]);
    }
  }

  /** `p` occurs in `s` starting at index `i`. */
  predicate OccursAt(s: string, p: string, i: int)
  {
    0 <= i && i + |p| <= |s| && s[i..i + |p|] == p
  }

  /**
   Literal substring containment, `p in s`, by a left-to-right scan: `p`
   is compared with the front of `s`, then the scan moves on by one.
   */
  predicate Contains(s: string, p: string)
    decreases |s|
  {
    if |p| > |s| then false
    else if s[..|p|] == p then true
    else Contains(s[1..], p)
  }

  /** The scan finds `p` exactly when `p` occurs somewhere in `s`. */
  lemma {:induction false} ContainsIffOccurs(s: string, p: string)
    ensures Contains(s, p) <==> exists i :: OccursAt(s, p, i)
    decreases |s|
  {
    if |p| > |s| {
      assert forall i :: !OccursAt(s, p, i);
    } else if s[..|p|] == p {
      assert OccursAt(s, p, 0);
    } else {
      ContainsIffOccurs(s[1..], p);
      assert forall i :: OccursAt(s[1..], p, i) <==> OccursAt(s, p, i + 1) by {
        forall i
          ensures OccursAt(s[1..], p, i) <==> OccursAt(s, p, i + 1)
        {
          if 0 <= i && i + |p| <= |s| - 1 {
            assert s[1..][i..i + |p|] == s[i + 1..i + 1 + |p|];
          }
        }
      }
      assert !OccursAt(s, p, 0);
      if exists i :: OccursAt(s, p, i) {
        var i :| OccursAt(s, p, i);
        assert OccursAt(s[1..], p, i - 1);
      }
    }
  }

  /** Lower-casing the text keeps every occurrence of a pattern that has no upper-case letter. */
  lemma LowerKeepsOccurrence(s: string, p: string, i: int)
    requires OccursAt(s, p, i)
    requires Lower(p) == p
    ensures OccursAt(Lower(s), p, i)
  {
    LowerOfSlice(s, i, i + |p|);
  }

  /** The empty string occurs in every string, so an empty pattern matches everything. */
  lemma ContainsEmpty(s: string)
    ensures Contains(s, "")
  {
    assert s[..0] == "";
  }

}
