/** String operations the editor relies on, written out with the JavaScript
    semantics the editor code uses: `indexOf`, `startsWith`, `replace` of the
    first occurrence of a character, `trim`, and a lower-casing restricted to
    ASCII letters. */
module Strings {

  datatype Option<+T> = None | Some(value: T)

  /** U+2009 THIN SPACE: the marker a provisional entity carries after its prefix. */
  const ThinSpace: char := '\U{2009}'

  /** Lower-case of one character; only the ASCII letters A-Z change. */
  function LowerChar(c: char): char {
    if 'A' <= c <= 'Z' then (c as int + 32) as char else c
  }

  /** `s.toLowerCase()` restricted to ASCII: no upper-case letter is left,
      every other character is kept, and each upper-case letter becomes its
      lower-case partner. */
  function Lower(s: string): (r: string)
    ensures |r| == |s| && NoUpper(r)
    ensures forall i :: 0 <= i < |s| && !('A' <= s[i] <= 'Z') ==> r[i] == s[i]
    ensures forall i :: 0 <= i < |s| && 'A' <= s[i] <= 'Z' ==> 'a' <= r[i] <= 'z' && r[i] as int == s[i] as int + 32
  {
    seq(|s|, i requires 0 <= i < |s| => LowerChar(s[i]))
  }

  /** A string whose characters are not ASCII letters is its own lower case. */
  predicate NoUpper(s: string) {
    forall i :: 0 <= i < |s| ==> !('A' <= s[i] <= 'Z')
  }

  lemma LowerAppend(a: string, b: string)
    ensures Lower(a + b) == Lower(a) + Lower(b)
  {
    assert forall i :: 0 <= i < |a + b| ==> Lower(a + b)[i] == (Lower(a) + Lower(b))[i];
  }

  lemma LowerNoUpper(s: string)
    requires NoUpper(s)
    ensures Lower(s) == s
  {
    assert forall i :: 0 <= i < |s| ==> Lower(s)[i] == s[i];
  }

  /** `s.startsWith(p)` */
  predicate StartsWith(s: string, p: string) {
    |p| <= |s| && s[..|p|] == p
  }

  /** `s` starts with `p` exactly when it is `p` followed by some string. */
  lemma StartsWithIff(s: string, p: string)
    ensures StartsWith(s, p) <==> exists t :: s == p + t
  {
    if StartsWith(s, p) {
      assert s == p + s[|p|..];
    }
    forall t | s == p + t
      ensures StartsWith(s, p)
    {
      assert s[..|p|] == p;
    }
  }

  /** `p` occurs in `s` at index `j`. */
  predicate OccursAt(s: string, p: string, j: int) {
    0 <= j && j + |p| <= |s| && forall i :: 0 <= i < |p| ==> s[j + i] == p[i]
  }

  /** The first index at or after `k` at which `p` occurs in `s`, or -1. */
  function IndexFrom(s: string, p: string, k: nat): (r: int)
    ensures r == -1 || (k <= r && r + |p| <= |s|)
    decreases |s| - k
  {
    if k + |p| > |s| then -1
    else if OccursAt(s, p, k) then k
    else IndexFrom(s, p, k + 1)
  }

  /** The search from `k` finds an occurrence and none before it. */
  lemma {:induction false} IndexFromSpec(s: string, p: string, k: nat)
    ensures var r := IndexFrom(s, p, k);
      (r == -1 || OccursAt(s, p, r)) &&
      forall j :: k <= j && (r == -1 || j < r) ==> !OccursAt(s, p, j)
    decreases |s| - k
  {
    if k + |p| <= |s| && !OccursAt(s, p, k) {
      IndexFromSpec(s, p, k + 1);
    }
  }

  /** `s.indexOf(p)`: the first index at which `p` occurs in `s`, or -1. */
  function IndexOf(s: string, p: string): (r: int)
    ensures r == -1 || (0 <= r && r + |p| <= |s|)
  {
    IndexFrom(s, p, 0)
  }

  /** `indexOf` is -1 exactly when `p` does not occur, and otherwise the
      first occurrence. */
  lemma IndexOfSpec(s: string, p: string)
    ensures IndexOf(s, p) == -1 <==> forall j :: !OccursAt(s, p, j)
    ensures IndexOf(s, p) != -1 ==>
      OccursAt(s, p, IndexOf(s, p)) && forall j :: 0 <= j < IndexOf(s, p) ==> !OccursAt(s, p, j)
  {
    IndexFromSpec(s, p, 0);
  }

  /** `s.replace(c, '')` for a one-character search string: only the first
      occurrence of `c` is removed. */
  function RemoveFirst(s: string, c: char): (r: string)
    ensures c !in s ==> r == s
    ensures c in s ==>
      exists i :: 0 <= i < |s| && s[i] == c && c !in s[..i] && r == s[..i] + s[i + 1..]
  {
    var i := IndexOf(s, [c]);
    FirstOfChar(s, c);
    if i == -1 then s else s[..i] + s[i + 1..]
  }

  /** For a one-character string, `indexOf` finds the first position of
      that character, and -1 exactly when it does not occur. */
  lemma FirstOfChar(s: string, c: char)
    ensures IndexOf(s, [c]) == -1 <==> c !in s
    ensures IndexOf(s, [c]) != -1 ==>
      0 <= IndexOf(s, [c]) < |s| && s[IndexOf(s, [c])] == c && c !in s[..IndexOf(s, [c])]
  {
    var i := IndexOf(s, [c]);
    IndexOfSpec(s, [c]);
    assert forall j :: 0 <= j < |s| ==> (OccursAt(s, [c], j) <==> s[j] == c) by {
      forall j | 0 <= j < |s| ensures OccursAt(s, [c], j) <==> s[j] == c {
        assert [c][0] == c && s[j + 0] == s[j];
      }
    }
    if i != -1 {
      assert c !in s[..i] by {
        forall j | 0 <= j < i ensures s[..i][j] != c {
          assert !OccursAt(s, [c], j);
        }
      }
    }
  }

  /** The characters JavaScript's `trim` removes: the WhiteSpace and
      LineTerminator code points of ECMAScript, U+2009 among them. */
  predicate IsSpace(c: char) {
    c == '\t' || c == '\n' || c == '\U{000B}' || c == '\U{000C}' || c == '\r' ||
    c == ' ' || c == '\U{00A0}' || c == '\U{1680}' || ('\U{2000}' <= c <= '\U{200A}') ||
    c == '\U{2028}' || c == '\U{2029}' || c == '\U{202F}' || c == '\U{205F}' ||
    c == '\U{3000}' || c == '\U{FEFF}'
  }

  predicate NoSpace(s: string) {
    forall i :: 0 <= i < |s| ==> !IsSpace(s[i])
  }

  /** The first index at or after `i` that does not hold whitespace (or |s|). */
  function SkipSpaces(s: string, i: nat): (k: nat)
    requires i <= |s|
    ensures i <= k <= |s|
    ensures forall j :: i <= j < k ==> IsSpace(s[j])
    ensures k < |s| ==> !IsSpace(s[k])
    decreases |s| - i
  {
    if i < |s| && IsSpace(s[i]) then SkipSpaces(s, i + 1) else i
  }

  /** The least index at or above `lo` from which `s[..i]` holds only whitespace. */
  function SkipSpacesBack(s: string, lo: nat, i: nat): (k: nat)
    requires lo <= i <= |s|
    ensures lo <= k <= i
    ensures forall j :: k <= j < i ==> IsSpace(s[j])
    ensures k > lo ==> !IsSpace(s[k - 1])
    decreases i
  {
    if i > lo && IsSpace(s[i - 1]) then SkipSpacesBack(s, lo, i - 1) else i
  }

  /** `s.trim()`: the slice `s[a..b]` left after removing whitespace on both ends. */
  function Trim(s: string): (r: string)
    ensures exists a, b :: 0 <= a <= b <= |s| && r == s[a..b] && (forall j :: 0 <= j < a ==> IsSpace(s[j]))
                                                               && (forall j :: b <= j < |s| ==> IsSpace(s[j]))
    ensures |r| > 0 ==> !IsSpace(r[0]) && !IsSpace(r[|r| - 1])
  {
    var a := SkipSpaces(s, 0);
    var b := SkipSpacesBack(s, a, |s|);
    s[a..b]
  }

  /** A character that is not whitespace lies inside what `trim` keeps. */
  lemma NonSpaceKept(s: string, x: nat)
    requires x < |s| && !IsSpace(s[x])
    ensures SkipSpaces(s, 0) <= x < SkipSpacesBack(s, SkipSpaces(s, 0), |s|)
  {
  }

  /** So does an occurrence of a string without whitespace. */
  lemma OccurrenceKept(s: string, p: string, j: nat)
    requires |p| > 0 && NoSpace(p) && OccursAt(s, p, j)
    ensures SkipSpaces(s, 0) <= j && j + |p| <= SkipSpacesBack(s, SkipSpaces(s, 0), |s|)
  {
    assert s[j + 0] == p[0];
    NonSpaceKept(s, j);
    assert s[j + (|p| - 1)] == p[|p| - 1];
    NonSpaceKept(s, j + |p| - 1);
  }

  /** An occurrence inside `s[a..b]` is one of the slice, shifted by `a`. */
  lemma OccursInSlice(s: string, p: string, a: nat, b: nat, j: nat)
    requires OccursAt(s, p, j) && a <= j && j + |p| <= b <= |s|
    ensures OccursAt(s[a..b], p, j - a)
  {
    forall i | 0 <= i < |p| ensures s[a..b][j - a + i] == p[i] {
      assert s[a..b][j - a + i] == s[j + i];
    }
  }

  /** An occurrence of a string without whitespace survives `trim`. */
  lemma TrimKeepsOccurrence(s: string, p: string)
    requires |p| > 0 && NoSpace(p)
    requires IndexOf(s, p) != -1
    ensures IndexOf(Trim(s), p) != -1
  {
    var j := IndexOf(s, p);
    IndexOfSpec(s, p);
    var a := SkipSpaces(s, 0);
    var b := SkipSpacesBack(s, a, |s|);
    OccurrenceKept(s, p, j);
    OccursInSlice(s, p, a, b, j);
    assert Trim(s) == s[a..b];
    IndexOfSpec(Trim(s), p);
  }
}
