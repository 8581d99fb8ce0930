/** The few Python `str` operations the crawler relies on: `lower()` (ASCII
    letters only), the `in` substring test, `isspace()` and `strip()`. */
module PyStr {

  /** `c.lower()` for one character; only `A`..`Z` change. */
  function LowerChar(c: char): char
  {
    if 'A' <= c <= 'Z' then (c as int + 32) as char else c
  }

  /** `c.upper()` for one character; only `a`..`z` change. */
  function UpperChar(c: char): char
  {
    if 'a' <= c <= 'z' then (c as int - 32) as char else c
  }

  /** `s.lower()`, ASCII letters only. */
  function Lower(s: string): string
  {
    seq(|s|, i requires 0 <= i < |s| => LowerChar(s[i]))
  }

  /** `s.upper()`, ASCII letters only. */
  function Upper(s: string): string
  {
    seq(|s|, i requires 0 <= i < |s| => UpperChar(s[i]))
  }

  /** Lower-casing twice is lower-casing once. */
  lemma LowerIdempotent(s: string)
    ensures Lower(Lower(s)) == Lower(s)
  {
  }

  /** Upper-casing first does not change the lower-cased text. */
  lemma LowerOfUpper(s: string)
    ensures Lower(Upper(s)) == Lower(s)
  {
  }

  /** `needle` occurs in `hay` starting at index `i`. */
  ghost predicate OccursAt(needle: string, hay: string, i: int)
  {
    && 0 <= i && i + |needle| <= |hay|
    && forall k :: 0 <= k < |needle| ==> hay[i + k] == needle[k]
  }

  /** Python's `needle in hay` on strings (the empty string occurs everywhere). */
  predicate Occurs(needle: string, hay: string)
    decreases |hay|
  {
    |needle| <= |hay| && (hay[..|needle|] == needle || Occurs(needle, hay[1..]))
  }

  /** `Occurs` holds exactly when there is a position where `needle` starts. */
  lemma {:induction false} OccursIff(needle: string, hay: string)
    ensures Occurs(needle, hay) <==> exists i :: OccursAt(needle, hay, i)
    decreases |hay|
  {
    if |needle| <= |hay| {
      if hay[..|needle|] == needle {
        assert OccursAt(needle, hay, 0);
      } else {
        OccursIff(needle, hay[1..]);
        if Occurs(needle, hay[1..]) {
          var i :| OccursAt(needle, hay[1..], i);
          assert OccursAt(needle, hay, i + 1);
        }
        if i :| OccursAt(needle, hay, i) {
          assert OccursAt(needle, hay[1..], i - 1);
        }
      }
    }
  }

  /** Python's `c.isspace()`: the characters whose bidirectional class is
      whitespace, segment or paragraph separator, or which are space separators. */
  predicate IsSpace(c: char)
  {
    || c == ' '
    || '\t' <= c <= '\r'
    || '\U{1c}' <= c <= '\U{1f}'
    || c == '\U{85}'
    || c == '\U{a0}'
    || c == '\U{1680}'
    || '\U{2000}' <= c <= '\U{200a}'
    || c == '\U{2028}'
    || c == '\U{2029}'
    || c == '\U{202f}'
    || c == '\U{205f}'
    || c == '\U{3000}'
  }

  /** The scan from the left in `strip()`: the first index at or after `i`
      that does not hold whitespace, or `|s|`. */
  function SkipSpaceForward(s: string, i: nat): (j: nat)
    requires i <= |s|
    ensures i <= j <= |s|
    ensures forall k :: i <= k < j ==> IsSpace(s[k])
    ensures j < |s| ==> !IsSpace(s[j])
    decreases |s| - i
  {
    if i < |s| && IsSpace(s[i]) then SkipSpaceForward(s, i + 1) else i
  }

  /** The scan from the right in `strip()`: step `j` back towards `lo` while
      the character before it is whitespace. */
  function SkipSpaceBackward(s: string, lo: nat, j: nat): (e: nat)
    requires lo <= j <= |s|
    ensures lo <= e <= j
    ensures forall k :: e <= k < j ==> IsSpace(s[k])
    ensures e > lo ==> !IsSpace(s[e - 1])
  {
    if j > lo && IsSpace(s[j - 1]) then SkipSpaceBackward(s, lo, j - 1) else j
  }

  /** `r` is the slice of `s` starting at `i`, and everything of `s` outside
      that slice is whitespace. */
  ghost predicate TrimmedSliceAt(s: string, r: string, i: int)
  {
    && 0 <= i <= |s| - |r| && r == s[i..i + |r|]
    && (forall k :: 0 <= k < i ==> IsSpace(s[k]))
    && (forall k :: i + |r| <= k < |s| ==> IsSpace(s[k]))
  }

  /** `s.strip()`: `s` without its leading and trailing whitespace. */
  function Strip(s: string): string
  {
    var i := SkipSpaceForward(s, 0);
    s[i..SkipSpaceBackward(s, i, |s|)]
  }

  /** What `strip()` promises: the result is a slice of `s`, everything cut
      off on either side is whitespace, and the result neither starts nor
      ends with whitespace. */
  lemma StripSpec(s: string)
    ensures exists i :: TrimmedSliceAt(s, Strip(s), i)
    ensures Strip(s) != [] ==> !IsSpace(Strip(s)[0]) && !IsSpace(Strip(s)[|Strip(s)| - 1])
  {
    var i := SkipSpaceForward(s, 0);
    var j := SkipSpaceBackward(s, i, |s|);
    assert TrimmedSliceAt(s, Strip(s), i);
  }

  /** A stripped line is empty exactly when the line is all whitespace. */
  lemma StripEmptyIff(s: string)
    ensures Strip(s) == [] <==> forall k :: 0 <= k < |s| ==> IsSpace(s[k])
  {
    StripSpec(s);
    var r := Strip(s);
    var i :| TrimmedSliceAt(s, r, i);
    if r != [] {
      assert r[0] == s[i];
    }
  }

  /** Stripping an already stripped string changes nothing. */
  lemma StripIdempotent(s: string)
    ensures Strip(Strip(s)) == Strip(s)
  {
    StripSpec(s);
    var r := Strip(s);
    if r != [] {
      assert SkipSpaceForward(r, 0) == 0;
      assert SkipSpaceBackward(r, 0, |r|) == |r|;
      assert r[0..|r|] == r;
    }
  }
}
