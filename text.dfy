/**
 * The string services of .NET that the message service relies on:
 * `char.IsWhiteSpace` (through `string.IsNullOrWhiteSpace` and
 * `string.Trim`) and `string.Equals(_, _, StringComparison.OrdinalIgnoreCase)`.
 * Strings are `string` here (sequences of Unicode scalar values); .NET's
 * are sequences of UTF-16 code units. The two agree on every character the
 * white space table below mentions, and `Utf16Length` gives the length .NET
 * reports, in which a character above U+FFFF counts twice.
 */
module Text {

  /** `char.IsWhiteSpace`: the Unicode space, line and paragraph separators
      (categories Zs, Zl, Zp) together with U+0009..U+000D and U+0085. */
  predicate IsWhiteSpace(c: char) {
    || c == ' '
    || ('\t' <= c <= '\r')
    || c == '\U{85}'
    || c == '\U{A0}'
    || c == '\U{1680}'
    || ('\U{2000}' <= c <= '\U{200A}')
    || c == '\U{2028}'
    || c == '\U{2029}'
    || c == '\U{202F}'
    || c == '\U{205F}'
    || c == '\U{3000}'
  }

  /** `string.IsNullOrWhiteSpace`: every character is white space (so the
      empty string qualifies; a null string behaves exactly like it). */
  predicate IsNullOrWhiteSpace(s: string) {
    forall i | 0 <= i < |s| :: IsWhiteSpace(s[i])
  }

  /** Every character of `s` from index `lo` up to (not including) `hi` is
      white space. */
  predicate WhiteSpaceBetween(s: string, lo: int, hi: int)
    requires 0 <= lo && hi <= |s|
  {
    forall k | lo <= k < hi :: IsWhiteSpace(s[k])
  }

  /** The forward scan of `string.Trim`: from index `i`, the first index that
      does not hold white space (or `|s|`). */
  function TrimStartIndex(s: string, i: nat): (k: nat)
    requires i <= |s|
    ensures i <= k <= |s|
    ensures WhiteSpaceBetween(s, i, k)
    ensures k < |s| ==> !IsWhiteSpace(s[k])
    decreases |s| - i
  {
    if i < |s| && IsWhiteSpace(s[i]) then TrimStartIndex(s, i + 1) else i
  }

  /** The backward scan of `string.Trim`: from the end `j` down to no lower
      than `lo`, the end of the last character that is not white space (or
      `lo`). */
  function TrimEndIndex(s: string, lo: nat, j: nat): (k: nat)
    requires lo <= j <= |s|
    ensures lo <= k <= j
    ensures WhiteSpaceBetween(s, k, j)
    ensures k > lo ==> !IsWhiteSpace(s[k - 1])
    decreases j
  {
    if j > lo && IsWhiteSpace(s[j - 1]) then TrimEndIndex(s, lo, j - 1) else j
  }

  /** Where `Trim(s)` starts within `s`. */
  function TrimOffset(s: string): (i: nat)
    ensures i <= |s| && WhiteSpaceBetween(s, 0, i)
  {
    TrimStartIndex(s, 0)
  }

  /** `string.Trim()`: the infix of `s` left once the white space at both ends
      is dropped. It is empty exactly when `s` is all white space, and
      otherwise starts and ends with a character that is not white space. */
  function Trim(s: string): (r: string)
    ensures TrimOffset(s) + |r| <= |s| && r == s[TrimOffset(s)..TrimOffset(s) + |r|]
    ensures WhiteSpaceBetween(s, 0, TrimOffset(s))
    ensures WhiteSpaceBetween(s, TrimOffset(s) + |r|, |s|)
    ensures r != [] ==> !IsWhiteSpace(r[0]) && !IsWhiteSpace(r[|r| - 1])
    ensures r == [] <==> IsNullOrWhiteSpace(s)
  {
    var i := TrimStartIndex(s, 0);
    var j := TrimEndIndex(s, i, |s|);
    assert i < |s| ==> i < j;
    s[i..j]
  }

  /** Character `k` of `Trim(s)` is character `TrimOffset(s) + k` of `s`. */
  lemma TrimAt(s: string, k: nat)
    requires k < |Trim(s)|
    ensures TrimOffset(s) + k < |s| && Trim(s)[k] == s[TrimOffset(s) + k]
  {
  }

  /** Trimming a trimmed string changes nothing: a stored title or content,
      trimmed once, trims to itself. */
  lemma {:induction false} TrimIdempotent(s: string)
    ensures Trim(Trim(s)) == Trim(s)
  {
    var r := Trim(s);
    if r != [] {
      assert TrimStartIndex(r, 0) == 0;
      assert TrimEndIndex(r, 0, |r|) == |r|;
    }
  }

  /** Empty, or neither starting nor ending with white space. */
  predicate Trimmed(s: string) {
    s == [] || (!IsWhiteSpace(s[0]) && !IsWhiteSpace(s[|s| - 1]))
  }

  /** A character outside the Basic Multilingual Plane, which UTF-16 encodes
      as a surrogate pair. */
  predicate Supplementary(c: char) {
    c as int >= 0x1_0000
  }

  /** `string.Length`: the number of UTF-16 code units. */
  function Utf16Length(s: string): (n: nat)
    ensures |s| <= n <= 2 * |s|
  {
    if s == [] then 0 else (if Supplementary(s[0]) then 2 else 1) + Utf16Length(s[1..])
  }

  /** The UTF-16 length is the number of characters exactly when no character
      needs a surrogate pair. */
  lemma {:induction false} Utf16LengthOfBmp(s: string)
    ensures Utf16Length(s) == |s| <==> forall i | 0 <= i < |s| :: !Supplementary(s[i])
  {
    if s != [] {
      Utf16LengthOfBmp(s[1..]);
      if Utf16Length(s) == |s| {
        forall i | 0 <= i < |s|
          ensures !Supplementary(s[i])
        {
          if i > 0 {
            assert s[i] == s[1..][i - 1];
          }
        }
      } else {
        if !Supplementary(s[0]) {
          assert !(forall i | 0 <= i < |s| - 1 :: !Supplementary(s[1..][i]));
          var i :| 0 <= i < |s| - 1 && Supplementary(s[1..][i]);
          assert s[i + 1] == s[1..][i];
        }
      }
    }
  }

  /** A string is a fixed point of `Trim` exactly when it is empty or neither
      starts nor ends with white space. */
  lemma {:induction false} TrimFixedPoint(s: string)
    ensures Trim(s) == s <==> Trimmed(s)
  {
    if s != [] && !IsWhiteSpace(s[0]) && !IsWhiteSpace(s[|s| - 1]) {
      assert TrimStartIndex(s, 0) == 0;
      assert TrimEndIndex(s, 0, |s|) == |s|;
    }
  }

  /** The forward scan stops at the first character that is not white space. */
  lemma {:induction false} StartIndexAt(s: string, from: nat, i: nat)
    requires from <= i < |s|
    requires WhiteSpaceBetween(s, from, i) && !IsWhiteSpace(s[i])
    ensures TrimStartIndex(s, from) == i
    decreases i - from
  {
    if from < i {
      StartIndexAt(s, from + 1, i);
    }
  }

  /** The backward scan stops after the last character that is not white
      space. */
  lemma {:induction false} EndIndexAt(s: string, lo: nat, hi: nat, j: nat)
    requires lo < j <= hi <= |s|
    requires WhiteSpaceBetween(s, j, hi) && !IsWhiteSpace(s[j - 1])
    ensures TrimEndIndex(s, lo, hi) == j
    decreases hi
  {
    if j < hi {
      EndIndexAt(s, lo, hi - 1, j);
    }
  }

  /** `Trim` is determined by where the first and the last character that is
      not white space stand: any `s[i..j]` with only white space around it and
      a non-white-space character at each end is `Trim(s)`. */
  lemma {:induction false} TrimCharacterised(s: string, i: nat, j: nat)
    requires i < j <= |s|
    requires WhiteSpaceBetween(s, 0, i) && WhiteSpaceBetween(s, j, |s|)
    requires !IsWhiteSpace(s[i]) && !IsWhiteSpace(s[j - 1])
    ensures Trim(s) == s[i..j]
  {
    StartIndexAt(s, 0, i);
    EndIndexAt(s, i, |s|, j);
  }

  /** White space in front of `s[..i]` stays white space in front once the
      two are joined and followed by anything. */
  lemma LeadingWhiteSpaceJoined(before: string, s: string, after: string, i: nat)
    requires i <= |s|
    requires IsNullOrWhiteSpace(before) && WhiteSpaceBetween(s, 0, i)
    ensures WhiteSpaceBetween(before + s + after, 0, |before| + i)
  {
    var p := before + s + after;
    forall k | 0 <= k < |before| + i ensures IsWhiteSpace(p[k]) {
      if k < |before| {
        assert p[k] == before[k];
      } else {
        assert p[k] == s[k - |before|];
      }
    }
  }

  /** White space after `s[j..]` stays white space at the end once the two are
      joined and preceded by anything. */
  lemma TrailingWhiteSpaceJoined(before: string, s: string, after: string, j: nat)
    requires j <= |s|
    requires IsNullOrWhiteSpace(after) && WhiteSpaceBetween(s, j, |s|)
    ensures WhiteSpaceBetween(before + s + after, |before| + j, |before| + |s| + |after|)
  {
    var p := before + s + after;
    var e := |before| + |s|;
    forall k | |before| + j <= k < |p| ensures IsWhiteSpace(p[k]) {
      if k < e {
        assert p[k] == s[k - |before|];
      } else {
        assert p[k] == after[k - e];
      }
    }
  }

  /** Once `s` is joined between two strings, its trimmed part sits at the
      same place, shifted by the length of the first. */
  lemma TrimJoined(before: string, s: string, after: string)
    ensures var p, i, r := before + s + after, |before| + TrimOffset(s), Trim(s);
      p[i..i + |r|] == r
  {
    var p, b, r := before + s + after, |before|, Trim(s);
    var i := b + TrimOffset(s);
    forall k | 0 <= k < |r| ensures p[i..i + |r|][k] == r[k] {
      TrimAt(s, k);
      assert p[i + k] == s[i - b + k];
    }
  }

  /** Surrounding white space is irrelevant: padding a string on either side
      with white space does not change what it trims to. */
  lemma {:induction false} TrimIgnoresPadding(before: string, s: string, after: string)
    requires IsNullOrWhiteSpace(before) && IsNullOrWhiteSpace(after)
    ensures Trim(before + s + after) == Trim(s)
  {
    var p := before + s + after;
    var b := |before|;
    var r := Trim(s);
    var i := TrimOffset(s);
    var j := i + |r|;
    LeadingWhiteSpaceJoined(before, s, after, i);
    TrailingWhiteSpaceJoined(before, s, after, j);
    if r == [] {
      assert IsNullOrWhiteSpace(p);
    } else {
      TrimJoined(before, s, after);
      TrimCharacterised(p, b + i, b + j);
    }
  }

  /** The upper-case mapping `StringComparison.OrdinalIgnoreCase` applies to
      each character, restricted to ASCII letters. */
  function ToUpperOrdinal(c: char): (u: char) {
    if 'a' <= c <= 'z' then (c as int - 32) as char else c
  }

  /** `string.Equals(a, b, StringComparison.OrdinalIgnoreCase)`. */
  predicate EqualsIgnoreCase(a: string, b: string) {
    && |a| == |b|
    && forall i | 0 <= i < |a| :: ToUpperOrdinal(a[i]) == ToUpperOrdinal(b[i])
  }

  /** Ignoring case is an equivalence relation, so "the same title" within an
      organisation is well defined. */
  lemma EqualsIgnoreCaseIsEquivalence(a: string, b: string, c: string)
    ensures EqualsIgnoreCase(a, a)
    ensures EqualsIgnoreCase(a, b) ==> EqualsIgnoreCase(b, a)
    ensures EqualsIgnoreCase(a, b) && EqualsIgnoreCase(b, c) ==> EqualsIgnoreCase(a, c)
  {
  }

  /** Ordinal case folding never turns white space into something else, or
      back. */
  lemma SameCaseSameWhiteSpace(c: char, d: char)
    requires ToUpperOrdinal(c) == ToUpperOrdinal(d)
    ensures IsWhiteSpace(c) == IsWhiteSpace(d)
  {
  }

  /** On strings equal ignoring case, both scans of `Trim` stop at the same
      indices. */
  lemma {:induction false} StartIndexRespectsIgnoreCase(a: string, b: string, i: nat)
    requires EqualsIgnoreCase(a, b) && i <= |a|
    ensures TrimStartIndex(a, i) == TrimStartIndex(b, i)
    decreases |a| - i
  {
    if i < |a| {
      SameCaseSameWhiteSpace(a[i], b[i]);
      if IsWhiteSpace(a[i]) {
        StartIndexRespectsIgnoreCase(a, b, i + 1);
      }
    }
  }

  lemma {:induction false} EndIndexRespectsIgnoreCase(a: string, b: string, lo: nat, j: nat)
    requires EqualsIgnoreCase(a, b) && lo <= j <= |a|
    ensures TrimEndIndex(a, lo, j) == TrimEndIndex(b, lo, j)
    decreases j
  {
    if j > lo {
      SameCaseSameWhiteSpace(a[j - 1], b[j - 1]);
      if IsWhiteSpace(a[j - 1]) {
        EndIndexRespectsIgnoreCase(a, b, lo, j - 1);
      }
    }
  }

  /** Strings equal ignoring case trim to strings equal ignoring case: case
      never decides how much white space `Trim` removes. */
  lemma TrimRespectsIgnoreCase(a: string, b: string)
    requires EqualsIgnoreCase(a, b)
    ensures EqualsIgnoreCase(Trim(a), Trim(b))
  {
    StartIndexRespectsIgnoreCase(a, b, 0);
    var i := TrimOffset(a);
    EndIndexRespectsIgnoreCase(a, b, i, |a|);
    var ra, rb := Trim(a), Trim(b);
    forall k | 0 <= k < |ra| ensures ToUpperOrdinal(ra[k]) == ToUpperOrdinal(rb[k]) {
      TrimAt(a, k);
      TrimAt(b, k);
    }
  }
}
