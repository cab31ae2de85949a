/**
 The handful of Python `str` operations the calorie extractor relies on:
 `lower`, the `in` substring test, `split` on a one-character separator (and
 its inverse `join`), `strip` with no arguments, and filtering by `isdigit`.
 Strings are sequences of Unicode scalar values.
 */
module PyText {

  /** `str.isspace` for a single character: the complete list of code points
      CPython treats as white space (used by `strip()` with no arguments). */
  predicate IsSpace(c: char) {
    || c == ' '
    || ('\t' <= c <= '\r')
    || ('\U{1C}' <= c <= '\U{1F}')
    || c == '\U{85}' || c == '\U{A0}' || c == '\U{1680}'
    || ('\U{2000}' <= c <= '\U{200A}')
    || c == '\U{2028}' || c == '\U{2029}' || c == '\U{202F}'
    || c == '\U{205F}' || c == '\U{3000}'
  }

  predicate AllSpace(s: string) {
    forall k :: 0 <= k < |s| ==> IsSpace(s[k])
  }

  /** `str.isdigit`, restricted to the ASCII decimal digits. */
  predicate IsDigit(c: char) {
    '0' <= c <= '9'
  }

  predicate AllDigits(s: string) {
    forall k :: 0 <= k < |s| ==> IsDigit(s[k])
  }

  predicate NoDigit(s: string) {
    forall k :: 0 <= k < |s| ==> !IsDigit(s[k])
  }

  /** ASCII lower-casing of one character. */
  function LowerChar(c: char): char {
    if 'A' <= c <= 'Z' then (c as int + ('a' as int - 'A' as int)) as char else c
  }

  /** ASCII upper-casing of one character. */
  function UpperChar(c: char): char {
    if 'a' <= c <= 'z' then (c as int - ('a' as int - 'A' as int)) as char else c
  }

  /** A lower-cased character is a given lower-case letter exactly when it
      was that letter in either case. */
  lemma LowerCharMatches(c: char, k: char)
    requires 'a' <= k <= 'z'
    ensures LowerChar(c) == k <==> c == k || c == UpperChar(k)
  {
  }

  /** `str.lower`, ASCII letters only: no capital is left, capitals become
      their small letters, and every other character is kept. */
  function Lower(s: string): (r: string)
    ensures |r| == |s|
    ensures forall k :: 0 <= k < |r| ==> !('A' <= r[k] <= 'Z')
    ensures forall k :: 0 <= k < |s| && 'A' <= s[k] <= 'Z' ==> UpperChar(r[k]) == s[k]
    ensures forall k :: 0 <= k < |s| && !('A' <= s[k] <= 'Z') ==> r[k] == s[k]
  {
    seq(|s|, k requires 0 <= k < |s| => LowerChar(s[k]))
  }

  /** `s.startswith(pat)`. */
  predicate StartsWith(s: string, pat: string) {
    |pat| <= |s| && s[..|pat|] == pat
  }

  /** `StartsWith` is the prefix relation on sequences. */
  lemma StartsWithIsPrefix(s: string, pat: string)
    ensures StartsWith(s, pat) <==> pat <= s
  {
  }

  /** Python's `pat in s` for strings, scanning `s` from the left. */
  predicate Contains(s: string, pat: string)
    decreases |s|
  {
    StartsWith(s, pat) || (|s| > 0 && Contains(s[1..], pat))
  }

  /** `Contains` holds exactly when `pat` occurs at some position of `s`. */
  lemma {:induction false} ContainsAt(s: string, pat: string)
    ensures Contains(s, pat) <==> exists i :: 0 <= i <= |s| && pat <= s[i..]
    decreases |s|
  {
    StartsWithIsPrefix(s, pat);
    if |s| > 0 {
      ContainsAt(s[1..], pat);
      if exists i :: 0 <= i <= |s| && pat <= s[i..] {
        var i :| 0 <= i <= |s| && pat <= s[i..];
        if i > 0 { assert s[1..][i - 1..] == s[i..]; }
      }
      if Contains(s[1..], pat) {
        var i :| 0 <= i <= |s[1..]| && pat <= s[1..][i..];
        assert s[1..][i..] == s[i + 1..];
      }
    } else {
      assert s[0..] == s;
    }
  }

  /** A witness position for `Contains`. */
  lemma OccursAt(s: string, pat: string, i: int)
    requires 0 <= i <= |s| && pat <= s[i..]
    ensures Contains(s, pat)
  {
    ContainsAt(s, pat);
  }

  /** An occurrence in a suffix is an occurrence in the whole string. */
  lemma {:induction false} ContainsInSuffix(a: string, b: string, pat: string)
    requires Contains(b, pat)
    ensures Contains(a + b, pat)
    decreases |a|
  {
    if |a| == 0 {
      assert a + b == b;
    } else {
      ContainsInSuffix(a[1..], b, pat);
      assert (a + b)[1..] == a[1..] + b;
    }
  }

  /** Lower-casing works character by character, so it distributes over
      concatenation. */
  lemma LowerConcat(a: string, b: string)
    ensures Lower(a + b) == Lower(a) + Lower(b)
  {
    assert forall k :: 0 <= k < |a + b| ==> (a + b)[k] == if k < |a| then a[k] else b[k - |a|];
  }

  /** Position of the first occurrence of `c` in `s`. */
  function FirstIndex(s: string, c: char): (i: nat)
    requires c in s
    ensures i < |s| && s[i] == c
    ensures c !in s[..i]
  {
    if s[0] == c then 0 else 1 + FirstIndex(s[1..], c)
  }

  /** `s.split(sep)` for a one-character separator: the maximal separator-free
      pieces between occurrences of `sep`, always at least one (so `""` gives
      `[""]` and a trailing separator gives a trailing empty piece). */
  function Split(s: string, sep: char): (parts: seq<string>)
    ensures |parts| >= 1
    ensures forall k :: 0 <= k < |parts| ==> sep !in parts[k]
    ensures |parts| >= 2 <==> sep in s
    decreases |s|
  {
    if sep !in s then [s]
    else
      var i := FirstIndex(s, sep);
      [s[..i]] + Split(s[i + 1..], sep)
  }

  /** `sep.join(parts)`. */
  function Join(parts: seq<string>, sep: char): string
    requires |parts| >= 1
  {
    if |parts| == 1 then parts[0] else parts[0] + [sep] + Join(parts[1..], sep)
  }

  /** Splitting and re-joining gives back the original text: no character is
      lost or invented by `Split`. */
  lemma {:induction false} JoinSplit(s: string, sep: char)
    ensures Join(Split(s, sep), sep) == s
    decreases |s|
  {
    if sep in s {
      var i := FirstIndex(s, sep);
      JoinSplit(s[i + 1..], sep);
      assert s == s[..i] + [sep] + s[i + 1..];
    }
  }

  /** Joining separator-free pieces and splitting again gives back the pieces. */
  lemma {:induction false} SplitJoin(parts: seq<string>, sep: char)
    requires |parts| >= 1
    requires forall k :: 0 <= k < |parts| ==> sep !in parts[k]
    ensures Split(Join(parts, sep), sep) == parts
  {
    if |parts| > 1 {
      var s := Join(parts, sep);
      var rest := Join(parts[1..], sep);
      assert s == parts[0] + [sep] + rest;
      assert s[|parts[0]|] == sep;
      assert s[..|parts[0]|] == parts[0];
      FirstOfConcat(parts[0], sep, rest);
      assert s[|parts[0]| + 1..] == rest;
      SplitJoin(parts[1..], sep);
      assert parts == [parts[0]] + parts[1..];
    }
  }

  lemma {:induction false} FirstOfConcat(a: string, c: char, b: string)
    requires c !in a
    ensures FirstIndex(a + [c] + b, c) == |a|
  {
    if |a| > 0 {
      assert (a + [c] + b)[1..] == a[1..] + [c] + b;
      FirstOfConcat(a[1..], c, b);
    }
  }

  /** The first piece of a split is everything before the first separator. */
  lemma SplitFirst(s: string, sep: char)
    ensures sep !in s ==> Split(s, sep) == [s]
    ensures sep in s ==> Split(s, sep)[0] == s[..FirstIndex(s, sep)]
  {
  }

  /** The second piece is what lies between the first and second separators,
      or the whole remainder when there is no second separator. */
  lemma SplitSecond(s: string, sep: char)
    requires sep in s
    ensures var rest := s[FirstIndex(s, sep) + 1..];
      Split(s, sep)[1] == (if sep in rest then rest[..FirstIndex(rest, sep)] else rest)
  {
  }

  /** `s.lstrip()`: drops the leading white space. */
  function TrimStart(s: string): (r: string)
    ensures |r| <= |s| && r == s[|s| - |r|..]
    ensures AllSpace(s[..|s| - |r|])
    ensures |r| > 0 ==> !IsSpace(r[0])
  {
    if |s| > 0 && IsSpace(s[0]) then TrimStart(s[1..]) else s
  }

  /** `s.rstrip()`: drops the trailing white space. */
  function TrimEnd(s: string): (r: string)
    ensures |r| <= |s| && r == s[..|r|]
    ensures AllSpace(s[|r|..])
    ensures |r| > 0 ==> !IsSpace(r[|r| - 1])
  {
    if |s| > 0 && IsSpace(s[|s| - 1]) then TrimEnd(s[..|s| - 1]) else s
  }

  /** `r` is `s` with white-space-only margins removed on both sides, `r`
      starting at offset `i` of `s`, and `r` neither starts nor ends with white
      space. */
  predicate StrippedAt(s: string, r: string, i: int) {
    && 0 <= i <= |s| - |r|
    && s[i..i + |r|] == r
    && AllSpace(s[..i])
    && AllSpace(s[i + |r|..])
    && (|r| > 0 ==> !IsSpace(r[0]) && !IsSpace(r[|r| - 1]))
  }

  /** `s.strip()`. */
  function Strip(s: string): (r: string)
    ensures StrippedAt(s, r, |s| - |TrimStart(s)|)
  {
    StripShape(s);
    TrimEnd(TrimStart(s))
  }

  lemma StripShape(s: string)
    ensures StrippedAt(s, TrimEnd(TrimStart(s)), |s| - |TrimStart(s)|)
  {
    var t := TrimStart(s);
    StrippedFrom(s, t, TrimEnd(t), |s| - |t|);
  }

  /** Removing white-space margins in two steps, first the leading margin up
      to offset `i` leaving `t`, then the trailing margin of `t` leaving `r`,
      strips `s` to `r`. */
  lemma StrippedFrom(s: string, t: string, r: string, i: int)
    requires 0 <= i <= |s| && t == s[i..] && AllSpace(s[..i])
    requires |t| > 0 ==> !IsSpace(t[0])
    requires |r| <= |t| && r == t[..|r|] && AllSpace(t[|r|..])
    requires |r| > 0 ==> !IsSpace(r[|r| - 1])
    ensures StrippedAt(s, r, i)
  {
    assert s[i..][..|r|] == s[i..i + |r|];
    assert s[i + |r|..] == t[|r|..];
    assert |r| > 0 ==> r[0] == t[0];
  }

  /** The description `StrippedAt` pins the stripped text down completely:
      whatever offset it is found at, it is exactly what `strip()` returns. */
  lemma StripUnique(s: string, r: string, i: int)
    requires StrippedAt(s, r, i)
    ensures r == Strip(s)
  {
    StrippedAtUnique(s, r, i, Strip(s), |s| - |TrimStart(s)|);
  }

  lemma StrippedAtUnique(s: string, r: string, i: int, r': string, i': int)
    requires StrippedAt(s, r, i) && StrippedAt(s, r', i')
    ensures r == r'
  {
    EmptyIffAllSpace(s, r, i);
    EmptyIffAllSpace(s, r', i');
    if |r| > 0 {
      FirstNonSpaceUnique(s, i, i');
      LastNonSpaceUnique(s, i + |r|, i' + |r'|);
    }
  }

  /** Only an all-white-space text strips to nothing. */
  lemma EmptyIffAllSpace(s: string, r: string, i: int)
    requires StrippedAt(s, r, i)
    ensures |r| == 0 <==> AllSpace(s)
  {
    if |r| == 0 {
      assert forall k :: 0 <= k < i ==> s[..i][k] == s[k];
      assert forall k :: i <= k < |s| ==> s[i..][k - i] == s[k];
    } else {
      assert s[i] == r[0];
    }
  }

  lemma FirstNonSpaceUnique(s: string, i: int, i': int)
    requires 0 <= i < |s| && 0 <= i' < |s|
    requires AllSpace(s[..i]) && !IsSpace(s[i])
    requires AllSpace(s[..i']) && !IsSpace(s[i'])
    ensures i == i'
  {
    assert forall k :: 0 <= k < i ==> s[..i][k] == s[k];
    assert forall k :: 0 <= k < i' ==> s[..i'][k] == s[k];
  }

  lemma LastNonSpaceUnique(s: string, j: int, j': int)
    requires 0 < j <= |s| && 0 < j' <= |s|
    requires AllSpace(s[j..]) && !IsSpace(s[j - 1])
    requires AllSpace(s[j'..]) && !IsSpace(s[j' - 1])
    ensures j == j'
  {
    assert forall k :: j <= k < |s| ==> s[j..][k - j] == s[k];
    assert forall k :: j' <= k < |s| ==> s[j'..][k - j'] == s[k];
  }

  /** Text without white space at either end is left as it is. */
  lemma StripPlain(s: string)
    requires |s| > 0 ==> !IsSpace(s[0]) && !IsSpace(s[|s| - 1])
    ensures Strip(s) == s
  {
    assert s[0..|s|] == s && s[..0] == [] && s[|s|..] == [];
    StripUnique(s, s, 0);
  }

  /** Stripping twice changes nothing more. */
  lemma StripIdempotent(s: string)
    ensures Strip(Strip(s)) == Strip(s)
  {
    var r := Strip(s);
    assert r[0..|r|] == r && r[..0] == [] && r[|r|..] == [];
    StripUnique(r, r, 0);
  }

  /** `''.join(filter(str.isdigit, s))`: the digit characters of `s`, in order. */
  function Digits(s: string): (r: string)
    ensures AllDigits(r)
    ensures |r| <= |s|
  {
    if |s| == 0 then ""
    else if IsDigit(s[0]) then [s[0]] + Digits(s[1..])
    else Digits(s[1..])
  }

  /** Filtering distributes over concatenation, so digits of separate runs are
      simply glued together in order. */
  lemma {:induction false} DigitsAppend(a: string, b: string)
    ensures Digits(a + b) == Digits(a) + Digits(b)
  {
    if |a| > 0 {
      assert (a + b)[1..] == a[1..] + b;
      DigitsAppend(a[1..], b);
    } else {
      assert a + b == b;
    }
  }

  /** Filtering keeps a digit string whole and finds nothing in a digit-free one. */
  lemma {:induction false} DigitsOf(s: string)
    ensures AllDigits(s) ==> Digits(s) == s
    ensures Digits(s) == [] <==> NoDigit(s)
  {
    if |s| > 0 {
      DigitsOf(s[1..]);
      assert forall k :: 1 <= k < |s| ==> s[1..][k - 1] == s[k];
    }
  }
}
