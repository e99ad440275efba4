/** String primitives the task list relies on: the whitespace test behind
    `string.IsNullOrWhiteSpace` and `Trim`, case-insensitive `IndexOf` with
    `StringComparison.OrdinalIgnoreCase`, decimal formatting of counts in the
    stats label, and a code-point comparator usable as a sort order. */
module Text {

  /** `Char.IsWhiteSpace`: U+0009..U+000D, U+0085 and the Unicode space,
      line and paragraph separators. */
  predicate IsWhiteSpace(c: char) {
    ('\U{9}' <= c <= '\U{D}') || c == ' ' || c == '\U{85}' || c == '\U{A0}' || c == '\U{1680}'
    || ('\U{2000}' <= c <= '\U{200A}') || c == '\U{2028}' || c == '\U{2029}'
    || c == '\U{202F}' || c == '\U{205F}' || c == '\U{3000}'
  }

  /** `string.IsNullOrWhiteSpace` (a string here is never null). */
  predicate IsBlank(s: string) {
    forall i :: 0 <= i < |s| ==> IsWhiteSpace(s[i])
  }

  /** Drops leading whitespace. */
  function TrimStart(s: string): (r: string)
    ensures |r| <= |s| && r == s[|s| - |r|..]
    ensures IsBlank(s[..|s| - |r|])
    ensures r == [] || !IsWhiteSpace(r[0])
  {
    if |s| > 0 && IsWhiteSpace(s[0]) then
      var r := TrimStart(s[1..]);
      assert s[..|s| - |r|] == [s[0]] + s[1..][..|s| - 1 - |r|];
      r
    else s
  }

  /** Drops trailing whitespace. */
  function TrimEnd(s: string): (r: string)
    ensures |r| <= |s| && r == s[..|r|]
    ensures IsBlank(s[|r|..])
    ensures r == [] || !IsWhiteSpace(r[|r| - 1])
  {
    if |s| > 0 && IsWhiteSpace(s[|s| - 1]) then
      var r := TrimEnd(s[..|s| - 1]);
      assert s[|r|..] == s[..|s| - 1][|r|..] + [s[|s| - 1]];
      r
    else s
  }

  /** `string.Trim()`: drops whitespace at both ends. The result is empty
      exactly when the input is blank, and otherwise neither starts nor ends
      with whitespace. */
  function Trim(s: string): (r: string)
    ensures r == [] <==> IsBlank(s)
    ensures r != [] ==> !IsWhiteSpace(r[0]) && !IsWhiteSpace(r[|r| - 1])
  {
    var t := TrimStart(s);
    var r := TrimEnd(t);
    assert s == s[..|s| - |t|] + t;
    assert r == [] ==> t == t[|r|..];
    BlankConcat(s[..|s| - |t|], t);
    assert r != [] ==> r[0] == t[0] == s[|s| - |t|];
    r
  }

  lemma BlankConcat(a: string, b: string)
    ensures IsBlank(a + b) <==> IsBlank(a) && IsBlank(b)
  {
    if IsBlank(a + b) {
      forall i | 0 <= i < |a| ensures IsWhiteSpace(a[i]) {
        assert a[i] == (a + b)[i];
      }
      forall i | 0 <= i < |b| ensures IsWhiteSpace(b[i]) {
        assert b[i] == (a + b)[|a| + i];
      }
    }
  }

  /** Trim removes a blank prefix and a blank suffix and keeps the middle. */
  lemma TrimIsSlice(s: string) returns (lo: nat, hi: nat)
    ensures lo <= hi <= |s|
    ensures Trim(s) == s[lo..hi]
    ensures IsBlank(s[..lo]) && IsBlank(s[hi..])
  {
    var t := TrimStart(s);
    var r := TrimEnd(t);
    lo := |s| - |t|;
    hi := lo + |r|;
    assert Trim(s) == r;
    assert s[lo..hi] == r && s[hi..] == t[|r|..] by {
      SliceOfSuffix(s, lo, t, |r|);
    }
  }

  lemma SliceOfSuffix(s: string, lo: nat, t: string, m: nat)
    requires lo <= |s| && t == s[lo..] && m <= |t|
    ensures s[lo..lo + m] == t[..m] && s[lo + m..] == t[m..]
  {
  }

  /** ASCII model of the upper-casing behind `OrdinalIgnoreCase`. */
  function Fold(c: char): char
  {
    if 'a' <= c <= 'z' then (c as int - 32) as char else c
  }

  /** Two characters are equal ignoring case exactly when they are equal or
      one is an ASCII lower-case letter and the other its upper-case form. */
  lemma FoldAlike(c: char, d: char)
    ensures Fold(c) == Fold(d) <==>
      || c == d
      || ('a' <= c <= 'z' && d as int == c as int - 32)
      || ('a' <= d <= 'z' && c as int == d as int - 32)
  {
  }

  /** A folded character folds to itself: comparing ignoring case is
      comparing the folded forms. */
  lemma FoldIdempotent(c: char)
    ensures Fold(Fold(c)) == Fold(c)
    ensures !('a' <= Fold(c) <= 'z')
  {
  }

  /** The query occurs in the text at position i, ignoring case. */
  predicate MatchesAt(text: string, query: string, i: nat) {
    i + |query| <= |text| && forall j :: 0 <= j < |query| ==> Fold(text[i + j]) == Fold(query[j])
  }

  /** The first position at or after `from` where the query occurs, or -1. */
  function IndexOfFrom(text: string, query: string, from: nat): (r: int)
    decreases |text| - from
    ensures r == -1 || (from <= r && MatchesAt(text, query, r))
    ensures forall i :: from <= i && (r == -1 || i < r) ==> !MatchesAt(text, query, i)
  {
    if from + |query| > |text| then -1
    else if MatchesAt(text, query, from) then from
    else IndexOfFrom(text, query, from + 1)
  }

  /** `text.IndexOf(query, StringComparison.OrdinalIgnoreCase)`: the first
      case-insensitive occurrence, or -1 when there is none. */
  function IndexOfIgnoreCase(text: string, query: string): (r: int)
    ensures r == -1 ==> forall i :: !MatchesAt(text, query, i)
    ensures r != -1 ==> 0 <= r && MatchesAt(text, query, r)
    ensures forall i :: 0 <= i < r ==> !MatchesAt(text, query, i)
  {
    IndexOfFrom(text, query, 0)
  }

  /** `IndexOf(...) >= 0`: the query occurs somewhere in the text. */
  predicate ContainsIgnoreCase(text: string, query: string) {
    IndexOfIgnoreCase(text, query) >= 0
  }

  lemma ContainsIgnoreCaseMeans(text: string, query: string)
    ensures ContainsIgnoreCase(text, query) <==> exists i: nat :: MatchesAt(text, query, i)
  {
    var r := IndexOfIgnoreCase(text, query);
    if r >= 0 {
      assert MatchesAt(text, query, r as nat);
    }
  }

  // Decimal formatting of a count, as string interpolation writes it.

  predicate IsDigit(c: char) { '0' <= c <= '9' }

  function DigitChar(d: nat): (c: char)
    requires d < 10
    ensures IsDigit(c) && c as int - '0' as int == d
  {
    ('0' as int + d) as char
  }

  function DigitValue(c: char): (d: nat)
    requires IsDigit(c)
    ensures d < 10
  {
    c as int - '0' as int
  }

  /** The decimal digits of n, without leading zeros. */
  function NatToString(n: nat): (s: string)
    ensures |s| >= 1
    ensures forall i :: 0 <= i < |s| ==> IsDigit(s[i])
    ensures s[0] == '0' ==> n == 0
  {
    if n < 10 then [DigitChar(n)] else NatToString(n / 10) + [DigitChar(n % 10)]
  }

  /** The value of a string of decimal digits. */
  function ParseDecimal(s: string): nat
    requires forall i :: 0 <= i < |s| ==> IsDigit(s[i])
  {
    if |s| == 0 then 0 else ParseDecimal(s[..|s| - 1]) * 10 + DigitValue(s[|s| - 1])
  }

  /** Reading the digits back gives the count that was formatted. */
  lemma {:induction false} ParseNatToString(n: nat)
    ensures ParseDecimal(NatToString(n)) == n
  {
    var s := NatToString(n);
    if n >= 10 {
      assert s[..|s| - 1] == NatToString(n / 10);
      ParseNatToString(n / 10);
    }
  }

  /** Lexicographic order by code point. It agrees with
      `StringComparison.Ordinal`, which compares UTF-16 code units, on
      strings without characters beyond U+FFFF. */
  predicate CodePointLe(a: string, b: string) {
    |a| == 0 || (|b| > 0 && (a[0] < b[0] || (a[0] == b[0] && CodePointLe(a[1..], b[1..]))))
  }

  lemma {:induction false} CodePointLeTotal(a: string, b: string)
    ensures CodePointLe(a, b) || CodePointLe(b, a)
  {
    if |a| > 0 && |b| > 0 && a[0] == b[0] {
      CodePointLeTotal(a[1..], b[1..]);
    }
  }

  lemma {:induction false} CodePointLeTransitive(a: string, b: string, c: string)
    requires CodePointLe(a, b) && CodePointLe(b, c)
    ensures CodePointLe(a, c)
  {
    if |a| > 0 && a[0] == b[0] && b[0] == c[0] {
      CodePointLeTransitive(a[1..], b[1..], c[1..]);
    }
  }
}
