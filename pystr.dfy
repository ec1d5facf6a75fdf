/** The few Python string operations the crawler relies on: `str.isspace`, `str.strip`,
    `str.replace` with one-character arguments, decimal formatting of a year, and the
    ASCII digit and case tests used by its regular expressions. */
module PyStr {

  /** Python's `str.isspace()` for one character. */
  predicate IsSpace(c: char)
  {
    || ('\t' <= c <= '\r')
    || ('\U{1C}' <= c <= '\U{1F}')
    || c == ' '
    || c == '\U{85}'
    || c == '\U{A0}'
    || c == '\U{1680}'
    || ('\U{2000}' <= c <= '\U{200A}')
    || c == '\U{2028}'
    || c == '\U{2029}'
    || c == '\U{202F}'
    || c == '\U{205F}'
    || c == '\U{3000}'
  }

  /** Neither end of `s` is whitespace. */
  predicate Trimmed(s: string)
  {
    s == [] || (!IsSpace(s[0]) && !IsSpace(s[|s| - 1]))
  }

  /** The first index at or after `i` that is not whitespace, or `|s|`. */
  function SkipSpaces(s: string, i: nat): (k: nat)
    requires i <= |s|
    ensures i <= k <= |s|
    ensures forall m :: i <= m < k ==> IsSpace(s[m])
    ensures k == |s| || !IsSpace(s[k])
    decreases |s| - i
  {
    if i < |s| && IsSpace(s[i]) then SkipSpaces(s, i + 1) else i
  }

  /** Going back from `j` but not below `lo`, the end of the last character that is not
      whitespace, or `lo`. */
  function SkipSpacesBack(s: string, lo: nat, j: nat): (k: nat)
    requires lo <= j <= |s|
    ensures lo <= k <= j
    ensures forall m :: k <= m < j ==> IsSpace(s[m])
    ensures k == lo || !IsSpace(s[k - 1])
    decreases j - lo
  {
    if lo < j && IsSpace(s[j - 1]) then SkipSpacesBack(s, lo, j - 1) else j
  }

  /** Python's `s.strip()`: the result is the slice of `s` left once the whitespace at
      both ends is removed, so it is trimmed and everything cut off is whitespace. */
  function Strip(s: string): (r: string)
    ensures Trimmed(r)
    ensures exists i, j :: && 0 <= i <= j <= |s| && r == s[i..j]
                           && (forall k :: 0 <= k < i ==> IsSpace(s[k]))
                           && (forall k :: j <= k < |s| ==> IsSpace(s[k]))
  {
    var i := SkipSpaces(s, 0);
    var j := SkipSpacesBack(s, i, |s|);
    s[i..j]
  }

  /** Stripping a string that is already trimmed changes nothing. */
  lemma StripTrimmed(s: string)
    requires Trimmed(s)
    ensures Strip(s) == s
  {
  }

  predicate IsDigit(c: char)
  {
    '0' <= c <= '9'
  }

  predicate AllDigits(s: string)
  {
    forall k :: 0 <= k < |s| ==> IsDigit(s[k])
  }

  function DigitChar(d: nat): (c: char)
    requires d < 10
    ensures IsDigit(c) && c as int - '0' as int == d
  {
    ('0' as int + d) as char
  }

  /** Python's `f"{n}"` for a non-negative integer: its decimal digits, with no leading zero. */
  function DecimalString(n: nat): (r: string)
    ensures |r| >= 1 && AllDigits(r)
    ensures r[0] == '0' ==> n == 0
  {
    if n < 10 then [DigitChar(n)] else DecimalString(n / 10) + [DigitChar(n % 10)]
  }

  /** The value of a string of decimal digits. */
  function DecimalValue(s: string): nat
    requires AllDigits(s)
  {
    if s == [] then 0 else DecimalValue(s[..|s| - 1]) * 10 + (s[|s| - 1] as int - '0' as int)
  }

  /** Reading the formatted number back gives the number. */
  lemma {:induction false} DecimalRoundTrip(n: nat)
    ensures DecimalValue(DecimalString(n)) == n
  {
    if n >= 10 {
      var r := DecimalString(n);
      assert r[..|r| - 1] == DecimalString(n / 10);
      DecimalRoundTrip(n / 10);
    }
  }

  /** Python's `s.replace(c, "")` for a one-character `c`. */
  function RemoveAll(s: string, c: char): (r: string)
    ensures c !in r
    ensures forall x :: x != c ==> (x in r <==> x in s)
  {
    if s == [] then [] else (if s[0] == c then [] else [s[0]]) + RemoveAll(s[1..], c)
  }

  /** Python's `s.replace(a, b)` for one-character `a` and `b`. */
  function ReplaceAll(s: string, a: char, b: char): (r: string)
    ensures |r| == |s|
    ensures forall k :: 0 <= k < |s| ==> r[k] == if s[k] == a then b else s[k]
  {
    if s == [] then [] else [if s[0] == a then b else s[0]] + ReplaceAll(s[1..], a, b)
  }

  lemma {:induction false} RemoveAllAppend(s: string, t: string, c: char)
    ensures RemoveAll(s + t, c) == RemoveAll(s, c) + RemoveAll(t, c)
  {
    if s != [] {
      assert (s + t)[1..] == s[1..] + t;
      RemoveAllAppend(s[1..], t, c);
    } else {
      assert s + t == t;
    }
  }

  /** ASCII lower-casing, the case folding the crawler's case-insensitive patterns use. */
  function Fold(c: char): (f: char)
    ensures 'A' <= c <= 'Z' ==> f as int == c as int + 32
    ensures !('A' <= c <= 'Z') ==> f == c
  {
    if 'A' <= c <= 'Z' then (c as int + 32) as char else c
  }

  /** A subject character against one literal character of a pattern. */
  predicate CharMatches(c: char, lit: char, ignoreCase: bool)
  {
    if ignoreCase then Fold(c) == Fold(lit) else c == lit
  }

  /** Only a newline matches a newline, with or without case folding. */
  lemma NewlineMatchesOnlyNewline(c: char, lit: char, ignoreCase: bool)
    requires CharMatches(c, lit, ignoreCase)
    ensures c == '\n' <==> lit == '\n'
  {
  }

  function Join(parts: seq<string>, sep: char): string
  {
    if parts == [] then [] else if |parts| == 1 then parts[0] else parts[0] + [sep] + Join(parts[1..], sep)
  }

  lemma JoinCons(x: string, rest: seq<string>, sep: char)
    requires rest != []
    ensures Join([x] + rest, sep) == x + [sep] + Join(rest, sep)
  {
    assert ([x] + rest)[1..] == rest;
  }
}
