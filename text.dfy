/** The few string operations of Python's `str` that the core relies on:
    `isspace`, `strip()`, `replace("\n", " ")`, and `f"{i}"` for a
    non-negative integer. Strings are sequences of Unicode scalar values. */
module Text {

  /** Python's `str.isspace()` for one character: the ASCII whitespace
      characters, the four separators 0x1C..0x1F, and the Unicode space
      and line/paragraph separators. */
  predicate IsSpace(c: char) {
    var n := c as int;
    (9 <= n <= 13) || (28 <= n <= 32) || n == 0x85 || n == 0xA0 || n == 0x1680
    || (0x2000 <= n <= 0x200A) || n == 0x2028 || n == 0x2029 || n == 0x202F
    || n == 0x205F || n == 0x3000
  }

  /** Every character of s at an index in [lo, hi) is whitespace. */
  predicate SpaceRun(s: string, lo: nat, hi: nat)
    requires lo <= hi <= |s|
  {
    forall k :: lo <= k < hi ==> IsSpace(s[k])
  }

  /** The length of the run of whitespace that starts `s`. */
  function LeadingSpaces(s: string): (n: nat)
    ensures n <= |s|
    ensures SpaceRun(s, 0, n)
    ensures n < |s| ==> !IsSpace(s[n])
  {
    if s == [] || !IsSpace(s[0]) then 0
    else
      var m := LeadingSpaces(s[1..]);
      assert forall k :: 1 <= k < m + 1 ==> s[k] == s[1..][k - 1];
      m + 1
  }

  /** The length of the run of whitespace that ends `s`. */
  function TrailingSpaces(s: string): (n: nat)
    ensures n <= |s|
    ensures SpaceRun(s, |s| - n, |s|)
    ensures n < |s| ==> !IsSpace(s[|s| - n - 1])
  {
    if s == [] || !IsSpace(s[|s| - 1]) then 0
    else
      var t := s[..|s| - 1];
      var m := TrailingSpaces(t);
      assert forall k :: |t| - m <= k < |t| ==> s[k] == t[k];
      m + 1
  }

  /** Python's `s.strip()`: `s` without its leading and trailing whitespace. */
  function Strip(s: string): (r: string)
    ensures |r| <= |s|
    ensures r == [] || (!IsSpace(r[0]) && !IsSpace(r[|r| - 1]))
  {
    var t := s[LeadingSpaces(s)..];
    t[..|t| - TrailingSpaces(t)]
  }

  /** What `Strip` removes is whitespace: the result is the slice of `s`
      that starts at index i, and everything before and after it is
      whitespace. */
  lemma StripMargins(s: string) returns (i: nat)
    ensures i + |Strip(s)| <= |s|
    ensures Strip(s) == s[i..i + |Strip(s)|]
    ensures SpaceRun(s, 0, i) && SpaceRun(s, i + |Strip(s)|, |s|)
  {
    i := LeadingSpaces(s);
    var t := s[i..];
    var m := TrailingSpaces(t);
    assert forall k :: |t| - m <= k < |t| ==> t[k] == s[i + k];
    assert s[i..i + |t| - m] == t[..|t| - m];
  }

  /** `Strip` is the only way to cut whitespace margins off `s` so that
      what remains neither starts nor ends with whitespace. */
  lemma StripUnique(s: string, i: nat, j: nat)
    requires i <= j <= |s|
    requires SpaceRun(s, 0, i) && SpaceRun(s, j, |s|)
    requires i == j || (!IsSpace(s[i]) && !IsSpace(s[j - 1]))
    ensures Strip(s) == s[i..j]
  {
    var l := LeadingSpaces(s);
    var t := s[l..];
    var m := TrailingSpaces(t);
    assert forall k :: |t| - m <= k < |t| ==> t[k] == s[l + k];
    if i == j {
      assert SpaceRun(s, 0, |s|);
    } else {
      assert l == i;
      assert l + |t| - m == j;
    }
    assert t[..|t| - m] == s[l..l + |t| - m];
  }

  /** Stripping twice is stripping once. */
  lemma StripIdempotent(s: string)
    ensures Strip(Strip(s)) == Strip(s)
  {
    var r := Strip(s);
    assert r[..0] == [] && r[|r|..] == [];
    StripUnique(r, 0, |r|);
    assert r[0..|r|] == r;
  }

  /** Python's `s.replace("\n", " ")`. */
  function ReplaceNewlines(s: string): (r: string)
    ensures |r| == |s|
    ensures forall k :: 0 <= k < |s| && s[k] != '\n' ==> r[k] == s[k]
    ensures forall k :: 0 <= k < |s| && s[k] == '\n' ==> r[k] == ' '
  {
    if s == [] then []
    else (if s[0] == '\n' then " " else [s[0]]) + ReplaceNewlines(s[1..])
  }

  /** The label clean-up of the classifier: newlines become spaces, then
      surrounding whitespace goes. */
  function CleanLabel(raw: string): string {
    Strip(ReplaceNewlines(raw))
  }

  /** A cleaned label never contains a newline, and cleaning it again
      changes nothing. */
  lemma CleanLabelProperties(raw: string)
    ensures '\n' !in CleanLabel(raw)
    ensures CleanLabel(CleanLabel(raw)) == CleanLabel(raw)
  {
    var r := ReplaceNewlines(raw);
    var c := Strip(r);
    StripKeepsAbsentChar(r, '\n');
    ReplaceWithoutNewlines(c);
    StripIdempotent(r);
  }

  /** A character that does not occur in `s` does not occur in `Strip(s)`. */
  lemma StripKeepsAbsentChar(s: string, x: char)
    requires x !in s
    ensures x !in Strip(s)
  {
    var c := Strip(s);
    var i := StripMargins(s);
    assert forall k :: 0 <= k < |c| ==> c[k] == s[i + k];
  }

  /** Replacing newlines in a string that has none changes nothing. */
  lemma {:induction false} ReplaceWithoutNewlines(s: string)
    requires '\n' !in s
    ensures ReplaceNewlines(s) == s
  {
    if s != [] {
      assert s[0] in s;
      assert forall x :: x in s[1..] ==> x in s;
      ReplaceWithoutNewlines(s[1..]);
    }
  }

  /** The digit character for `d`. */
  function DigitChar(d: nat): (c: char)
    requires d < 10
    ensures '0' <= c <= '9' && c as int - '0' as int == d
  {
    (d + '0' as int) as char
  }

  /** Python's `str(n)` (and `f"{n}"`) for a non-negative integer. */
  function NatToString(n: nat): (s: string)
    ensures |s| >= 1
    ensures forall k :: 0 <= k < |s| ==> '0' <= s[k] <= '9'
    ensures |s| > 1 ==> s[0] != '0'
    ensures (|s| == 1) == (n < 10)
    decreases n
  {
    if n < 10 then [DigitChar(n)] else NatToString(n / 10) + [DigitChar(n % 10)]
  }

  /** The value of a string of decimal digits. */
  function DecimalValue(s: string): nat
    requires forall k :: 0 <= k < |s| ==> '0' <= s[k] <= '9'
  {
    if s == [] then 0
    else DecimalValue(s[..|s| - 1]) * 10 + (s[|s| - 1] as int - '0' as int)
  }

  /** Reading back the decimal rendering of `n` gives `n`. */
  lemma {:induction false} DecimalRoundTrip(n: nat)
    ensures DecimalValue(NatToString(n)) == n
    decreases n
  {
    var s := NatToString(n);
    if n >= 10 {
      DecimalRoundTrip(n / 10);
      assert s[..|s| - 1] == NatToString(n / 10);
    }
  }

  /** Distinct numbers have distinct renderings. */
  lemma NatToStringInjective(a: nat, b: nat)
    requires NatToString(a) == NatToString(b)
    ensures a == b
  {
    DecimalRoundTrip(a);
    DecimalRoundTrip(b);
  }
}
