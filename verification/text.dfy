/** String primitives the handlers rely on, over `seq<char>`.

    Case mapping is ASCII only: `A`..`Z` lower to `a`..`z`. White space
    follows the language that strips it: Python's `str.isspace` for
    `str.strip()`, ECMAScript's WhiteSpace and LineTerminator for
    `String.prototype.trim()`.
 */
module Text {

  /** The `[A-Z]` character class. */
  predicate IsUpper(c: char) {
    'A' <= c <= 'Z'
  }

  function LowerChar(c: char): char {
    if IsUpper(c) then (c as int + 32) as char else c
  }

  /** `str.lower()` / `String.prototype.toLowerCase()` on ASCII letters. */
  function Lower(s: string): string {
    seq(|s|, i requires 0 <= i < |s| => LowerChar(s[i]))
  }

  /** Whose notion of white space a strip uses. */
  datatype Dialect = Python | JavaScript

  /** White space both languages strip: tab, line feed, vertical tab, form
      feed, carriage return, space, no-break space, the Unicode space
      separators, and the line and paragraph separators. */
  predicate IsCommonSpace(c: char) {
    var n := c as int;
    || (9 <= n <= 13) || n == 0x20 || n == 0xA0 || n == 0x1680
    || (0x2000 <= n <= 0x200A) || n == 0x2028 || n == 0x2029
    || n == 0x202F || n == 0x205F || n == 0x3000
  }

  /** Python's `str.isspace` additionally holds for the four information
      separators U+001C..U+001F and for U+0085; ECMAScript's `trim` also
      drops the byte-order mark U+FEFF. */
  predicate IsSpace(d: Dialect, c: char) {
    var n := c as int;
    match d
    case Python => IsCommonSpace(c) || (0x1C <= n <= 0x1F) || n == 0x85
    case JavaScript => IsCommonSpace(c) || n == 0xFEFF
  }

  predicate AllSpace(d: Dialect, s: string) {
    forall i :: 0 <= i < |s| ==> IsSpace(d, s[i])
  }

  /** Number of white-space characters at the start of `s`. */
  function LeadingSpaces(d: Dialect, s: string): (n: nat)
    ensures n <= |s|
    ensures forall k :: 0 <= k < n ==> IsSpace(d, s[k])
    ensures n < |s| ==> !IsSpace(d, s[n])
  {
    if |s| == 0 || !IsSpace(d, s[0]) then 0 else 1 + LeadingSpaces(d, s[1..])
  }

  /** Number of white-space characters at the end of `s`. */
  function TrailingSpaces(d: Dialect, s: string): (n: nat)
    ensures n <= |s|
    ensures forall k :: |s| - n <= k < |s| ==> IsSpace(d, s[k])
    ensures n < |s| ==> !IsSpace(d, s[|s| - 1 - n])
  {
    if |s| == 0 || !IsSpace(d, s[|s| - 1]) then 0 else 1 + TrailingSpaces(d, s[..|s| - 1])
  }

  /** `str.strip()` / `String.prototype.trim()`: drops white space at both ends. */
  function Strip(d: Dialect, s: string): (r: string)
    ensures r == [] <==> AllSpace(d, s)
    ensures r != [] ==> !IsSpace(d, r[0]) && !IsSpace(d, r[|r| - 1])
    ensures |r| <= |s|
  {
    var a := LeadingSpaces(d, s);
    if a == |s| then []
    else
      var b := TrailingSpaces(d, s);
      assert !IsSpace(d, s[a]);
      s[a..|s| - b]
  }

  /** `s` is the stripped text surrounded by white space only: the
      leading run, the result, and the trailing run. */
  lemma StripDecomposes(d: Dialect, s: string)
    ensures var a := LeadingSpaces(d, s);
            var z := a + |Strip(d, s)|;
            && z <= |s|
            && s[a..z] == Strip(d, s)
            && AllSpace(d, s[..a]) && AllSpace(d, s[z..])
  {
    var a := LeadingSpaces(d, s);
    var r := Strip(d, s);
    if a < |s| {
      var b := TrailingSpaces(d, s);
      assert !IsSpace(d, s[a]);
      assert r == s[a..|s| - b];
      var z := a + |r|;
      assert z == |s| - b;
      assert AllSpace(d, s[z..]) by {
        forall k | 0 <= k < |s[z..]|
          ensures IsSpace(d, s[z..][k])
        {
          assert s[z..][k] == s[z + k];
        }
      }
    }
  }

  /** The two dialects disagree on the information separators and on the
      byte-order mark: Python strips U+001C..U+001F and keeps U+FEFF,
      JavaScript does the opposite. */
  lemma StripDialectsDiffer(n: int)
    requires 0x1C <= n <= 0x1F
    ensures Strip(Python, [n as char]) == []
    ensures Strip(JavaScript, [n as char]) == [n as char]
    ensures Strip(Python, [0xFEFF as char]) == [0xFEFF as char]
    ensures Strip(JavaScript, [0xFEFF as char]) == []
  {
    assert !IsSpace(JavaScript, [n as char][0]);
    assert !IsSpace(Python, [0xFEFF as char][0]);
  }

  /** `pat` sits in `text` at index `i`. */
  predicate OccursAt(text: string, pat: string, i: int) {
    0 <= i && i + |pat| <= |text| && text[i..i + |pat|] == pat
  }

  /** `text.indexOf(pat, from)` for a start inside the text: the first
      index at or after `from` where `pat` occurs, or -1. ECMAScript clamps
      a start past the end to the length; only a start of 0 is ever used. */
  function IndexOfFrom(text: string, pat: string, from: nat): (r: int)
    requires from <= |text|
    ensures r == -1 || (from <= r && OccursAt(text, pat, r))
    ensures forall i :: from <= i && (r == -1 || i < r) ==> !OccursAt(text, pat, i)
    decreases |text| - from
  {
    if from + |pat| > |text| then -1
    else if text[from..from + |pat|] == pat then from
    else IndexOfFrom(text, pat, from + 1)
  }

  /** `text.indexOf(pat)`. */
  function IndexOf(text: string, pat: string): int {
    IndexOfFrom(text, pat, 0)
  }

  /** `pat` occurs somewhere in `text`. */
  ghost predicate IsSubstring(pat: string, text: string) {
    exists i :: OccursAt(text, pat, i)
  }

  /** `IndexOf` reports -1 exactly when `pat` occurs nowhere in `text`. */
  lemma IndexOfFindsSubstring(text: string, pat: string)
    ensures IndexOf(text, pat) != -1 <==> IsSubstring(pat, text)
  {
    if IndexOf(text, pat) != -1 {
      assert OccursAt(text, pat, IndexOf(text, pat));
    }
  }

  /** Position of the last `c` in `s`, or -1 (the split point of `rsplit(c, 1)`). */
  function LastIndexOf(s: string, c: char): (r: int)
    ensures r == -1 <==> c !in s
    ensures r != -1 ==> 0 <= r < |s| && s[r] == c
    ensures forall k :: r < k < |s| ==> s[k] != c
  {
    if |s| == 0 then -1
    else if s[|s| - 1] == c then |s| - 1
    else LastIndexOf(s[..|s| - 1], c)
  }

  /** Position of the first `c` in `s`, or -1. */
  function FirstIndexOf(s: string, c: char): (r: int)
    ensures r == -1 <==> c !in s
    ensures r != -1 ==> 0 <= r < |s| && s[r] == c
    ensures forall k :: 0 <= k < |s| && (r == -1 || k < r) ==> s[k] != c
  {
    if |s| == 0 then -1
    else if s[0] == c then 0
    else
      var r := FirstIndexOf(s[1..], c);
      if r == -1 then -1 else r + 1
  }

  /** `sep.join(parts)` for a one-character separator. */
  function Join(parts: seq<string>, sep: char): string {
    if |parts| == 0 then ""
    else if |parts| == 1 then parts[0]
    else parts[0] + [sep] + Join(parts[1..], sep)
  }

  /** `s.split(sep)` for a one-character separator. */
  function Split(s: string, sep: char): seq<string>
    decreases |s|
  {
    var i := FirstIndexOf(s, sep);
    if i == -1 then [s] else [s[..i]] + Split(s[i + 1..], sep)
  }

  /** Splitting a join gives the parts back when no part holds the separator. */
  lemma {:induction false} SplitJoin(parts: seq<string>, sep: char)
    requires |parts| >= 1
    requires forall k :: 0 <= k < |parts| ==> sep !in parts[k]
    ensures Split(Join(parts, sep), sep) == parts
  {
    if |parts| > 1 {
      var p := parts[0];
      var rest := Join(parts[1..], sep);
      var j := Join(parts, sep);
      assert j == p + [sep] + rest;
      var i := FirstIndexOf(j, sep);
      assert j[|p|] == sep;
      assert forall k :: 0 <= k < |p| ==> j[k] == p[k] && j[k] != sep;
      assert i == |p|;
      assert j[..i] == p;
      assert j[i + 1..] == rest;
      SplitJoin(parts[1..], sep);
      assert parts == [p] + parts[1..];
    }
  }

  predicate IsDigit(c: char) {
    '0' <= c <= '9'
  }

  function DigitChar(d: nat): (c: char)
    requires d < 10
    ensures IsDigit(c) && c as int - '0' as int == d
  {
    (d + '0' as int) as char
  }

  /** Python's `str(n)` / `f"{n}"` for a non-negative integer. */
  function Decimal(n: nat): (r: string)
    ensures |r| >= 1
    ensures forall i :: 0 <= i < |r| ==> IsDigit(r[i])
  {
    if n < 10 then [DigitChar(n)] else Decimal(n / 10) + [DigitChar(n % 10)]
  }

  function DigitValue(c: char): nat
    requires IsDigit(c)
  {
    c as int - '0' as int
  }

  /** Reads back a string of decimal digits. */
  function ParseDecimal(s: string): nat
    requires forall i :: 0 <= i < |s| ==> IsDigit(s[i])
  {
    if |s| == 0 then 0
    else ParseDecimal(s[..|s| - 1]) * 10 + DigitValue(s[|s| - 1])
  }

  lemma {:induction false} DecimalRoundTrip(n: nat)
    ensures ParseDecimal(Decimal(n)) == n
  {
    if n >= 10 {
      var d := Decimal(n);
      assert d[..|d| - 1] == Decimal(n / 10);
      DecimalRoundTrip(n / 10);
    }
  }

  /** Different numbers print differently. */
  lemma DecimalInjective(a: nat, b: nat)
    ensures Decimal(a) == Decimal(b) ==> a == b
  {
    DecimalRoundTrip(a);
    DecimalRoundTrip(b);
  }
}
