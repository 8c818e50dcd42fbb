/**
 * The JavaScript string built-ins the handlers rely on, over `string` = `seq<char>`:
 * `startsWith`, literal search (`includes`, and a regular expression made of literal
 * alternatives), ASCII `toLowerCase`, `parseInt(s, 10)`, `split` on one character,
 * `replace` of the first occurrence of a literal, and the decimal rendering of a
 * non-negative number that template literals and `+` on strings produce.
 */
module Text {
  import opened Wrappers

  predicate StartsWith(s: string, prefix: string)
  {
    |prefix| <= |s| && s[..|prefix|] == prefix
  }

  /** A JavaScript string value that is falsy: undefined, null or empty. */
  predicate Falsy(s: Option<string>)
  {
    s.None? || s.value == ""
  }

  /** `s` contains `sub` at some position. */
  predicate Contains(s: string, sub: string)
    decreases |s|
  {
    StartsWith(s, sub) || (|s| > 0 && Contains(s[1..], sub))
  }

  lemma {:induction false} ContainsInside(a: string, sub: string, b: string)
    ensures Contains(a + sub + b, sub)
    decreases |a|
  {
    if a == [] {
      assert (a + sub + b)[..|sub|] == sub;
    } else {
      assert (a + sub + b)[1..] == a[1..] + sub + b;
      ContainsInside(a[1..], sub, b);
    }
  }

  /** A string lacking one of the characters of `sub` does not contain it. */
  lemma {:induction false} NotContainsChar(s: string, sub: string, k: int)
    requires 0 <= k < |sub| && sub[k] !in s
    ensures !Contains(s, sub)
    decreases |s|
  {
    if |sub| <= |s| {
      assert s[..|sub|][k] == s[k];
    }
    if |s| > 0 {
      NotContainsChar(s[1..], sub, k);
    }
  }

  /** A string in which two adjacent characters of `sub` never appear side by side does not contain it. */
  lemma {:induction false} NotContainsPair(s: string, sub: string, k: int)
    requires 0 <= k && k + 1 < |sub|
    requires forall i :: 0 <= i < |s| - 1 ==> s[i] != sub[k] || s[i + 1] != sub[k + 1]
    ensures !Contains(s, sub)
    decreases |s|
  {
    if |sub| <= |s| {
      assert s[..|sub|][k] == s[k] && s[..|sub|][k + 1] == s[k + 1];
    }
    if |s| > 0 {
      var t := s[1..];
      forall i | 0 <= i < |t| - 1 ensures t[i] != sub[k] || t[i + 1] != sub[k + 1] {
        assert t[i] == s[i + 1] && t[i + 1] == s[i + 2];
      }
      NotContainsPair(t, sub, k);
    }
  }

  // ---------------------------------------------------------------------------
  // Case mapping

  function LowerChar(c: char): char
  {
    if 'A' <= c <= 'Z' then (c as int + 32) as char else c
  }

  /** `toLowerCase`, restricted to the ASCII letters. */
  function ToLower(s: string): (r: string)
    ensures |r| == |s|
  {
    seq(|s|, i requires 0 <= i < |s| => LowerChar(s[i]))
  }

  // ---------------------------------------------------------------------------
  // Decimal numbers

  predicate IsDigit(c: char)
  {
    '0' <= c <= '9'
  }

  predicate AllDigits(s: string)
  {
    forall i :: 0 <= i < |s| ==> IsDigit(s[i])
  }

  function DigitChar(d: nat): (c: char)
    requires d < 10
    ensures IsDigit(c)
  {
    ('0' as int + d) as char
  }

  function DigitValue(c: char): (d: nat)
    requires IsDigit(c)
    ensures d < 10
  {
    c as int - '0' as int
  }

  /** The decimal rendering of `n`: `String(n)`, `${n}`. */
  function Decimal(n: nat): (s: string)
    ensures |s| >= 1 && AllDigits(s)
    ensures n > 0 ==> s[0] != '0'
  {
    if n < 10 then [DigitChar(n)] else Decimal(n / 10) + [DigitChar(n % 10)]
  }

  /** The value of a non-empty or empty run of decimal digits, most significant first. */
  function DigitsValue(s: string): nat
    requires AllDigits(s)
  {
    if s == [] then 0 else DigitsValue(s[..|s| - 1]) * 10 + DigitValue(s[|s| - 1])
  }

  lemma {:induction false} DecimalRoundTrip(n: nat)
    ensures DigitsValue(Decimal(n)) == n
  {
    if n >= 10 {
      var d := Decimal(n / 10);
      assert (d + [DigitChar(n % 10)])[..|d|] == d;
      DecimalRoundTrip(n / 10);
    }
  }

  /** The longest prefix of `s` made of decimal digits. */
  function DigitPrefix(s: string): (p: string)
    ensures |p| <= |s| && p == s[..|p|] && AllDigits(p)
    ensures |p| < |s| ==> !IsDigit(s[|p|])
  {
    if s != [] && IsDigit(s[0]) then [s[0]] + DigitPrefix(s[1..]) else []
  }

  lemma {:induction false} DigitPrefixOf(digits: string, rest: string)
    requires AllDigits(digits)
    requires rest == [] || !IsDigit(rest[0])
    ensures DigitPrefix(digits + rest) == digits
  {
    if digits != [] {
      assert (digits + rest)[1..] == digits[1..] + rest;
      DigitPrefixOf(digits[1..], rest);
    }
  }

  /** The characters ECMAScript trims before parsing a number: white space and line terminators. */
  predicate IsJsSpace(c: char)
  {
    var k := c as int;
    k == 0x20 || 0x09 <= k <= 0x0D || k == 0xA0 || k == 0x1680 || 0x2000 <= k <= 0x200A ||
    k == 0x2028 || k == 0x2029 || k == 0x202F || k == 0x205F || k == 0x3000 || k == 0xFEFF
  }

  function TrimStart(s: string): (t: string)
    ensures |t| <= |s| && t == s[|s| - |t|..]
    ensures t == [] || !IsJsSpace(t[0])
  {
    if s != [] && IsJsSpace(s[0]) then TrimStart(s[1..]) else s
  }

  /**
   * `parseInt(s, 10)`: leading white space is skipped, one optional sign is read, then the
   * longest run of decimal digits; `None` stands for `NaN`, the result when there is no digit.
   */
  function ParseInt(s: string): (r: Option<int>)
    ensures r.Some? <==> DigitPrefix(SkipSign(TrimStart(s))) != []
  {
    var t := TrimStart(s);
    var digits := DigitPrefix(SkipSign(t));
    var magnitude: int := if digits == [] then 0 else DigitsValue(digits);
    if digits == [] then None
    else if t[0] == '-' then Some(-magnitude)
    else Some(magnitude)
  }

  function SkipSign(t: string): string
  {
    if t != [] && (t[0] == '-' || t[0] == '+') then t[1..] else t
  }

  lemma ParseIntDecimal(n: nat, rest: string)
    requires rest == [] || !IsDigit(rest[0])
    ensures ParseInt(Decimal(n) + rest) == Some(n)
  {
    var d := Decimal(n);
    var s := d + rest;
    assert s[0] == d[0] && IsDigit(s[0]);
    assert !IsJsSpace(s[0]);
    assert TrimStart(s) == s;
    assert SkipSign(s) == s;
    DigitPrefixOf(d, rest);
    DecimalRoundTrip(n);
  }

  // ---------------------------------------------------------------------------
  // Splitting and replacing

  /** `s.split(sep)` for a one-character separator; there is always at least one part. */
  function Split(s: string, sep: char): (parts: seq<string>)
    ensures |parts| >= 1
  {
    if s == [] then [[]]
    else
      var rest := Split(s[1..], sep);
      if s[0] == sep then [[]] + rest else [[s[0]] + rest[0]] + rest[1..]
  }

  lemma {:induction false} SplitWithoutSeparator(a: string, sep: char)
    requires sep !in a
    ensures Split(a, sep) == [a]
  {
    if a != [] {
      SplitWithoutSeparator(a[1..], sep);
      assert [a[0]] + a[1..] == a;
    }
  }

  lemma {:induction false} SplitAtFirstSeparator(a: string, sep: char, b: string)
    requires sep !in a
    ensures Split(a + [sep] + b, sep) == [a] + Split(b, sep)
  {
    if a == [] {
      assert (a + [sep] + b)[1..] == b;
    } else {
      assert (a + [sep] + b)[1..] == a[1..] + [sep] + b;
      SplitAtFirstSeparator(a[1..], sep, b);
      assert [a[0]] + a[1..] == a;
    }
  }

  lemma RemoveLeading(pat: string, tail: string)
    requires pat != []
    ensures RemoveFirst(pat + tail, pat) == tail
  {
    assert (pat + tail)[..|pat|] == pat;
  }

  /** `s.replace(/pat/, "")`: the first occurrence of the literal `pat` is removed. */
  function RemoveFirst(s: string, pat: string): (r: string)
    requires pat != []
    ensures Contains(s, pat) ==> |r| == |s| - |pat|
    ensures !Contains(s, pat) ==> r == s
    decreases |s|
  {
    if StartsWith(s, pat) then s[|pat|..]
    else if s == [] then s
    else [s[0]] + RemoveFirst(s[1..], pat)
  }
}
