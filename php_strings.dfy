/**
 * The PHP string built-ins the request helpers rely on, over byte strings:
 * PCRE's `\s` class, `stripos`, the truthiness of a string, and the decimal
 * integer strings that PHP turns into integer array keys.
 * A `char` stands for one byte of the PHP string.
 */
module PhpStrings {
  import opened Wrappers

  /** PCRE's `\s` without the `u` flag: space, tab, line feed, vertical tab, form feed, carriage return. */
  predicate IsSpace(c: char) {
    c == ' ' || 9 <= c as int <= 13
  }

  /** ASCII lower-casing of one byte, as `stripos` does it. */
  function LowerByte(c: char): char {
    if 'A' <= c <= 'Z' then (c as int + 32) as char else c
  }

  function Lower(s: string): string {
    seq(|s|, i requires 0 <= i < |s| => LowerByte(s[i]))
  }

  /** `needle` occurs in `haystack` at position `i`, ignoring ASCII case. */
  predicate MatchesIgnoringCaseAt(haystack: string, needle: string, i: nat) {
    i + |needle| <= |haystack| && Lower(haystack[i..i + |needle|]) == Lower(needle)
  }

  /** The scan behind `stripos`: the first position at or after `from` where `needle` occurs, ignoring case. */
  function StriposFrom(haystack: string, needle: string, from: nat): (r: Option<nat>)
    decreases |haystack| - from
    ensures r.Some? ==> from <= r.value && MatchesIgnoringCaseAt(haystack, needle, r.value)
    ensures r.Some? ==> forall j :: from <= j < r.value ==> !MatchesIgnoringCaseAt(haystack, needle, j)
    ensures r.None? ==> forall j :: from <= j ==> !MatchesIgnoringCaseAt(haystack, needle, j)
  {
    if from + |needle| > |haystack| then None
    else if MatchesIgnoringCaseAt(haystack, needle, from) then Some(from)
    else StriposFrom(haystack, needle, from + 1)
  }

  /** `stripos($haystack, $needle)`: the leftmost case-insensitive occurrence, or None for `false`. */
  function Stripos(haystack: string, needle: string): (r: Option<nat>)
    ensures r.Some? <==> exists i :: MatchesIgnoringCaseAt(haystack, needle, i)
    ensures r.Some? ==> MatchesIgnoringCaseAt(haystack, needle, r.value)
    ensures r.Some? ==> forall j :: 0 <= j < r.value ==> !MatchesIgnoringCaseAt(haystack, needle, j)
  {
    StriposFrom(haystack, needle, 0)
  }

  /** Lower-casing the haystack first changes no match: the comparison already ignores case. */
  lemma MatchIgnoresCaseOfHaystack(haystack: string, needle: string, i: nat)
    ensures MatchesIgnoringCaseAt(haystack, needle, i) <==> MatchesIgnoringCaseAt(Lower(haystack), needle, i)
  {
    if i + |needle| <= |haystack| {
      var part := haystack[i..i + |needle|];
      assert Lower(Lower(haystack)[i..i + |needle|]) == Lower(part) by {
        forall j | 0 <= j < |part| ensures Lower(Lower(haystack)[i..i + |needle|])[j] == Lower(part)[j] {
          assert Lower(haystack)[i + j] == LowerByte(haystack[i + j]);
        }
      }
    }
  }

  /** `stripos` finds the same position in a string and in its lower-cased copy. */
  lemma StriposIgnoresCase(haystack: string, needle: string)
    ensures Stripos(Lower(haystack), needle) == Stripos(haystack, needle)
  {
    forall i: nat ensures MatchesIgnoringCaseAt(haystack, needle, i) <==> MatchesIgnoringCaseAt(Lower(haystack), needle, i) {
      MatchIgnoresCaseOfHaystack(haystack, needle, i);
    }
    var a, b := Stripos(Lower(haystack), needle), Stripos(haystack, needle);
    if a.Some? && b.Some? {
      assert !(a.value < b.value) && !(b.value < a.value);
    }
  }

  /** PHP truthiness of a string: only "" and "0" are false. */
  predicate IsTruthy(s: string) {
    s != "" && s != "0"
  }

  /** PHP truthiness of a `?string`: null is false. */
  predicate IsTruthyOrNull(s: Option<string>) {
    s.Some? && IsTruthy(s.value)
  }

  // Decimal integer strings

  predicate IsDigit(c: char) {
    '0' <= c <= '9'
  }

  function DigitValue(c: char): nat
    requires IsDigit(c)
  {
    c as int - '0' as int
  }

  function DigitChar(d: nat): (c: char)
    requires d < 10
    ensures IsDigit(c) && DigitValue(c) == d
  {
    ('0' as int + d) as char
  }

  predicate AllDigits(s: string) {
    forall i :: 0 <= i < |s| ==> IsDigit(s[i])
  }

  /** The value of a string of decimal digits, most significant first. */
  function DigitsValue(s: string): nat
    requires AllDigits(s)
  {
    if s == [] then 0 else DigitsValue(s[..|s| - 1]) * 10 + DigitValue(s[|s| - 1])
  }

  /** Digits with no leading zero, except "0" itself. */
  predicate IsCanonicalNatural(s: string) {
    |s| > 0 && AllDigits(s) && (s[0] == '0' ==> |s| == 1)
  }

  /** A string PHP reads as an integer key: a canonical natural, or '-' before a non-zero one ("-0" is not). */
  predicate IsCanonicalInteger(s: string) {
    IsCanonicalNatural(s) || (|s| >= 2 && s[0] == '-' && s[1] != '0' && IsCanonicalNatural(s[1..]))
  }

  function IntegerValue(s: string): int
    requires IsCanonicalInteger(s)
  {
    if s[0] == '-' then -(DigitsValue(s[1..]) as int) else DigitsValue(s)
  }

  /** The decimal text of a natural number, as PHP prints it. */
  function NaturalString(n: nat): (s: string)
    ensures IsCanonicalNatural(s) && DigitsValue(s) == n
  {
    if n < 10 then [DigitChar(n)]
    else
      var prefix := NaturalString(n / 10);
      var s := prefix + [DigitChar(n % 10)];
      assert s[..|s| - 1] == prefix;
      s
  }

  /** `(string)$n` for an integer `$n`. */
  function IntegerString(n: int): string {
    if n < 0 then "-" + NaturalString(-n) else NaturalString(n)
  }

  /** Printing an integer gives a string PHP reads back as that same integer. */
  lemma IntegerStringRoundTrip(n: int)
    ensures IsCanonicalInteger(IntegerString(n)) && IntegerValue(IntegerString(n)) == n
  {
    var s := IntegerString(n);
    if n < 0 {
      assert s[1..] == NaturalString(-n);
    }
  }

  /** A canonical natural with a non-zero first digit has a positive value. */
  lemma {:induction false} LeadingDigitPositive(s: string)
    requires |s| > 0 && AllDigits(s) && s[0] != '0'
    ensures DigitsValue(s) > 0
  {
    if |s| > 1 {
      LeadingDigitPositive(s[..|s| - 1]);
    }
  }

  /** Dividing by ten undoes appending a decimal digit. */
  lemma AppendDigit(v: nat, d: nat)
    requires d < 10
    ensures (v * 10 + d) / 10 == v && (v * 10 + d) % 10 == d
  {
  }

  /** Reading a canonical natural and printing the value gives back the same string. */
  lemma {:induction false} NaturalStringOfValue(s: string)
    requires IsCanonicalNatural(s)
    ensures NaturalString(DigitsValue(s)) == s
  {
    if |s| == 1 {
      assert DigitChar(DigitValue(s[0])) == s[0];
    } else {
      var prefix, last := s[..|s| - 1], s[|s| - 1];
      var v, d := DigitsValue(prefix), DigitValue(last);
      assert DigitsValue(s) == v * 10 + d;
      LeadingDigitPositive(prefix);
      AppendDigit(v, d);
      NaturalStringOfValue(prefix);
      assert DigitChar(d) == last;
      assert NaturalString(v * 10 + d) == NaturalString(v) + [DigitChar(d)];
      assert s == prefix + [last];
    }
  }

  /** Reading a canonical integer string and printing the value gives back the same string. */
  lemma IntegerStringOfValue(s: string)
    requires IsCanonicalInteger(s)
    ensures IntegerString(IntegerValue(s)) == s
  {
    if s[0] == '-' {
      LeadingDigitPositive(s[1..]);
      NaturalStringOfValue(s[1..]);
      assert s == "-" + s[1..];
    } else {
      NaturalStringOfValue(s);
    }
  }
}
