/** The fragment of PHP's string and integer semantics that the archiver and
    the subscription plugin depend on: `explode`, `implode`, `substr`,
    `strpos`, `intval`, integer-to-string conversion, zero padding as done by
    date formatting, and `empty` on strings. Strings are sequences of
    single-byte characters. */
module Php {

  /** PHP's `null` next to a value: `None` is null (or an unset array key). */
  datatype Option<+T> = None | Some(value: T) {
    predicate IsFailure() {
      None?
    }

    function PropagateFailure<U>(): Option<U>
      requires None?
    {
      None
    }

    function Extract(): T
      requires Some?
    {
      value
    }
  }

  predicate IsDigit(c: char) {
    '0' <= c <= '9'
  }

  predicate AllDigits(s: string) {
    forall i :: 0 <= i < |s| ==> IsDigit(s[i])
  }

  /** Number of occurrences of `c` in `s`. */
  function Count(s: string, c: char): nat {
    if |s| == 0 then 0 else (if s[0] == c then 1 else 0) + Count(s[1..], c)
  }

  lemma {:induction false} CountAppend(a: string, b: string, c: char)
    ensures Count(a + b, c) == Count(a, c) + Count(b, c)
    decreases |a|
  {
    if |a| == 0 {
      assert a + b == b;
    } else {
      assert (a + b)[1..] == a[1..] + b;
      CountAppend(a[1..], b, c);
    }
  }

  lemma {:induction false} CountAbsent(s: string, c: char)
    ensures c !in s <==> Count(s, c) == 0
    decreases |s|
  {
    if |s| > 0 {
      assert s == [s[0]] + s[1..];
      CountAbsent(s[1..], c);
    }
  }

  // ---------------------------------------------------------------------
  // implode / explode with a one-character separator
  // ---------------------------------------------------------------------

  /** `implode(sep, parts)`. */
  function Implode(parts: seq<string>, sep: char): string {
    if |parts| == 0 then ""
    else if |parts| == 1 then parts[0]
    else parts[0] + [sep] + Implode(parts[1..], sep)
  }

  /** `explode(sep, s)`: the maximal separator-free pieces of `s`, in order.
      There is always one more piece than there are separators, so the empty
      string explodes to one empty piece. */
  function Explode(s: string, sep: char): (parts: seq<string>)
    ensures |parts| == Count(s, sep) + 1
    ensures forall i :: 0 <= i < |parts| ==> sep !in parts[i]
    ensures Implode(parts, sep) == s
    decreases |s|
  {
    if |s| == 0 then [""]
    else
      var rest := Explode(s[1..], sep);
      if s[0] == sep then
        assert s == [sep] + s[1..];
        [""] + rest
      else
        var first := [s[0]] + rest[0];
        var parts := [first] + rest[1..];
        assert s == [s[0]] + s[1..];
        assert |rest| > 1 ==> Implode(rest, sep) == rest[0] + [sep] + Implode(rest[1..], sep);
        assert |rest| > 1 ==> Implode(parts, sep) == first + [sep] + Implode(rest[1..], sep) by {
          if |rest| > 1 {
            assert parts[1..] == rest[1..];
          }
        }
        parts
  }

  /** A separator-free string explodes to itself. */
  lemma {:induction false} ExplodeSingle(a: string, sep: char)
    requires sep !in a
    ensures Explode(a, sep) == [a]
  {
    CountAbsent(a, sep);
    var parts := Explode(a, sep);
    assert |parts| == 1;
  }

  /** Exploding peels off the separator-free text before the first separator. */
  lemma {:induction false} ExplodeCons(a: string, b: string, sep: char)
    requires sep !in a
    ensures Explode(a + [sep] + b, sep) == [a] + Explode(b, sep)
    decreases |a|
  {
    var s := a + [sep] + b;
    if |a| == 0 {
      assert s[1..] == b;
    } else {
      assert s[1..] == a[1..] + [sep] + b;
      ExplodeCons(a[1..], b, sep);
      assert [a[0]] + a[1..] == a;
    }
  }

  /** Round trip: exploding the implosion of separator-free pieces gives the
      pieces back. */
  lemma {:induction false} ExplodeImplode(parts: seq<string>, sep: char)
    requires |parts| >= 1
    requires forall i :: 0 <= i < |parts| ==> sep !in parts[i]
    ensures Explode(Implode(parts, sep), sep) == parts
    decreases |parts|
  {
    if |parts| == 1 {
      ExplodeSingle(parts[0], sep);
    } else {
      ExplodeImplode(parts[1..], sep);
      ExplodeCons(parts[0], Implode(parts[1..], sep), sep);
      assert [parts[0]] + parts[1..] == parts;
    }
  }

  // ---------------------------------------------------------------------
  // substr and strpos
  // ---------------------------------------------------------------------

  /** `substr(s, start, length)` for a non-negative start and length. A start
      at or past the end yields the empty string (PHP 5 returns false there,
      which concatenates as the empty string). */
  function Substr(s: string, start: nat, length: nat): (r: string)
    ensures start >= |s| ==> r == ""
    ensures start < |s| ==> |r| == if start + length <= |s| then length else |s| - start
    ensures forall k :: 0 <= k < |r| ==> start + k < |s| && r[k] == s[start + k]
  {
    if start >= |s| then ""
    else if start + length <= |s| then s[start..start + length]
    else s[start..]
  }

  /** A substring inside `p` is not affected by what follows `p`. */
  lemma SubstrAppendLeft(p: string, r: string, start: nat, length: nat)
    requires start + length <= |p|
    ensures Substr(p + r, start, length) == Substr(p, start, length)
  {
    if start < |p| {
      assert (p + r)[start..start + length] == p[start..start + length];
    }
  }

  /** The substring at the end of `p + m` with the length of `m` is `m`. */
  lemma SubstrAppendRight(p: string, m: string)
    ensures Substr(p + m, |p|, |m|) == m
  {
    if |m| > 0 {
      assert (p + m)[|p|..|p| + |m|] == m;
    }
  }

  /** `needle` occurs in `haystack` starting at index `i`. */
  predicate OccursAt(haystack: string, needle: string, i: nat) {
    i + |needle| <= |haystack| && haystack[i..i + |needle|] == needle
  }

  /** `strpos(haystack, needle, from)`: the first index at or after `from`
      where `needle` occurs, or `None` (PHP's false). */
  function StrposFrom(haystack: string, needle: string, from: nat): (r: Option<nat>)
    ensures r.Some? ==> from <= r.value && OccursAt(haystack, needle, r.value)
    ensures r.Some? ==> forall j :: from <= j < r.value ==> !OccursAt(haystack, needle, j)
    ensures r.None? ==> forall j :: from <= j ==> !OccursAt(haystack, needle, j)
    decreases |haystack| - from
  {
    if from + |needle| > |haystack| then None
    else if haystack[from..from + |needle|] == needle then Some(from)
    else StrposFrom(haystack, needle, from + 1)
  }

  function Strpos(haystack: string, needle: string): Option<nat> {
    StrposFrom(haystack, needle, 0)
  }

  predicate StartsWith(s: string, prefix: string) {
    |prefix| <= |s| && s[..|prefix|] == prefix
  }

  lemma PrefixOfAppend(a: string, b: string)
    ensures StartsWith(a + b, a)
  {
    assert (a + b)[..|a|] == a;
  }

  lemma SuffixOfAppend(a: string, b: string)
    ensures (a + b)[|a|..] == b
  {
  }

  /** `strpos(s, p) === 0` is exactly "s starts with p". */
  lemma StrposZeroIsPrefix(s: string, p: string)
    ensures Strpos(s, p) == Some(0) <==> StartsWith(s, p)
  {
    if StartsWith(s, p) {
      assert OccursAt(s, p, 0);
    }
  }

  // ---------------------------------------------------------------------
  // Integers as decimal text
  // ---------------------------------------------------------------------

  function DigitChar(d: nat): (c: char)
    requires d < 10
    ensures IsDigit(c) && c as int - '0' as int == d
  {
    ('0' as int + d) as char
  }

  /** Decimal digits of a natural number, without leading zeros. */
  function Digits(n: nat): (s: string)
    ensures |s| >= 1 && AllDigits(s)
  {
    if n < 10 then [DigitChar(n)] else Digits(n / 10) + [DigitChar(n % 10)]
  }

  /** PHP's conversion of an integer to a string (`strval`, concatenation). */
  function IntToString(n: int): string {
    if n < 0 then "-" + Digits(-n) else Digits(n)
  }

  /** The value of a run of decimal digits (0 for the empty run). */
  function DigitsValue(s: string): nat
    requires AllDigits(s)
  {
    if |s| == 0 then 0 else DigitsValue(s[..|s| - 1]) * 10 + (s[|s| - 1] as int - '0' as int)
  }

  /** The longest prefix of `s` made of decimal digits. */
  function LeadingDigits(s: string): (r: string)
    ensures AllDigits(r) && StartsWith(s, r)
    ensures |r| < |s| ==> !IsDigit(s[|r|])
  {
    if |s| == 0 || !IsDigit(s[0]) then "" else [s[0]] + LeadingDigits(s[1..])
  }

  predicate IsSpace(c: char) {
    c == ' ' || c == '\t' || c == '\n' || c == '\r' || c == 11 as char || c == 12 as char
  }

  function TrimLeadingSpace(s: string): (r: string)
    ensures |r| <= |s| && r == s[|s| - |r|..]
    ensures |r| > 0 ==> !IsSpace(r[0])
  {
    if |s| > 0 && IsSpace(s[0]) then TrimLeadingSpace(s[1..]) else s
  }

  /** `intval` of a string (also PHP's loose string-to-integer conversion):
      leading white space, an optional sign, then the longest run of digits;
      a string with no digits there is 0. */
  function IntVal(s: string): (r: int)
    ensures var t := TrimLeadingSpace(s);
            |t| == 0 || !(IsDigit(t[0]) || t[0] == '-' || t[0] == '+') ==> r == 0
    ensures r < 0 ==> |TrimLeadingSpace(s)| > 0 && TrimLeadingSpace(s)[0] == '-'
  {
    var t := TrimLeadingSpace(s);
    if |t| > 0 && t[0] == '-' then -(DigitsValue(LeadingDigits(t[1..])) as int)
    else if |t| > 0 && t[0] == '+' then DigitsValue(LeadingDigits(t[1..]))
    else DigitsValue(LeadingDigits(t))
  }

  lemma {:induction false} DigitsValueOfDigits(n: nat)
    ensures DigitsValue(Digits(n)) == n
  {
    var s := Digits(n);
    if n >= 10 {
      DigitsValueOfDigits(n / 10);
      assert s[..|s| - 1] == Digits(n / 10);
    }
  }

  lemma {:induction false} LeadingDigitsOfDigitString(s: string)
    requires AllDigits(s)
    ensures LeadingDigits(s) == s
    decreases |s|
  {
    if |s| > 0 {
      LeadingDigitsOfDigitString(s[1..]);
    }
  }

  lemma IntValOfDigits(n: nat)
    ensures IntVal(Digits(n)) == n
  {
    var t := Digits(n);
    assert TrimLeadingSpace(t) == t;
    LeadingDigitsOfDigitString(t);
    DigitsValueOfDigits(n);
  }

  lemma IntValOfNegative(n: nat)
    requires n > 0
    ensures IntVal("-" + Digits(n)) == -(n as int)
  {
    var t := "-" + Digits(n);
    assert TrimLeadingSpace(t) == t;
    assert t[1..] == Digits(n);
    LeadingDigitsOfDigitString(Digits(n));
    DigitsValueOfDigits(n);
  }

  /** Round trip: `intval(strval(n)) == n`. */
  lemma IntValOfIntToString(n: int)
    ensures IntVal(IntToString(n)) == n
  {
    if n < 0 {
      IntValOfNegative(-n);
    } else {
      IntValOfDigits(n);
    }
  }

  /** Decimal text never contains a separator character other than digits
      and the minus sign. */
  lemma IntToStringChars(n: int, c: char)
    requires !IsDigit(c) && c != '-'
    ensures c !in IntToString(n)
  {
    var s := IntToString(n);
    if n < 0 {
      assert s[1..] == Digits(-n);
      assert forall i :: 1 <= i < |s| ==> s[i] == s[1..][i - 1];
    }
  }

  /** `n` in decimal, left-padded with zeros to at least `width` characters,
      as `DateTime::format` renders `Y`, `m`, `d`, `H`, `i` and `s`. */
  function ZeroPad(n: nat, width: nat): (s: string)
    ensures AllDigits(s)
    ensures |s| == if |Digits(n)| < width then width else |Digits(n)|
    ensures forall i :: 0 <= i < |s| - |Digits(n)| ==> s[i] == '0'
    ensures s[|s| - |Digits(n)|..] == Digits(n)
  {
    var d := Digits(n);
    if |d| < width then seq(width - |d|, _ => '0') + d else d
  }

  function Pow10(k: nat): nat {
    if k == 0 then 1 else 10 * Pow10(k - 1)
  }

  /** A number below 10^k has at most k decimal digits. */
  lemma {:induction false} DigitsLength(n: nat, k: nat)
    requires k >= 1 && n < Pow10(k)
    ensures |Digits(n)| <= k
  {
    if n >= 10 {
      assert k > 1;
      assert n / 10 < Pow10(k - 1);
      DigitsLength(n / 10, k - 1);
    }
  }

  // ---------------------------------------------------------------------
  // empty()
  // ---------------------------------------------------------------------

  /** `empty($s)` for a string: the empty string and "0" are empty. */
  predicate EmptyString(s: string) {
    s == "" || s == "0"
  }
}
