/** The two string conversions the component relies on: Ruby's
    `String#to_i` (base 10) and Rails' `String#truncate` with its default
    omission, plus `Integer#to_s` as the rendering `to_i` reads back. */
module RubyString {

  /** Whitespace as Ruby's C-level `ISSPACE` sees it: space, tab, line feed,
      vertical tab, form feed, carriage return. */
  predicate IsSpace(c: char) {
    c == ' ' || 9 <= c as int <= 13
  }

  /** Rails' `blank?` on a string: empty or whitespace only. */
  predicate IsBlank(s: string) {
    forall i :: 0 <= i < |s| ==> IsSpace(s[i])
  }

  predicate IsDigit(c: char) {
    '0' <= c <= '9'
  }

  predicate AllDigits(s: string) {
    forall i :: 0 <= i < |s| ==> IsDigit(s[i])
  }

  function DigitValue(c: char): (d: nat)
    requires IsDigit(c)
    ensures d < 10
  {
    c as int - '0' as int
  }

  function Digit(d: nat): (c: char)
    requires d < 10
    ensures IsDigit(c) && DigitValue(c) == d
  {
    ('0' as int + d) as char
  }

  /** `s` without its leading whitespace. */
  function SkipSpace(s: string): (t: string)
    ensures |t| <= |s| && t == s[|s| - |t|..]
    ensures |t| == 0 || !IsSpace(t[0])
    ensures forall i :: 0 <= i < |s| - |t| ==> IsSpace(s[i])
  {
    if |s| > 0 && IsSpace(s[0]) then SkipSpace(s[1..]) else s
  }

  /** The decimal digits at the head of `s`, read the way `to_i` reads them:
      a single `_` between two digits is skipped, anything else ends the
      number. */
  function LeadingDigits(s: string): (ds: string)
    ensures AllDigits(ds)
    ensures |ds| <= |s|
    ensures |ds| == 0 <==> |s| == 0 || !IsDigit(s[0])
  {
    if |s| == 0 || !IsDigit(s[0]) then []
    else if 2 < |s| && s[1] == '_' && IsDigit(s[2]) then [s[0]] + LeadingDigits(s[2..])
    else [s[0]] + LeadingDigits(s[1..])
  }

  /** The value of a string of decimal digits, most significant first. */
  function DigitsValue(ds: string): nat
    requires AllDigits(ds)
  {
    if |ds| == 0 then 0
    else DigitsValue(ds[..|ds| - 1]) * 10 + DigitValue(ds[|ds| - 1])
  }

  /** The first non-blank character is a digit, or a sign followed by a
      digit: the input starts with a number `to_i` can read. */
  predicate StartsWithNumber(s: string) {
    var t := SkipSpace(s);
    |t| > 0 && (IsDigit(t[0]) || ((t[0] == '-' || t[0] == '+') && |t| > 1 && IsDigit(t[1])))
  }

  /** Ruby's `String#to_i`: skip leading whitespace, read an optional sign,
      then as many digits as follow; input that does not start with a number
      yields 0. */
  function ToI(s: string): (n: int)
    ensures n != 0 ==> StartsWithNumber(s)
  {
    var t := SkipSpace(s);
    if |t| > 0 && t[0] == '-' then -(DigitsValue(LeadingDigits(t[1..])) as int)
    else if |t| > 0 && t[0] == '+' then DigitsValue(LeadingDigits(t[1..]))
    else DigitsValue(LeadingDigits(t))
  }

  /** Ruby's `Integer#to_s` for a natural number. */
  function NatToString(n: nat): (s: string)
    ensures |s| > 0 && AllDigits(s)
  {
    if n < 10 then [Digit(n)] else NatToString(n / 10) + [Digit(n % 10)]
  }

  /** Ruby's `Integer#to_s`. */
  function IntToString(n: int): (s: string)
    ensures |s| > 0
  {
    if n < 0 then "-" + NatToString(-n) else NatToString(n)
  }

  lemma {:induction false} LeadingDigitsOfDigits(s: string)
    requires AllDigits(s)
    ensures LeadingDigits(s) == s
  {
    if |s| > 0 {
      LeadingDigitsOfDigits(s[1..]);
    }
  }

  lemma {:induction false} DigitsValueOfNatToString(n: nat)
    ensures DigitsValue(NatToString(n)) == n
  {
    var s := NatToString(n);
    if n >= 10 {
      DigitsValueOfNatToString(n / 10);
      assert s[..|s| - 1] == NatToString(n / 10);
    }
  }

  /** `to_i` reads back every integer `to_s` writes. */
  lemma ToIReadsBackToS(n: int)
    ensures ToI(IntToString(n)) == n
  {
    var s := IntToString(n);
    if n < 0 {
      var m := -n;
      assert s[1..] == NatToString(m);
      LeadingDigitsOfDigits(NatToString(m));
      DigitsValueOfNatToString(m);
    } else {
      LeadingDigitsOfDigits(s);
      DigitsValueOfNatToString(n);
    }
  }

  /** Input whose first non-blank character is neither a digit nor a sign
      followed by a digit reads as 0 (`"abc".to_i == 0`, `"".to_i == 0`). */
  lemma NonNumericToIIsZero(s: string)
    requires !StartsWithNumber(s)
    ensures ToI(s) == 0
  {
  }

  /** Trailing text after the number is ignored (`"12abc".to_i == 12`). */
  lemma {:induction false} ToIIgnoresTrailingText(n: nat, rest: string)
    requires |rest| == 0 || (!IsDigit(rest[0]) && rest[0] != '_')
    ensures ToI(NatToString(n) + rest) == n
  {
    var s := NatToString(n) + rest;
    assert SkipSpace(s) == s;
    LeadingDigitsOfPrefix(NatToString(n), rest);
    DigitsValueOfNatToString(n);
  }

  lemma {:induction false} LeadingDigitsOfPrefix(ds: string, rest: string)
    requires |ds| > 0 && AllDigits(ds)
    requires |rest| == 0 || (!IsDigit(rest[0]) && rest[0] != '_')
    ensures LeadingDigits(ds + rest) == ds
  {
    var s := ds + rest;
    if |ds| == 1 {
      assert s[1..] == rest;
    } else {
      assert s[1..] == ds[1..] + rest;
      LeadingDigitsOfPrefix(ds[1..], rest);
    }
  }

  /** What Rails' `String#truncate` appends to a shortened string by default. */
  const Omission: string := "..."

  /** Rails' `String#truncate(truncateAt)` with the default omission and no
      separator: a string that fits is returned unchanged; a longer one keeps
      its first `truncateAt - 3` characters and gets `"..."` appended (when
      `truncateAt < 3`, Ruby's `self[0, negative]` is nil and only the
      omission remains). */
  function Truncate(s: string, truncateAt: nat): (r: string)
    ensures |s| <= truncateAt ==> r == s
    ensures |s| > truncateAt && truncateAt >= |Omission| ==> |r| == truncateAt < |s|
    ensures |r| <= if truncateAt < |Omission| then |Omission| else truncateAt
  {
    if |s| <= truncateAt then s
    else
      var stop := truncateAt - |Omission|;
      (if stop < 0 then "" else s[..stop]) + Omission
  }

  /** A truncated string is a prefix of the original followed by the omission;
      together with the contract of `Truncate` this says nothing but the tail
      of a long string is lost. */
  lemma TruncateKeepsPrefix(s: string, truncateAt: nat)
    requires truncateAt >= |Omission| && |s| > truncateAt
    ensures var r := Truncate(s, truncateAt);
            r[..truncateAt - |Omission|] == s[..truncateAt - |Omission|]
            && r[truncateAt - |Omission|..] == Omission
  {
  }

  /** Truncating twice is truncating once. */
  lemma TruncateIdempotent(s: string, truncateAt: nat)
    requires truncateAt >= |Omission|
    ensures Truncate(Truncate(s, truncateAt), truncateAt) == Truncate(s, truncateAt)
  {
  }
}
