/**
 * String helpers that Ruby, Rails and JavaScript provide to the application:
 * `blank?`, `strip`, `downcase`, `ERB::Util.html_escape`, `String#truncate`,
 * decimal formatting of integers and JavaScript's `parseInt`.
 * Character classes are the ASCII ones (see README, "Left out").
 */
module Text {
  import opened Wrappers

  /** Ruby's and JavaScript's `\s`: space, tab, line feed, vertical tab, form feed, carriage return. */
  predicate IsSpace(c: char) {
    c == ' ' || c == '\t' || c == '\n' || c == '\U{0B}' || c == '\U{0C}' || c == '\r'
  }

  /** Rails `blank?` on a string: empty or whitespace only. */
  predicate IsBlank(s: string) {
    forall i :: 0 <= i < |s| ==> IsSpace(s[i])
  }

  /** Ruby's `strip` also removes NUL characters. */
  predicate IsStripped(c: char) {
    IsSpace(c) || c == '\U{0}'
  }

  function StripLeft(s: string): (r: string)
    ensures |r| <= |s| && r == s[|s| - |r|..]
    ensures r != [] ==> !IsStripped(r[0])
    ensures forall i :: 0 <= i < |s| - |r| ==> IsStripped(s[i])
  {
    if s != [] && IsStripped(s[0]) then StripLeft(s[1..]) else s
  }

  function StripRight(s: string): (r: string)
    ensures |r| <= |s| && r == s[..|r|]
    ensures r != [] ==> !IsStripped(r[|r| - 1])
    ensures forall i :: |r| <= i < |s| ==> IsStripped(s[i])
  {
    if s != [] && IsStripped(s[|s| - 1]) then StripRight(s[..|s| - 1]) else s
  }

  /** Ruby `String#strip`. */
  function Strip(s: string): string {
    StripRight(StripLeft(s))
  }

  /** Stripping twice is stripping once. */
  lemma StripIdempotent(s: string)
    ensures Strip(Strip(s)) == Strip(s)
  {
    var t := Strip(s);
    assert t != [] ==> !IsStripped(t[0]) by {
      if t != [] {
        var l := StripLeft(s);
        assert t == l[..|t|];
      }
    }
  }

  function LowerChar(c: char): char {
    if 'A' <= c <= 'Z' then (c as int + 32) as char else c
  }

  function UpperChar(c: char): char {
    if 'a' <= c <= 'z' then (c as int - 32) as char else c
  }

  /** Ruby `downcase` / SQL `LOWER` / JavaScript `toLowerCase` on ASCII letters. */
  function Downcase(s: string): (r: string)
    ensures |r| == |s|
    ensures forall i :: 0 <= i < |s| ==> r[i] == LowerChar(s[i])
  {
    if s == [] then [] else [LowerChar(s[0])] + Downcase(s[1..])
  }

  function Upcase(s: string): (r: string)
    ensures |r| == |s|
    ensures forall i :: 0 <= i < |s| ==> r[i] == UpperChar(s[i])
  {
    if s == [] then [] else [UpperChar(s[0])] + Upcase(s[1..])
  }

  predicate StartsWith(s: string, prefix: string) {
    |prefix| <= |s| && s[..|prefix|] == prefix
  }

  predicate EndsWith(s: string, suffix: string) {
    |suffix| <= |s| && s[|s| - |suffix|..] == suffix
  }

  /** `ERB::Util.html_escape` of one character. */
  function EscapeChar(c: char): string {
    if c == '&' then "&amp;"
    else if c == '<' then "&lt;"
    else if c == '>' then "&gt;"
    else if c == '"' then "&quot;"
    else if c == '\'' then "&#39;"
    else [c]
  }

  /** `ERB::Util.html_escape`: the result holds no markup-significant character. */
  function HtmlEscape(s: string): (r: string)
    ensures forall i :: 0 <= i < |r| ==> r[i] != '<' && r[i] != '>' && r[i] != '"'
    ensures |r| >= |s|
  {
    if s == [] then [] else EscapeChar(s[0]) + HtmlEscape(s[1..])
  }

  /** Characters that `html_escape` leaves alone come through unchanged. */
  lemma {:induction false} HtmlEscapePlain(s: string)
    requires forall i :: 0 <= i < |s| ==> s[i] !in "&<>\"'"
    ensures HtmlEscape(s) == s
  {
    if s != [] {
      HtmlEscapePlain(s[1..]);
    }
  }

  lemma {:induction false} HtmlEscapeAppend(a: string, b: string)
    ensures HtmlEscape(a + b) == HtmlEscape(a) + HtmlEscape(b)
  {
    if a != [] {
      assert (a + b)[1..] == a[1..] + b;
      HtmlEscapeAppend(a[1..], b);
    } else {
      assert a + b == b;
    }
  }

  /**
   * Rails `String#truncate(length)` with the default omission "...":
   * unchanged when it fits, otherwise the first `length - 3` characters and "...".
   */
  function Truncate(s: string, length: nat): (r: string)
    requires length >= 3
    ensures |s| <= length ==> r == s
    ensures |s| > length ==> |r| == length && EndsWith(r, "...") && r[..length - 3] == s[..length - 3]
  {
    if |s| <= length then s else s[..length - 3] + "..."
  }

  function DigitChar(d: nat): char
    requires d < 10
  {
    ('0' as int + d) as char
  }

  predicate IsDigit(c: char) {
    '0' <= c <= '9'
  }

  function DigitValue(c: char): nat
    requires IsDigit(c)
  {
    c as int - '0' as int
  }

  /** Decimal notation of a natural number, as Ruby's `to_s` or JavaScript string interpolation writes it. */
  function NatToString(n: nat): (r: string)
    ensures r != []
    ensures forall i :: 0 <= i < |r| ==> IsDigit(r[i])
  {
    if n < 10 then [DigitChar(n)] else NatToString(n / 10) + [DigitChar(n % 10)]
  }

  /** Decimal notation of an integer, with a leading minus sign when negative. */
  function IntToString(i: int): (r: string)
    ensures i >= 0 ==> r == NatToString(i)
    ensures i < 0 ==> r == "-" + NatToString(-i)
  {
    if i < 0 then "-" + NatToString(-i) else NatToString(i)
  }

  /** The value of a string of decimal digits. */
  function DigitsValue(s: string): nat
    requires forall i :: 0 <= i < |s| ==> IsDigit(s[i])
  {
    if s == [] then 0 else 10 * DigitsValue(s[..|s| - 1]) + DigitValue(s[|s| - 1])
  }

  /** Reading back the decimal notation of `n` gives `n`. */
  lemma {:induction false} DigitsValueOfNatToString(n: nat)
    ensures DigitsValue(NatToString(n)) == n
  {
    if n >= 10 {
      var s := NatToString(n);
      assert s[..|s| - 1] == NatToString(n / 10);
      DigitsValueOfNatToString(n / 10);
    }
  }

  /** The longest prefix of `s` made of decimal digits. */
  function DigitPrefix(s: string): (r: string)
    ensures |r| <= |s| && r == s[..|r|]
    ensures forall i :: 0 <= i < |r| ==> IsDigit(r[i])
    ensures |r| < |s| ==> !IsDigit(s[|r|])
  {
    if s != [] && IsDigit(s[0]) then [s[0]] + DigitPrefix(s[1..]) else []
  }

  /**
   * JavaScript `parseInt(s, 10)`: skips leading whitespace, reads an optional sign and the
   * longest run of digits that follows; `None` stands for NaN.
   */
  function ParseInt(s: string): (r: Option<int>)
    ensures r.Some? ==> exists i :: 0 <= i < |s| && IsDigit(s[i])
  {
    var t := StripLeftSpaces(s);
    var negative := t != [] && t[0] == '-';
    var u := if t != [] && (t[0] == '-' || t[0] == '+') then t[1..] else t;
    var digits := DigitPrefix(u);
    if digits == [] then None
    else
      assert IsDigit(s[|s| - |u|]) by { assert u[0] == s[|s| - |u|]; }
      var v: int := DigitsValue(digits);
      Some(if negative then -v else v)
  }

  function StripLeftSpaces(s: string): (r: string)
    ensures |r| <= |s| && r == s[|s| - |r|..]
  {
    if s != [] && IsSpace(s[0]) then StripLeftSpaces(s[1..]) else s
  }

  /** `parseInt` reads back what `NatToString` wrote, whatever follows a non-digit. */
  lemma ParseIntOfNatToString(n: nat, rest: string)
    requires rest == [] || !IsDigit(rest[0])
    ensures ParseInt(NatToString(n) + rest) == Some(n)
  {
    var s := NatToString(n) + rest;
    assert StripLeftSpaces(s) == s;
    assert DigitPrefix(s) == NatToString(n) by { DigitPrefixOfDigits(NatToString(n), rest); }
    DigitsValueOfNatToString(n);
  }

  lemma {:induction false} DigitPrefixOfDigits(d: string, rest: string)
    requires forall i :: 0 <= i < |d| ==> IsDigit(d[i])
    requires rest == [] || !IsDigit(rest[0])
    ensures DigitPrefix(d + rest) == d
  {
    if d != [] {
      assert (d + rest)[1..] == d[1..] + rest;
      DigitPrefixOfDigits(d[1..], rest);
    } else {
      assert d + rest == rest;
    }
  }

  /** Concatenates the strings of `parts`, separated by `sep` (Ruby's and JavaScript's `join`). */
  function Join(parts: seq<string>, sep: string): string {
    if parts == [] then ""
    else if |parts| == 1 then parts[0]
    else parts[0] + sep + Join(parts[1..], sep)
  }
  /** Splits `s` at every `sep` (Ruby's `split(sep, -1)`): empty pieces are kept. */
  function SplitOn(s: string, sep: char): (r: seq<string>)
    ensures |r| >= 1
  {
    if s == [] then [""]
    else
      var rest := SplitOn(s[1..], sep);
      if s[0] == sep then [""] + rest else [[s[0]] + rest[0]] + rest[1..]
  }

  predicate IsAsciiLetter(c: char) {
    'a' <= c <= 'z' || 'A' <= c <= 'Z'
  }

  predicate IsAlnum(c: char) {
    IsAsciiLetter(c) || IsDigit(c)
  }

  /** One dot-separated label of the domain part: 1 to 63 letters, digits or hyphens, no hyphen at either end. */
  predicate IsDomainLabel(s: string) {
    1 <= |s| <= 63 && IsAlnum(s[0]) && IsAlnum(s[|s| - 1])
    && forall i :: 0 <= i < |s| ==> IsAlnum(s[i]) || s[i] == '-'
  }

  /** A character allowed in the local part of an e-mail address. */
  predicate IsLocalChar(c: char) {
    IsAlnum(c) || c in ".!#$%&'*+/=?^_`{|}~-"
  }

  /**
   * Ruby's `URI::MailTo::EMAIL_REGEXP`: a non-empty local part of letters, digits and
   * ".!#$%&'*+/=?^_`{|}~-", one `@`, and a domain of one or more labels separated by dots.
   */
  predicate IsEmailAddress(s: string) {
    LocalPartFrom(s, 0)
  }

  /**
   * From position `k`, the rest of the local part and then the domain. The local part cannot
   * hold an `@`, so the first `@` is the one that separates the two.
   */
  predicate LocalPartFrom(s: string, k: nat)
    decreases |s| - k
  {
    k < |s|
    && if s[k] == '@' then k > 0 && forall part | part in SplitOn(s[k + 1..], '.') :: IsDomainLabel(part)
       else IsLocalChar(s[k]) && LocalPartFrom(s, k + 1)
  }

  /** Remainders of `%` on small non-negative operands, for the wrap-around index steps. */
  lemma RemainderBelow(a: int, n: int)
    requires 0 <= a < n
    ensures a % n == a
  {
  }

  lemma RemainderOfSelf(n: int)
    requires 0 < n
    ensures n % n == 0
  {
  }

  lemma RemainderOfShift(a: int, n: int)
    requires 0 <= a < n
    ensures (a + n) % n == a
  {
  }
}
