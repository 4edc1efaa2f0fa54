// Decimal text: the zero-padded fields of the date formats, C#'s
// invariant-culture `ToString()` of an int or a long, and `int.TryParse`
// with its default number style.
module Decimal {
  import opened Common
  import Positional

  predicate IsDigit(c: char) {
    '0' <= c <= '9'
  }

  predicate AllDigits(s: string) {
    forall i :: 0 <= i < |s| ==> IsDigit(s[i])
  }

  function DigitChar(d: nat): (c: char)
    requires d < 10
    ensures IsDigit(c)
  {
    ('0' as int + d) as char
  }

  function DigitOf(c: char): (d: nat)
    requires IsDigit(c)
    ensures d < 10 && DigitChar(d) == c
  {
    c as int - '0' as int
  }

  function ToChars(ds: seq<nat>): (s: string)
    requires Positional.DigitsBelow(ds, 10)
    ensures |s| == |ds| && AllDigits(s)
  {
    seq(|ds|, i requires 0 <= i < |ds| => DigitChar(ds[i]))
  }

  function ToDigits(s: string): (ds: seq<nat>)
    requires AllDigits(s)
    ensures |ds| == |s| && Positional.DigitsBelow(ds, 10)
  {
    seq(|s|, i requires 0 <= i < |s| => DigitOf(s[i]))
  }

  /** The `w`-digit zero-padded decimal rendering of `n`; digits above the
      width are dropped (the callers keep `n` below 10^w). */
  function Padded(n: nat, w: nat): (s: string)
    ensures |s| == w && AllDigits(s)
  {
    ToChars(Positional.Digits(n, w, 10))
  }

  /** The number a string of decimal digits denotes. */
  function DigitsValue(s: string): nat
    requires AllDigits(s)
  {
    Positional.Value(ToDigits(s), 10)
  }

  lemma PaddedValue(n: nat, w: nat)
    requires n < Positional.Pow(10, w)
    ensures DigitsValue(Padded(n, w)) == n
  {
    var ds := Positional.Digits(n, w, 10);
    assert ToDigits(ToChars(ds)) == ds;
    Positional.DigitsExact(n, w, 10);
  }

  /** A digit string is the padded rendering of its own value, at its own width. */
  lemma ValuePadded(s: string)
    requires AllDigits(s)
    ensures DigitsValue(s) < Positional.Pow(10, |s|)
    ensures Padded(DigitsValue(s), |s|) == s
  {
    var ds := ToDigits(s);
    Positional.ValueBelow(ds, 10);
    Positional.DigitsOfValue(ds, 10);
    assert ToChars(ds) == s;
  }

  /** The number of decimal digits of `n` without leading zeros. */
  function NumDigits(n: nat): (w: nat)
    ensures 1 <= w && n < Positional.Pow(10, w)
    ensures w == 1 || Positional.Pow(10, w - 1) <= n
  {
    if n < 10 then 1 else 1 + NumDigits(n / 10)
  }

  lemma {:induction false} NumDigitsAtMost(n: nat, k: nat)
    requires 1 <= k && n < Positional.Pow(10, k)
    ensures NumDigits(n) <= k
  {
    if n >= 10 {
      assert k >= 2;
      NumDigitsAtMost(n / 10, k - 1);
    }
  }

  /** `n.ToString()` for a non-negative `n`. */
  function NatString(n: nat): (s: string)
    ensures AllDigits(s) && 1 <= |s|
  {
    Padded(n, NumDigits(n))
  }

  /** `n.ToString()` of a C# int or long in the invariant culture. */
  function IntString(n: int): (s: string)
    ensures |s| >= 1
  {
    if n < 0 then "-" + NatString(-n) else NatString(n)
  }

  /** An optional '-' followed by one or more ASCII digits. */
  function ParseInt(s: string): Option<int> {
    if |s| > 1 && s[0] == '-' && AllDigits(s[1..]) then Some(0 - DigitsValue(s[1..]))
    else if |s| > 0 && AllDigits(s) then Some(DigitsValue(s))
    else None
  }

  lemma NatStringValue(n: nat)
    ensures DigitsValue(NatString(n)) == n
  {
    PaddedValue(n, NumDigits(n));
  }

  /** Rendering an integer and reading it back gives the integer. */
  lemma ParseIntString(n: int)
    ensures ParseInt(IntString(n)) == Some(n)
  {
    var s := IntString(n);
    if n < 0 {
      assert s[1..] == NatString(0 - n);
      NatStringValue(0 - n);
    } else {
      NatStringValue(n);
    }
  }

  lemma DigitsAreAscii(s: string)
    requires AllDigits(s)
    ensures IsAscii(s)
  {
  }

  /** `ToString()` of an integer writes only ASCII characters. */
  lemma IntStringAscii(n: int)
    ensures IsAscii(IntString(n))
  {
    DigitsAreAscii(NatString(if n < 0 then 0 - n else n));
  }

  /** A long renders in at most 20 characters: a sign and 19 digits. */
  lemma Int64StringLength(n: int64)
    ensures |IntString(n)| <= 20
  {
    var m: nat := if n < 0 then 0 - n else n;
    assert Positional.Pow(10, 10) == 10_000_000_000;
    assert Positional.Pow(10, 19) == 10_000_000_000_000_000_000;
    NumDigitsAtMost(m, 19);
  }

  /** The white space `int.TryParse` skips: tab, line feed, vertical tab, form feed, carriage return, space. */
  predicate IsWhite(c: char) {
    c == ' ' || '\t' <= c <= '\r'
  }

  function TrimStartWhite(s: string): string {
    if |s| > 0 && IsWhite(s[0]) then TrimStartWhite(s[1..]) else s
  }

  function TrimEndWhite(s: string): string {
    if |s| > 0 && IsWhite(s[|s| - 1]) then TrimEndWhite(s[..|s| - 1]) else s
  }

  function TrimTrailingNuls(s: string): string {
    if |s| > 0 && s[|s| - 1] == '\0' then TrimTrailingNuls(s[..|s| - 1]) else s
  }

  /** `int.TryParse(s, out v)` with the default number style: leading and
      trailing white space, an optional sign, one or more ASCII digits, then
      only NUL characters; a value outside the int range fails. */
  function TryParseInt32(s: string): Option<int32> {
    var t := TrimStartWhite(TrimEndWhite(TrimTrailingNuls(s)));
    var negative := |t| > 0 && t[0] == '-';
    var digits := if |t| > 0 && (t[0] == '-' || t[0] == '+') then t[1..] else t;
    if |digits| == 0 || !AllDigits(digits) then None
    else
      var v: int := if negative then 0 - DigitsValue(digits) else DigitsValue(digits);
      if INT32_MIN <= v <= INT32_MAX then Some(v) else None
  }

  /** `int.TryParse` reads back what `ToString()` wrote. */
  lemma TryParseInt32String(n: int32)
    ensures TryParseInt32(IntString(n)) == Some(n)
  {
    var s := IntString(n);
    var last := s[|s| - 1];
    if n < 0 {
      var m: nat := 0 - n;
      assert last == NatString(m)[|NatString(m)| - 1];
      assert s[1..] == NatString(m);
      NatStringValue(m);
    } else {
      NatStringValue(n);
    }
    assert IsDigit(last);
    assert TrimTrailingNuls(s) == s;
    assert TrimEndWhite(s) == s;
    assert TrimStartWhite(s) == s;
  }
}
