// Numbers in address texts: printing in base 10 or 16, and the reader used by Rust's address parsers, which
// takes the longest run of digits and then checks the digit count, the leading zero and the range.

module Numerals {
  import opened Wrappers

  predicate Radix(radix: nat) {
    radix == 10 || radix == 16
  }

  /** The value of a digit character of any base up to 16; hexadecimal letters are read in either case. */
  function DigitValue(c: char): nat {
    if '0' <= c <= '9' then (c - '0') as nat
    else if 'a' <= c <= 'f' then (c - 'a') as nat + 10
    else if 'A' <= c <= 'F' then (c - 'A') as nat + 10
    else 16
  }

  predicate IsDigit(c: char, radix: nat) {
    DigitValue(c) < radix
  }

  predicate AllDigits(s: string, radix: nat) {
    forall i | 0 <= i < |s| :: IsDigit(s[i], radix)
  }

  function Value(s: string, radix: nat): nat
    requires AllDigits(s, radix)
  {
    if s == "" then 0 else Value(s[..|s| - 1], radix) * radix + DigitValue(s[|s| - 1])
  }

  function DigitChar(d: nat): (c: char)
    requires d < 16
    ensures DigitValue(c) == d && c != '.' && c != ':'
    ensures c == '0' <==> d == 0
  {
    "0123456789abcdef"[d]
  }

  /** The text of n without leading zeros. */
  function Digits(n: nat, radix: nat): (s: string)
    requires Radix(radix)
    ensures s != "" && AllDigits(s, radix) && Value(s, radix) == n
    ensures n > 0 ==> s[0] != '0'
    ensures n < radix ==> |s| == 1
  {
    if n < radix then
      var s := [DigitChar(n)];
      assert s[..0] == "";
      s
    else
      var front, last := Digits(n / radix, radix), DigitChar(n % radix);
      assert (front + [last])[..|front|] == front;
      front + [last]
  }

  function Pow(b: nat, e: nat): nat {
    if e == 0 then 1 else b * Pow(b, e - 1)
  }

  lemma {:induction false} DigitsLength(n: nat, radix: nat, k: nat)
    requires Radix(radix) && 1 <= k && n < Pow(radix, k)
    ensures |Digits(n, radix)| <= k
  {
    if n >= radix {
      assert n / radix < Pow(radix, k - 1);
      DigitsLength(n / radix, radix, k - 1);
    }
  }

  /** The number of digits that s starts with. */
  function RunLength(s: string, radix: nat): (n: nat)
    ensures n <= |s| && AllDigits(s[..n], radix)
    ensures n < |s| ==> !IsDigit(s[n], radix)
  {
    if s == "" || !IsDigit(s[0], radix) then 0
    else
      var n := 1 + RunLength(s[1..], radix);
      assert forall i | 0 < i < n :: s[i] == s[1..][..n - 1][i - 1];
      n
  }

  /** Reads one number off the front of s, giving its value and the text that follows it. */
  function ReadNumber(s: string, radix: nat, maxDigits: Option<nat>, allowZeroPrefix: bool, bound: nat)
    : (r: Option<(nat, string)>)
    ensures r.Some? ==> r.value.0 < bound && s != "" && IsDigit(s[0], radix) && |r.value.1| < |s|
    ensures r.Some? && r.value.1 != "" ==> !IsDigit(r.value.1[0], radix)
  {
    var n := RunLength(s, radix);
    if n == 0 || (maxDigits.Some? && n > maxDigits.value) then None
    else if !allowZeroPrefix && s[0] == '0' && n > 1 then None
    else if Value(s[..n], radix) >= bound then None
    else Some((Value(s[..n], radix), s[n..]))
  }

  lemma {:induction false} RunLengthStops(d: string, rest: string, radix: nat)
    requires AllDigits(d, radix)
    requires rest != "" ==> !IsDigit(rest[0], radix)
    ensures RunLength(d + rest, radix) == |d|
  {
    if d != "" {
      RunLengthStops(d[1..], rest, radix);
      assert (d + rest)[1..] == d[1..] + rest;
    } else {
      assert d + rest == rest;
    }
  }

  /** A printed number that fits the reader's limits is read back, whatever non-digit follows it. */
  lemma ReadPrinted(n: nat, radix: nat, maxDigits: Option<nat>, allowZeroPrefix: bool, bound: nat, rest: string)
    requires Radix(radix) && n < bound
    requires rest != "" ==> !IsDigit(rest[0], radix)
    requires maxDigits.Some? ==> |Digits(n, radix)| <= maxDigits.value
    ensures ReadNumber(Digits(n, radix) + rest, radix, maxDigits, allowZeroPrefix, bound) == Some((n, rest))
  {
    var d := Digits(n, radix);
    RunLengthStops(d, rest, radix);
    assert (d + rest)[..|d|] == d && (d + rest)[|d|..] == rest;
    assert (d + rest)[0] == d[0];
  }

  lemma {:induction false} LeadingDigitCounts(s: string)
    requires AllDigits(s, 10) && s != "" && s[0] != '0'
    ensures Value(s, 10) > 0
  {
    if |s| == 1 {
      assert s[..0] == "";
    } else {
      LeadingDigitCounts(s[..|s| - 1]);
    }
  }

  /** Decimal digits without a superfluous leading zero are the printed text of their value. */
  lemma {:induction false} DecimalIsPrinted(s: string)
    requires AllDigits(s, 10) && s != "" && (s[0] == '0' ==> |s| == 1)
    ensures Digits(Value(s, 10), 10) == s
  {
    var n := |s| - 1;
    var front, last := s[..n], DigitValue(s[n]);
    assert DigitChar(last) == s[n];
    assert s == front + [s[n]];
    if n == 0 {
      assert Value(front, 10) == 0;
    } else {
      LeadingDigitCounts(front);
      DecimalIsPrinted(front);
      assert Value(s, 10) / 10 == Value(front, 10) && Value(s, 10) % 10 == last;
    }
  }
}
