/** String helpers the component relies on: the decimal rendering of a row
    number inside a template literal, and Array.prototype.join. */
module Text {

  predicate IsDigit(c: char) {
    '0' <= c <= '9'
  }

  predicate AllDigits(s: string) {
    forall i :: 0 <= i < |s| ==> IsDigit(s[i])
  }

  function DigitChar(d: nat): (c: char)
    requires d < 10
    ensures IsDigit(c)
  {
    ('0' as int + d) as char
  }

  /** Decimal rendering of a natural number, as `${n}` gives it for an integer:
      at least one digit, and no leading zero unless the number is 0. */
  function NatToString(n: nat): (s: string)
    ensures |s| >= 1 && AllDigits(s)
    ensures s[0] == '0' ==> n == 0 && s == "0"
  {
    if n < 10 then [DigitChar(n)] else NatToString(n / 10) + [DigitChar(n % 10)]
  }

  /** Reads a string of digits back as the number it denotes. */
  function ParseDigits(s: string): nat
    requires AllDigits(s)
  {
    if s == [] then 0
    else ParseDigits(s[..|s| - 1]) * 10 + (s[|s| - 1] as int - '0' as int)
  }

  /** Rendering a number and reading it back gives the number: the row number
      printed in an error message identifies the row. */
  lemma {:induction false} ParseNatToString(n: nat)
    ensures ParseDigits(NatToString(n)) == n
  {
    var s := NatToString(n);
    if n >= 10 {
      ParseNatToString(n / 10);
      assert s[..|s| - 1] == NatToString(n / 10);
    }
  }

  lemma NatToStringInjective(m: nat, n: nat)
    requires NatToString(m) == NatToString(n)
    ensures m == n
  {
    ParseNatToString(m);
    ParseNatToString(n);
  }

  /** Array.prototype.join over strings: the parts in order, `sep` between
      neighbours, nothing for an empty list. */
  function Join(parts: seq<string>, sep: string): (r: string)
    ensures parts == [] ==> r == ""
    ensures |parts| == 1 ==> r == parts[0]
    ensures |parts| > 0 ==> |parts[0]| <= |r| && r[..|parts[0]|] == parts[0]
  {
    if parts == [] then ""
    else if |parts| == 1 then parts[0]
    else parts[0] + sep + Join(parts[1..], sep)
  }

  /** The length of the run of digits a string starts with. */
  function LeadingDigits(s: string): (n: nat)
    ensures n <= |s|
  {
    if s != [] && IsDigit(s[0]) then 1 + LeadingDigits(s[1..]) else 0
  }

  lemma {:induction false} LeadingDigitsOf(d: string, t: string)
    requires AllDigits(d)
    requires |t| > 0 && !IsDigit(t[0])
    ensures LeadingDigits(d + t) == |d|
  {
    if d != [] {
      assert (d + t)[1..] == d[1..] + t;
      LeadingDigitsOf(d[1..], t);
    }
  }

  /** If two digit strings are each followed by text that starts with a
      non-digit, and the results are equal, the digit strings are equal. */
  lemma DigitsPrefixUnique(d1: string, d2: string, t1: string, t2: string)
    requires AllDigits(d1) && AllDigits(d2)
    requires |t1| > 0 && |t2| > 0 && !IsDigit(t1[0]) && !IsDigit(t2[0])
    requires d1 + t1 == d2 + t2
    ensures d1 == d2 && t1 == t2
  {
    LeadingDigitsOf(d1, t1);
    LeadingDigitsOf(d2, t2);
    assert d1 == (d1 + t1)[..|d1|];
    assert d2 == (d2 + t2)[..|d2|];
    assert t1 == (d1 + t1)[|d1|..];
    assert t2 == (d2 + t2)[|d2|..];
  }
}
