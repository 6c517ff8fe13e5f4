/** Page identifiers and the decimal numerals shown to the user.

    An Original page is identified by its source index written as a decimal
    numeral (the template literal `${i}` of App.tsx and index.js); a Merged page
    by a fresh random UUID. A UUID always contains '-', so it is never a numeral,
    and that is all the model needs to know about it. */
module Numerals {
  import opened Prelude

  type PageId = string

  predicate IsDigit(c: char) {
    '0' <= c <= '9'
  }

  predicate AllDigits(s: string) {
    forall i | 0 <= i < |s| :: IsDigit(s[i])
  }

  function DigitChar(d: nat): (c: char)
    requires d < 10
    ensures IsDigit(c)
  {
    ('0' as int + d) as char
  }

  function DigitValue(c: char): (d: nat)
    requires IsDigit(c)
    ensures d < 10 && DigitChar(d) == c
  {
    c as int - '0' as int
  }

  /** The numeral JavaScript produces for a non-negative integer: non-empty, only
      digits, and without a leading zero unless the number is zero. */
  function Decimal(n: nat): (s: string)
    ensures |s| > 0
  {
    if n < 10 then [DigitChar(n)] else Decimal(n / 10) + [DigitChar(n % 10)]
  }

  lemma {:induction false} DecimalShape(n: nat)
    ensures AllDigits(Decimal(n))
    ensures Decimal(n)[0] == '0' ==> n == 0
    ensures n < 10 <==> |Decimal(n)| == 1
  {
    if n >= 10 {
      DecimalShape(n / 10);
    }
  }

  /** Reads a string of digits as a number (most significant digit first). */
  function ParseDecimal(s: string): nat
    requires AllDigits(s)
  {
    if |s| == 0 then 0 else ParseDecimal(s[..|s| - 1]) * 10 + DigitValue(s[|s| - 1])
  }

  /** Reading back a rendered numeral gives the number. */
  lemma {:induction false} ParseDecimalInverts(n: nat)
    ensures AllDigits(Decimal(n)) && ParseDecimal(Decimal(n)) == n
  {
    var s := Decimal(n);
    DecimalShape(n);
    if n < 10 {
      assert s[..0] == [];
    } else {
      DecimalShape(n / 10);
      ParseDecimalInverts(n / 10);
      assert s[..|s| - 1] == Decimal(n / 10);
    }
  }

  /** The id of an Original page determines its source index. */
  lemma DecimalInjective(a: nat, b: nat)
    ensures Decimal(a) == Decimal(b) <==> a == b
  {
    if Decimal(a) == Decimal(b) {
      ParseDecimalInverts(a);
      ParseDecimalInverts(b);
    }
  }

  /** Shape of a freshly generated id: it is not a numeral. */
  predicate FreshShaped(id: PageId) {
    !AllDigits(id)
  }

  /** A fresh id never coincides with the id of any Original page. */
  lemma FreshNeverDecimal(id: PageId, n: nat)
    requires FreshShaped(id)
    ensures id != Decimal(n)
  {
    DecimalShape(n);
  }

  /** `ns.map(String).join(", ")` */
  function JoinDecimals(ns: seq<nat>): string
  {
    if |ns| == 0 then ""
    else if |ns| == 1 then Decimal(ns[0])
    else Decimal(ns[0]) + ", " + JoinDecimals(ns[1..])
  }

  /** The maximal run of digits at the front of `s`. */
  function DigitPrefix(s: string): (d: string)
    ensures |d| <= |s| && d == s[..|d|] && AllDigits(d)
    ensures |d| < |s| ==> !IsDigit(s[|d|])
  {
    if |s| > 0 && IsDigit(s[0]) then [s[0]] + DigitPrefix(s[1..]) else ""
  }

  /** Reads back a list written by `JoinDecimals`; `None` on anything malformed. */
  function ParseDecimalList(s: string): Option<seq<nat>>
  {
    if |s| == 0 then Some([]) else ParseNonEmptyList(s)
  }

  function ParseNonEmptyList(s: string): Option<seq<nat>>
    decreases |s|
  {
    var d := DigitPrefix(s);
    var rest := s[|d|..];
    if |d| == 0 then None
    else if |rest| == 0 then Some([ParseDecimal(d)])
    else if |rest| >= 2 && rest[..2] == ", " then
      match ParseNonEmptyList(rest[2..])
      case None => None
      case Some(tail) => Some([ParseDecimal(d)] + tail)
    else None
  }

  lemma {:induction false} DigitPrefixOfNumeral(d: string, rest: string)
    requires AllDigits(d)
    requires |rest| == 0 || !IsDigit(rest[0])
    ensures DigitPrefix(d + rest) == d
    decreases |d|
  {
    if |d| == 0 {
      assert d + rest == rest;
    } else {
      assert (d + rest)[1..] == d[1..] + rest;
      DigitPrefixOfNumeral(d[1..], rest);
      assert d == [d[0]] + d[1..];
    }
  }

  /** The joined list reads back to the numbers it was written from. */
  lemma {:induction false} ParseJoinInverts(ns: seq<nat>)
    ensures ParseDecimalList(JoinDecimals(ns)) == Some(ns)
    decreases |ns|
  {
    if |ns| == 0 {
    } else if |ns| == 1 {
      var d := Decimal(ns[0]);
      DecimalShape(ns[0]);
      DigitPrefixOfNumeral(d, "");
      assert d + "" == d;
      assert d[|d|..] == "";
      ParseDecimalInverts(ns[0]);
      assert ns == [ns[0]];
    } else {
      var d := Decimal(ns[0]);
      var tail := JoinDecimals(ns[1..]);
      var rest := ", " + tail;
      assert JoinDecimals(ns) == d + rest;
      DecimalShape(ns[0]);
      DigitPrefixOfNumeral(d, rest);
      assert (d + rest)[|d|..] == rest;
      assert rest[..2] == ", " && rest[2..] == tail;
      ParseJoinInverts(ns[1..]);
      assert |ns[1..]| > 0;
      assert |tail| > 0;
      ParseDecimalInverts(ns[0]);
      assert [ns[0]] + ns[1..] == ns;
    }
  }
}
