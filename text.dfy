/** Decimal rendering and reading of integers, as `String(n)` and `Number(s)` do it. */
module Decimal {

  predicate IsDigitChar(ch: char) { '0' <= ch <= '9' }

  predicate AllDigits(s: string) { forall k :: 0 <= k < |s| ==> IsDigitChar(s[k]) }

  function DigitChar(d: int): char
    requires 0 <= d <= 9
  {
    (48 + d) as char
  }

  function DigitValue(ch: char): int { ch as int - 48 }

  /** `String(n)` for n >= 0: decimal digits, most significant first, no leading zero. */
  function NatToString(n: nat): (s: string)
    ensures |s| >= 1 && AllDigits(s)
    ensures |s| > 1 ==> s[0] != '0'
    ensures n < 10 <==> |s| == 1
  {
    if n < 10 then [DigitChar(n)] else NatToString(n / 10) + [DigitChar(n % 10)]
  }

  /** `String(n)` for any integer n: a minus sign before the digits of |n| when n < 0. */
  function IntToString(n: int): string
  {
    if n < 0 then "-" + NatToString(-n) else NatToString(n)
  }

  /** The number a string of decimal digits denotes (0 for the empty string). */
  function ParseDigits(s: string): nat
    requires AllDigits(s)
  {
    if s == [] then 0 else ParseDigits(s[..|s| - 1]) * 10 + DigitValue(s[|s| - 1])
  }

  /** Reading back the digits `String(n)` writes gives n. */
  lemma {:induction false} ParseNatToString(n: nat)
    ensures ParseDigits(NatToString(n)) == n
  {
    if n >= 10 {
      var s := NatToString(n);
      assert s[..|s| - 1] == NatToString(n / 10);
      ParseNatToString(n / 10);
    }
  }

  /** `padStart(2, "0")`: left-pad with '0' to at least two characters. */
  function PadStart2(s: string): (r: string)
    ensures |r| == if |s| >= 2 then |s| else 2
    ensures r[|r| - |s|..] == s && forall k :: 0 <= k < |r| - |s| ==> r[k] == '0'
  {
    if |s| >= 2 then s else seq(2 - |s|, _ => '0') + s
  }

  /** Leading zeros do not change the number a digit string denotes. */
  lemma {:induction false} ParseLeadingZeros(z: string, s: string)
    requires AllDigits(s) && forall k :: 0 <= k < |z| ==> z[k] == '0'
    ensures AllDigits(z + s) && ParseDigits(z + s) == ParseDigits(s)
    decreases |s|
  {
    if s == [] {
      assert z + s == z;
      ZerosParseToZero(z);
    } else {
      var n := |s| - 1;
      assert (z + s)[..|z + s| - 1] == z + s[..n];
      ParseLeadingZeros(z, s[..n]);
    }
  }

  lemma {:induction false} ZerosParseToZero(z: string)
    requires forall k :: 0 <= k < |z| ==> z[k] == '0'
    ensures AllDigits(z) && ParseDigits(z) == 0
  {
    if z != [] {
      ZerosParseToZero(z[..|z| - 1]);
    }
  }
}

/**
  The textual form of a cell used by the user interface: "" for a blank and
  "1".."9" for a digit. The model keeps cells as integers 0..9; these
  conversions are the ones the source applies at the boundary.
 */
module Text {
  import opened Decimal

  /** A cell as the interface stores it: "" or one of "1".."9". */
  predicate IsCellText(s: string) { s == "" || (|s| == 1 && '1' <= s[0] <= '9') }

  /** `v ? String(v) : ""`: the text of a numeric cell. */
  function ToText(v: int): (s: string)
    ensures s == "" <==> v == 0
    ensures 0 <= v <= 9 ==> IsCellText(s)
  {
    if v == 0 then "" else IntToString(v)
  }

  /** `Number(s)` on a text of decimal digits ("" reads as 0). */
  function FromText(s: string): int
    requires AllDigits(s)
  {
    ParseDigits(s)
  }

  /** A non-negative cell value survives the trip to text and back. */
  lemma ValueRoundTrip(v: int)
    requires 0 <= v
    ensures AllDigits(ToText(v)) && FromText(ToText(v)) == v
  {
    if v != 0 {
      ParseNatToString(v);
    }
  }

  /** A cell text survives the trip to a number and back, landing in 0..9. */
  lemma TextRoundTrip(s: string)
    requires IsCellText(s)
    ensures AllDigits(s) && 0 <= FromText(s) <= 9 && ToText(FromText(s)) == s
  {
    if s != "" {
      assert s[..|s| - 1] == "";
      assert ParseDigits(s) == ParseDigits("") * 10 + DigitValue(s[0]);
      var d := FromText(s);
      assert ToText(d) == [DigitChar(d)];
    }
  }

  /** Comparing two cell texts is comparing their numbers: the model may compare integers. */
  lemma TextEquality(s: string, t: string)
    requires IsCellText(s) && IsCellText(t)
    ensures AllDigits(s) && AllDigits(t) && (s == t <==> FromText(s) == FromText(t))
  {
    TextRoundTrip(s);
    TextRoundTrip(t);
  }
}
