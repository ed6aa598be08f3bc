/**
 * The number formatting the grid labels use: `n.toString()` for a
 * non-negative integer and `.padStart(2, '0')`.
 */
module Decimal {
  function Digit(d: nat): (c: char)
    requires d < 10
  {
    "0123456789"[d]
  }

  predicate IsDigit(c: char)
  {
    '0' <= c <= '9'
  }

  function DigitValue(c: char): nat
    requires IsDigit(c)
  {
    (c - '0') as nat
  }

  /** `n.toString()` for a non-negative integer: its decimal digits, no leading zero. */
  function Show(n: nat): (s: string)
    ensures 1 <= |s|
    ensures forall i :: 0 <= i < |s| ==> IsDigit(s[i])
    ensures n < 10 <==> |s| == 1
    ensures n > 0 ==> s[0] != '0'
    ensures n < 100 ==> |s| <= 2
  {
    if n < 10 then [Digit(n)] else Show(n / 10) + [Digit(n % 10)]
  }

  /** The number a string of decimal digits denotes. */
  function Value(s: string): nat
    requires forall i :: 0 <= i < |s| ==> IsDigit(s[i])
  {
    if s == [] then 0 else Value(s[..|s| - 1]) * 10 + DigitValue(s[|s| - 1])
  }

  /** Reading back what `Show` writes gives the number again. */
  lemma {:induction false} ShowValue(n: nat)
    ensures Value(Show(n)) == n
  {
    if n >= 10 {
      ShowValue(n / 10);
      var s := Show(n);
      assert s[..|s| - 1] == Show(n / 10);
    }
  }

  /** `n.toString().padStart(2, '0')`. */
  function PadStart2(n: nat): (s: string)
    ensures forall i :: 0 <= i < |s| ==> IsDigit(s[i])
    ensures n < 100 ==> |s| == 2
  {
    if n < 10 then "0" + Show(n) else Show(n)
  }

  /** The padded form still reads back as `n`. */
  lemma PadStart2Value(n: nat)
    ensures Value(PadStart2(n)) == n
  {
    ShowValue(n);
    if n < 10 {
      var s := PadStart2(n);
      assert s[..1] == "0";
      assert Value(s[..1]) == 0;
    }
  }
}
