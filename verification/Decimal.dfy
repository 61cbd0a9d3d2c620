/** Decimal numerals: `str(n)`, fixed-width fields, and `int(text)` on both. */
module Decimal {
  import opened Wrappers

  function Digit(d: nat): (c: char)
    requires d < 10
    ensures IsDigit(c) && DigitValue(c) == d
  {
    '0' + d as char
  }

  predicate IsDigit(c: char) { '0' <= c <= '9' }

  function DigitValue(c: char): nat
    requires IsDigit(c)
  {
    (c - '0') as nat
  }

  predicate AllDigits(s: string) { forall i :: 0 <= i < |s| ==> IsDigit(s[i]) }

  function ValueOf(s: string): nat
    requires AllDigits(s)
  {
    if s == "" then 0 else 10 * ValueOf(s[..|s| - 1]) + DigitValue(s[|s| - 1])
  }

  function Show(n: nat): (s: string)
    ensures s != "" && AllDigits(s)
  {
    if n < 10 then [Digit(n)] else Show(n / 10) + [Digit(n % 10)]
  }

  function ShowInt(n: int): string { if n < 0 then "-" + Show(-n) else Show(n) }

  /** `int(text)` on ASCII digits with an optional sign; `None` is its ValueError. */
  function ReadInt(s: string): Option<int>
  {
    if s != "" && AllDigits(s) then Some(ValueOf(s) as int)
    else if |s| > 1 && s[0] == '-' && AllDigits(s[1..]) then Some(0 - ValueOf(s[1..]) as int)
    else if |s| > 1 && s[0] == '+' && AllDigits(s[1..]) then Some(ValueOf(s[1..]))
    else None
  }

  lemma {:induction false} ValueOfShow(n: nat)
    ensures ValueOf(Show(n)) == n
  {
    if n >= 10 {
      ValueOfShow(n / 10);
      assert Show(n)[..|Show(n)| - 1] == Show(n / 10);
    } else {
      assert Show(n)[..0] == "";
    }
  }

  lemma ReadShow(n: int)
    ensures ReadInt(ShowInt(n)) == Some(n) && ShowInt(n) != ""
  {
    if n < 0 {
      ValueOfShow(-n);
      assert ShowInt(n)[1..] == Show(-n);
      assert !IsDigit(ShowInt(n)[0]);
    } else {
      ValueOfShow(n);
    }
  }

  /** `w` digits, zero padded. */
  function Pad(n: nat, w: nat): (s: string)
    ensures |s| == w && AllDigits(s)
    decreases w
  {
    if w == 0 then "" else Pad(n / 10, w - 1) + [Digit(n % 10)]
  }

  function Pow10(w: nat): nat { if w == 0 then 1 else 10 * Pow10(w - 1) }

  lemma {:induction false} ValueOfPad(n: nat, w: nat)
    requires n < Pow10(w)
    ensures ValueOf(Pad(n, w)) == n
  {
    if w > 0 {
      ValueOfPad(n / 10, w - 1);
      assert Pad(n, w)[..w - 1] == Pad(n / 10, w - 1);
    }
  }
}
