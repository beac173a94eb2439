/** Fixed-width decimal numerals: `"%0*d"` formatting and reading digits back. */
module Decimal {

  predicate IsDigit(c: char)
  {
    '0' <= c <= '9'
  }

  predicate AllDigits(s: string)
  {
    forall i :: 0 <= i < |s| ==> IsDigit(s[i])
  }

  function DigitChar(n: nat): (c: char)
    requires n < 10
    ensures IsDigit(c) && c as int - '0' as int == n
  {
    ('0' as int + n) as char
  }

  function Pow10(k: nat): (p: nat)
    ensures p >= 1
  {
    if k == 0 then 1 else 10 * Pow10(k - 1)
  }

  /** `"%0*d" % (width, n)` for an `n` that fits: the last `width` decimal digits of `n`. */
  function PadDecimal(n: nat, width: nat): (s: string)
    ensures |s| == width && AllDigits(s)
  {
    if width == 0 then []
    else PadDecimal(n / 10, width - 1) + [DigitChar(n % 10)]
  }

  /** The number a string of decimal digits denotes. */
  function DecimalValue(s: string): (v: int)
    requires AllDigits(s)
    ensures 0 <= v < Pow10(|s|)
  {
    if s == [] then 0
    else
      var init := s[..|s| - 1];
      assert AllDigits(init) by {
        forall i | 0 <= i < |init| ensures IsDigit(init[i]) { assert init[i] == s[i]; }
      }
      DecimalValue(init) * 10 + (s[|s| - 1] as int - '0' as int)
  }

  /** Reading the padded digits back gives the number. */
  lemma {:induction false} DecimalOfPad(n: nat, width: nat)
    requires n < Pow10(width)
    ensures DecimalValue(PadDecimal(n, width)) == n
  {
    if width > 0 {
      var s := PadDecimal(n, width);
      DecimalOfPad(n / 10, width - 1);
      assert s[..|s| - 1] == PadDecimal(n / 10, width - 1);
    }
  }

  /** Padding the number a digit string denotes to its length gives the string. */
  lemma {:induction false} PadOfDecimal(s: string)
    requires AllDigits(s)
    ensures PadDecimal(DecimalValue(s), |s|) == s
  {
    if s != [] {
      var init := s[..|s| - 1];
      assert AllDigits(init) by {
        forall i | 0 <= i < |init| ensures IsDigit(init[i]) { assert init[i] == s[i]; }
      }
      PadOfDecimal(init);
      var v := DecimalValue(s);
      var digit := s[|s| - 1] as int - '0' as int;
      assert v == DecimalValue(init) * 10 + digit;
      assert v / 10 == DecimalValue(init) && v % 10 == digit;
      assert s == init + [s[|s| - 1]];
    }
  }

  /** The value of a digit string, read from its leading digit. */
  lemma {:induction false} DecimalValueFront(s: string)
    requires AllDigits(s) && s != []
    ensures AllDigits(s[1..])
    ensures DecimalValue(s) == (s[0] as int - '0' as int) * Pow10(|s| - 1) + DecimalValue(s[1..])
  {
    assert AllDigits(s[1..]) by {
      forall i | 0 <= i < |s| - 1 ensures IsDigit(s[1..][i]) { assert s[1..][i] == s[i + 1]; }
    }
    if |s| > 1 {
      var init := s[..|s| - 1];
      assert AllDigits(init) by {
        forall i | 0 <= i < |init| ensures IsDigit(init[i]) { assert init[i] == s[i]; }
      }
      DecimalValueFront(init);
      var d0 := s[0] as int - '0' as int;
      var dl := s[|s| - 1] as int - '0' as int;
      var p := Pow10(|s| - 2);
      var tail := s[1..];
      assert init[1..] == tail[..|tail| - 1];
      assert init[0] == s[0] && tail[|tail| - 1] == s[|s| - 1];
      assert DecimalValue(init) == d0 * p + DecimalValue(init[1..]);
      assert DecimalValue(tail) == DecimalValue(init[1..]) * 10 + dl;
      assert DecimalValue(s) == DecimalValue(init) * 10 + dl;
      assert Pow10(|s| - 1) == 10 * p;
      ShiftDigit(d0, p, DecimalValue(init[1..]), dl);
    } else {
      assert s[1..] == [];
    }
  }

  lemma ShiftDigit(d: int, p: int, rest: int, last: int)
    ensures (d * p + rest) * 10 + last == d * (10 * p) + (rest * 10 + last)
  {
  }
}
