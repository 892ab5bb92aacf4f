/**
 * The move-count label of `updateClickCount`: empty before the first move,
 * " 1 Klick" after one, and the decimal count followed by " Klicks" otherwise.
 */
module ClickLabel {

  predicate IsDigit(ch: char)
  {
    '0' <= ch <= '9'
  }

  function DigitChar(d: nat): (ch: char)
    requires d < 10
    ensures IsDigit(ch)
  {
    (('0' as int) + d) as char
  }

  function DigitValue(ch: char): (d: nat)
    requires IsDigit(ch)
    ensures d < 10
  {
    (ch as int) - ('0' as int)
  }

  predicate AllDigits(s: string)
  {
    forall k :: 0 <= k < |s| ==> IsDigit(s[k])
  }

  /** The decimal notation of `n`, as JavaScript writes an integer below 10^21:
      no sign, no leading zero. */
  function Decimal(n: nat): (s: string)
    ensures |s| > 0 && AllDigits(s)
    ensures |s| > 1 ==> s[0] != '0'
  {
    if n < 10 then [DigitChar(n)] else Decimal(n / 10) + [DigitChar(n % 10)]
  }

  /** The value of a string of decimal digits. */
  function ParseDecimal(s: string): nat
    requires AllDigits(s)
  {
    if s == [] then 0 else ParseDecimal(s[..|s| - 1]) * 10 + DigitValue(s[|s| - 1])
  }

  lemma {:induction false} ParseDecimalOfDecimal(n: nat)
    ensures ParseDecimal(Decimal(n)) == n
  {
    var s := Decimal(n);
    if n >= 10 {
      ParseDecimalOfDecimal(n / 10);
      assert s[..|s| - 1] == Decimal(n / 10);
    }
  }

  const OneClick: string := " 1 Klick"
  const ClicksSuffix: string := " Klicks"

  /** The text shown for the move count `n`. */
  function Label(n: nat): string
  {
    if n == 0 then "" else if n == 1 then OneClick else Decimal(n) + ClicksSuffix
  }

  /** Reading a label back: the count it shows (0 for a text that is no label). */
  function CountOfLabel(s: string): nat
  {
    if s == OneClick then 1
    else if |s| > |ClicksSuffix| && s[|s| - |ClicksSuffix|..] == ClicksSuffix
            && AllDigits(s[..|s| - |ClicksSuffix|])
    then ParseDecimal(s[..|s| - |ClicksSuffix|])
    else 0
  }

  /** The label shows the count: reading it back gives the count. */
  lemma CountOfLabelRoundTrip(n: nat)
    ensures CountOfLabel(Label(n)) == n
  {
    if n >= 2 {
      var d := Decimal(n);
      var s := d + ClicksSuffix;
      assert s[|s| - |ClicksSuffix|..] == ClicksSuffix;
      assert s[..|s| - |ClicksSuffix|] == d;
      assert s != OneClick by {
        if |d| == 1 {
          assert s[0] == d[0] && IsDigit(s[0]);
        }
      }
      ParseDecimalOfDecimal(n);
    }
  }

  /** Different counts have different labels; only the count 0 has an empty label. */
  lemma LabelInjective(a: nat, b: nat)
    ensures Label(a) == Label(b) ==> a == b
    ensures Label(a) == "" <==> a == 0
  {
    CountOfLabelRoundTrip(a);
    CountOfLabelRoundTrip(b);
  }
}
