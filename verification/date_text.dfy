/** The `full-date` text of section 5.6 of RFC 3339 (YYYY-MM-DD): reading
    the three fields of a date-shaped string, and writing a date back with
    zero-padded fields. The two are inverse on four-digit years. */
module DateText {
  import opened Text
  import opened Calendar

  /** `n` as exactly `w` decimal digits, keeping the low-order ones. */
  function Pad(n: nat, w: nat): (r: string)
    ensures |r| == w
    ensures forall i :: 0 <= i < |r| ==> IsDigit(r[i])
  {
    if w == 0 then "" else Pad(n / 10, w - 1) + [DigitChar(n % 10)]
  }

  function Pow10(w: nat): (r: nat)
    ensures r > 0
  {
    if w == 0 then 1 else 10 * Pow10(w - 1)
  }

  /** The digits `Pad` writes read back as the number. */
  lemma {:induction false} PadValue(n: nat, w: nat)
    requires n < Pow10(w)
    ensures DigitsValue(Pad(n, w)) == n
  {
    if w > 0 {
      var r := Pad(n, w);
      assert n / 10 < Pow10(w - 1);
      PadValue(n / 10, w - 1);
      assert r[..|r| - 1] == Pad(n / 10, w - 1);
    }
  }

  /** A string of `w` digits is what `Pad` writes for its value. */
  lemma {:induction false} ValuePad(t: string)
    requires forall i :: 0 <= i < |t| ==> IsDigit(t[i])
    ensures Pad(DigitsValue(t), |t|) == t
  {
    if |t| > 0 {
      var front := t[..|t| - 1];
      ValuePad(front);
      var v := DigitsValue(t);
      var d := t[|t| - 1] as int - '0' as int;
      assert v == 10 * DigitsValue(front) + d;
      assert v / 10 == DigitsValue(front) && v % 10 == d;
      assert t == front + [t[|t| - 1]];
    }
  }

  /** The year, month and day a date-shaped string spells. */
  function ParseCivil(s: string): (c: Civil)
    requires HasDatePrefix(s)
    ensures 0 <= c.year < 10000 && 0 <= c.month < 100 && 0 <= c.day < 100
  {
    DigitsBound(s[0..4]);
    DigitsBound(s[5..7]);
    DigitsBound(s[8..10]);
    assert Pow10(2) == 100 && Pow10(4) == 10000;
    Civil(DigitsValue(s[0..4]), DigitsValue(s[5..7]), DigitsValue(s[8..10]))
  }

  /** A date with a four-digit year as YYYY-MM-DD. */
  function FormatCivil(c: Civil): (r: string)
    requires Valid(c) && 0 <= c.year < 10000
    ensures IsDateShape(r)
  {
    Pad(c.year, 4) + "-" + Pad(c.month, 2) + "-" + Pad(c.day, 2)
  }

  /** Writing a date and reading it back gives the date. */
  lemma ParseFormat(c: Civil)
    requires Valid(c) && 0 <= c.year < 10000
    ensures ParseCivil(FormatCivil(c)) == c
  {
    var s := FormatCivil(c);
    assert s[0..4] == Pad(c.year, 4);
    assert s[5..7] == Pad(c.month, 2);
    assert s[8..10] == Pad(c.day, 2);
    assert Pow10(2) == 100 && Pow10(4) == 10000;
    PadValue(c.year, 4);
    PadValue(c.month, 2);
    PadValue(c.day, 2);
  }

  /** Reading a date-shaped string that names a real date and writing it
      back gives the string. */
  lemma FormatParse(s: string)
    requires IsDateShape(s) && Valid(ParseCivil(s))
    ensures FormatCivil(ParseCivil(s)) == s
  {
    ValuePad(s[0..4]);
    ValuePad(s[5..7]);
    ValuePad(s[8..10]);
    assert s == s[0..4] + "-" + s[5..7] + "-" + s[8..10];
  }

  /** `w` digits read as less than 10^w. */
  lemma {:induction false} DigitsBound(t: string)
    requires forall i :: 0 <= i < |t| ==> IsDigit(t[i])
    ensures DigitsValue(t) < Pow10(|t|)
  {
    if |t| > 0 {
      DigitsBound(t[..|t| - 1]);
    }
  }
}
