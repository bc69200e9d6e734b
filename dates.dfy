/**
 * The two date helpers of the recording catalogue, which read a
 * `YYMMDD...` string by plain slicing. The admin page carries a verbatim
 * copy of both; this module is the one definition the whole model uses.
 */
module Dates {
  import opened Wrappers
  import opened JsStrings
  import opened Decimal
  import opened Ordering

  const Months: seq<string> := ["Jan", "Feb", "Mar", "Apr", "May", "Jun", "Jul", "Aug", "Sep", "Oct", "Nov", "Dec"]

  /** `${months[monthNum - 1]}`: an index outside the array, or `NaN`, renders as `undefined`. */
  function MonthName(monthNum: Option<int>): string {
    if monthNum.Some? && 1 <= monthNum.value <= 12 then Months[monthNum.value - 1] else "undefined"
  }

  /** `getDisplayDate`: month abbreviation from characters 2..4, a space, characters 4..6 verbatim. */
  function DisplayDate(date: string): string {
    MonthName(ParseInt(Substring(date, 2, 4))) + " " + Substring(date, 4, 6)
  }

  /** `getSortDate`: `"20" + YY + "-" + MM + "-" + DD` by slicing, with no check of the characters. */
  function SortDate(date: string): string {
    "20" + Substring(date, 0, 2) + "-" + Substring(date, 2, 4) + "-" + Substring(date, 4, 6)
  }

  /** The value of two digits read as a decimal number. */
  function TwoDigitValue(a: char, b: char): nat
    requires IsDigit(a) && IsDigit(b)
  {
    10 * DigitValue(a) + DigitValue(b)
  }

  /** `parseInt` of two digits is their decimal value (a leading zero included). */
  lemma ParseTwoDigits(a: char, b: char)
    requires IsDigit(a) && IsDigit(b)
    ensures ParseInt([a, b]) == Some(TwoDigitValue(a, b))
  {
    var s := [a, b];
    assert !IsJsSpace(a);
    assert TrimStart(s) == s;
    assert s[1..] == [b];
    assert [b][1..] == [];
    DigitPrefixOfDigits(s, []);
    assert s + [] == s;
    assert s[..1] == [a];
    assert DigitsValue(s) == DigitsValue([a]) * 10 + DigitValue(b);
  }

  /**
   * On a name of at least six characters whose characters 2 and 3 are
   * digits, the display date is the abbreviation of that month (or
   * `undefined` for 00 and 13-99), a space and the two day characters.
   */
  lemma DisplayDateOfDigits(date: string)
    requires |date| >= 6 && IsDigit(date[2]) && IsDigit(date[3])
    ensures var m := TwoDigitValue(date[2], date[3]);
      DisplayDate(date) == (if 1 <= m <= 12 then Months[m - 1] else "undefined") + " " + date[4..6]
  {
    var m := TwoDigitValue(date[2], date[3]);
    assert Substring(date, 2, 4) == [date[2], date[3]];
    ParseTwoDigits(date[2], date[3]);
    assert MonthName(ParseInt(Substring(date, 2, 4))) == MonthName(Some(m));
    assert Substring(date, 4, 6) == date[4..6];
  }

  /** A month written as two digits 01..12 displays as its abbreviation. */
  lemma DisplayDateNamesMonth(date: string, m: nat)
    requires |date| >= 6 && 1 <= m <= 12
    requires date[2] == DigitChar(m / 10) && date[3] == DigitChar(m % 10)
    ensures DisplayDate(date) == Months[m - 1] + " " + date[4..6]
  {
    assert 10 * (m / 10) + m % 10 == m;
    assert TwoDigitValue(date[2], date[3]) == m;
    DisplayDateOfDigits(date);
  }

  /** The sort date is ten characters long, and its first four are the year `"20" + YY`. */
  lemma SortDateShape(date: string)
    requires |date| >= 6
    ensures |SortDate(date)| == 10
    ensures SortDate(date)[..4] == "20" + date[..2]
    ensures SortDate(date)[5..7] == date[2..4] && SortDate(date)[8..10] == date[4..6]
    ensures SortDate(date)[4] == '-' && SortDate(date)[7] == '-'
  {
  }

  /**
   * Ordering rows by sort date orders them by the six leading characters
   * of their names: the text comparison of `20YY-MM-DD` agrees with that
   * of `YYMMDD`, and two sort dates are equal exactly when the prefixes are.
   */
  lemma {:induction false} SortDateOrder(a: string, b: string)
    requires |a| >= 6 && |b| >= 6
    ensures Below(SortDate(a), SortDate(b)) <==> Below(a[..6], b[..6])
    ensures SortDate(a) == SortDate(b) <==> a[..6] == b[..6]
  {
    var a1, a2, a3 := a[..2], a[2..4], a[4..6];
    var b1, b2, b3 := b[..2], b[2..4], b[4..6];
    assert SortDate(a) == "20" + (a1 + ("-" + (a2 + ("-" + a3))));
    assert SortDate(b) == "20" + (b1 + ("-" + (b2 + ("-" + b3))));
    assert a[..6] == a1 + (a2 + a3);
    assert b[..6] == b1 + (b2 + b3);
    // Strip the common "20", then compare the fields one by one.
    BelowConcat("20", "20", a1 + ("-" + (a2 + ("-" + a3))), b1 + ("-" + (b2 + ("-" + b3))));
    BelowConcat(a1, b1, "-" + (a2 + ("-" + a3)), "-" + (b2 + ("-" + b3)));
    BelowConcat("-", "-", a2 + ("-" + a3), b2 + ("-" + b3));
    BelowConcat(a2, b2, "-" + a3, "-" + b3);
    BelowConcat("-", "-", a3, b3);
    BelowConcat(a1, b1, a2 + a3, b2 + b3);
    BelowConcat(a2, b2, a3, b3);
    BelowIrreflexive("20");
    BelowIrreflexive("-");
    if a[..6] == b[..6] {
      assert a1 == b1 && a2 == b2 && a3 == b3;
    }
  }
}
