/** The choice of the sheet to open first (`findCurrentMonthSheet` in app.js):
    the first sheet named with the current month and the last two digits of the
    current year, else the first named with the month, else the last sheet.
    The clock is not modelled: the month and the year are parameters. */
module Selector {
  import opened Options
  import opened Text

  /** One published sheet of the catalog: its label and its id within the
      spreadsheet. */
  datatype SheetSource = SheetSource(name: string, gid: string)

  const MonthNames: seq<string> := [
    "January", "February", "March", "April", "May", "June",
    "July", "August", "September", "October", "November", "December"]

  /** `year.toString().slice(-2)`: the last two digits of the year, or the
      whole year when it has one digit. */
  function YearSuffix(year: nat): (r: string)
    ensures 1 <= |r| <= 2
    ensures forall i :: 0 <= i < |r| ==> '0' <= r[i] <= '9'
    ensures year >= 10 ==> |r| == 2 && DecimalValue(r) == year % 100
    ensures year < 10 ==> r == [Digit(year)]
  {
    var d := DecimalString(year);
    if |d| >= 2 then
      LastTwoDigits(year);
      d[|d| - 2..]
    else d
  }

  /** The last two characters of a number of two digits or more are the
      digits of its value modulo 100. */
  lemma LastTwoDigits(n: nat)
    requires n >= 10
    ensures |DecimalString(n)| >= 2
    ensures DecimalValue(DecimalString(n)[|DecimalString(n)| - 2..]) == n % 100
  {
    var d := DecimalString(n);
    var high := DecimalString(n / 10);
    assert d == high + [Digit(n % 10)];
    LastDigit(n / 10);
    var a := (n / 10) % 10;
    var b := n % 10;
    var tail := d[|d| - 2..];
    assert tail == [Digit(a), Digit(b)];
    TwoDigitValue(a, b);
    ModHundred(n);
  }

  /** Two digits read as a number of tens and units. */
  lemma TwoDigitValue(a: nat, b: nat)
    requires a < 10 && b < 10
    ensures DecimalValue([Digit(a), Digit(b)]) == 10 * a + b
  {
    var tail := [Digit(a), Digit(b)];
    DigitValueOfDigit(a);
    DigitValueOfDigit(b);
    assert tail[..1] == [Digit(a)];
    assert [Digit(a)][..0] == [];
    assert DecimalValue([Digit(a)]) == a;
  }

  lemma ModHundred(n: nat)
    ensures 10 * ((n / 10) % 10) + n % 10 == n % 100
  {
    var q := n / 100;
    var r := n % 100;
    assert n == 100 * q + r;
    assert n / 10 == 10 * q + r / 10;
    assert (n / 10) % 10 == r / 10;
    assert n % 10 == r % 10;
  }

  /** The last character of a decimal string is the digit of the units. */
  lemma LastDigit(n: nat)
    ensures DecimalString(n)[|DecimalString(n)| - 1] == Digit(n % 10)
  {
  }

  lemma DigitValueOfDigit(d: nat)
    requires d < 10
    ensures DigitValue(Digit(d)) == d
  {
  }

  /** The index of the first sheet satisfying `p`, if any. */
  function FirstWhere(sheets: seq<SheetSource>, p: SheetSource -> bool): (k: Option<nat>)
    ensures k.Some? ==> k.value < |sheets| && p(sheets[k.value])
    ensures k.Some? ==> forall j :: 0 <= j < k.value ==> !p(sheets[j])
    ensures k.None? ==> forall j :: 0 <= j < |sheets| ==> !p(sheets[j])
  {
    if |sheets| == 0 then None
    else if p(sheets[0]) then Some(0)
    else
      match FirstWhere(sheets[1..], p)
      case None => None
      case Some(k) => Some(k + 1)
  }

  /** The selection rule: the first sheet whose name includes both the month
      and the year, else the first whose name includes the month, else the
      last sheet; nothing only when the catalog is empty. */
  function SelectSheet(sheets: seq<SheetSource>, month: string, year: string): (r: Option<SheetSource>)
    ensures r.None? <==> |sheets| == 0
    ensures r.Some? ==> r.value in sheets
    ensures forall k :: 0 <= k < |sheets|
              && Contains(sheets[k].name, month) && Contains(sheets[k].name, year)
              && (forall j :: 0 <= j < k ==> !(Contains(sheets[j].name, month) && Contains(sheets[j].name, year)))
              ==> r == Some(sheets[k])
    ensures (forall j :: 0 <= j < |sheets| ==> !(Contains(sheets[j].name, month) && Contains(sheets[j].name, year)))
            ==> forall k :: 0 <= k < |sheets| && Contains(sheets[k].name, month)
                  && (forall j :: 0 <= j < k ==> !Contains(sheets[j].name, month))
                  ==> r == Some(sheets[k])
    ensures |sheets| > 0 && (forall j :: 0 <= j < |sheets| ==> !Contains(sheets[j].name, month))
            ==> r == Some(sheets[|sheets| - 1])
  {
    match FirstWhere(sheets, (s: SheetSource) => Contains(s.name, month) && Contains(s.name, year))
    case Some(k) => Some(sheets[k])
    case None =>
      match FirstWhere(sheets, (s: SheetSource) => Contains(s.name, month))
      case Some(k) => Some(sheets[k])
      case None => if |sheets| == 0 then None else Some(sheets[|sheets| - 1])
  }

  /** `findCurrentMonthSheet` for the given month (0 for January, as
      `getMonth` counts) and full year. */
  function FindCurrentMonthSheet(sheets: seq<SheetSource>, month: nat, year: nat): (r: Option<SheetSource>)
    requires month < 12
    ensures r.None? <==> |sheets| == 0
    ensures r.Some? ==> r.value in sheets
    ensures r.Some? && !Contains(r.value.name, MonthNames[month])
            ==> forall j :: 0 <= j < |sheets| ==> !Contains(sheets[j].name, MonthNames[month])
  {
    SelectSheet(sheets, MonthNames[month], YearSuffix(year))
  }
}
