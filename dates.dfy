/** Calendar dates and their ISO text form, as `date.today().strftime("%Y-%m-%d")`
    and SQLite's `CURRENT_DATE` write them. The current date is never read from
    a clock: every operation that needs it takes it as a parameter. */
module Dates {
  import opened Common

  datatype Date = Date(year: int, month: int, day: int)

  /** The dates the model formats: four-digit years, months 1..12, days 1..31. */
  predicate ValidDate(d: Date) {
    1000 <= d.year <= 9999 && 1 <= d.month <= 12 && 1 <= d.day <= 31
  }

  function Pow10(n: nat): (r: nat)
    ensures r >= 1
  {
    if n == 0 then 1 else 10 * Pow10(n - 1)
  }

  predicate IsDigit(c: char) {
    '0' <= c <= '9'
  }

  predicate AllDigits(s: string) {
    forall i :: 0 <= i < |s| ==> IsDigit(s[i])
  }

  /** The lowest `width` decimal digits of `n`, zero-padded on the left
      (`%Y` with width 4, `%m` and `%d` with width 2). */
  function Digits(n: nat, width: nat): (r: string)
    ensures |r| == width
    ensures AllDigits(r)
  {
    if width == 0 then [] else Digits(n / 10, width - 1) + [('0' as int + n % 10) as char]
  }

  /** The number a string of decimal digits spells. */
  function Number(s: string): (r: nat)
    requires AllDigits(s)
    ensures r < Pow10(|s|)
  {
    if s == [] then 0 else 10 * Number(s[..|s| - 1]) + (s[|s| - 1] as int - '0' as int)
  }

  /** Reading back the digits of a number that fits the width gives the number. */
  lemma {:induction false} NumberOfDigits(n: nat, width: nat)
    requires n < Pow10(width)
    ensures Number(Digits(n, width)) == n
  {
    if width > 0 {
      var d := Digits(n, width);
      assert d[..width - 1] == Digits(n / 10, width - 1);
      assert n / 10 < Pow10(width - 1);
      NumberOfDigits(n / 10, width - 1);
    }
  }

  /** The text `strftime("%Y-%m-%d")` produces for `d`. */
  function FormatDate(d: Date): (r: string)
    requires ValidDate(d)
    ensures |r| == 10 && r[4] == '-' && r[7] == '-'
    ensures AllDigits(r[..4]) && AllDigits(r[5..7]) && AllDigits(r[8..])
  {
    Digits(d.year, 4) + "-" + Digits(d.month, 2) + "-" + Digits(d.day, 2)
  }

  /** Reads a `YYYY-MM-DD` text back into a date; `None` for any other shape. */
  function ParseDate(s: string): Option<Date> {
    if |s| == 10 && s[4] == '-' && s[7] == '-'
       && AllDigits(s[..4]) && AllDigits(s[5..7]) && AllDigits(s[8..])
    then Some(Date(Number(s[..4]), Number(s[5..7]), Number(s[8..])))
    else None
  }

  /** The date text written into a file name or a row reads back as the same
      date, so two different dates never give the same text. */
  lemma DateRoundTrip(d: Date)
    requires ValidDate(d)
    ensures ParseDate(FormatDate(d)) == Some(d)
  {
    var s := FormatDate(d);
    assert s[..4] == Digits(d.year, 4);
    assert s[5..7] == Digits(d.month, 2);
    assert s[8..] == Digits(d.day, 2);
    NumberOfDigits(d.year, 4);
    NumberOfDigits(d.month, 2);
    NumberOfDigits(d.day, 2);
  }
}
