/** The time variables a rule condition can use, from the local time the script reads with
    `date()`: `hour` and `minute` as two-digit strings, `day` as the weekday counted from 1
    (Sunday), `month` without leading zero, `week` from the ISO week number, `yearday`
    counted from 1, and today's date as `Ymd` for the moved-today test. */
module Clock {
  import opened Strings
  import opened Scalars

  /** The calendar fields of the local time: `weekday` is `date('w')` (0 for Sunday),
      `dayOfYear` is `date('z')` (0 for January 1st), `isoWeek` is the ISO-8601 week. */
  datatype Time = Time(year: nat, month: nat, dayOfMonth: nat, hour: nat, minute: nat,
                       weekday: nat, dayOfYear: nat, isoWeek: nat)

  predicate ValidTime(t: Time) {
    t.year < 10000 && 1 <= t.month <= 12 && 1 <= t.dayOfMonth <= 31 && t.hour < 24 && t.minute < 60
    && t.weekday < 7 && t.dayOfYear < 366 && 1 <= t.isoWeek <= 53
  }

  /** A zero-padded two-digit field (`H`, `i`, `m`, `d`, `W`). */
  function TwoDigits(n: nat): string
    requires n < 100
  {
    [DigitChar(n / 10), DigitChar(n % 10)]
  }

  /** A zero-padded four-digit year (`Y`). */
  function FourDigits(n: nat): string
    requires n < 10000
  {
    TwoDigits(n / 100) + TwoDigits(n % 100)
  }

  /** Two-digit fields read back as their number. */
  lemma TwoDigitsValue(n: nat)
    requires n < 100
    ensures |TwoDigits(n)| == 2 && AllDigits(TwoDigits(n))
    ensures DigitsValue(TwoDigits(n)) == n
  {
    var s := TwoDigits(n);
    assert s[..1] == [DigitChar(n / 10)];
    assert s[..1][..0] == [];
    assert DigitsValue(s[..1]) == n / 10;
    assert DigitsValue(s) == n / 10 * 10 + n % 10;
  }

  function Hour(t: Time): Scalar requires ValidTime(t) { Str(TwoDigits(t.hour)) }

  function Minute(t: Time): Scalar requires ValidTime(t) { Str(TwoDigits(t.minute)) }

  /** `date('w') + 1`: the numeric string is added to, which makes an integer. */
  function Day(t: Time): Scalar { Int(t.weekday + 1) }

  function Month(t: Time): Scalar { Str(Decimal(t.month)) }

  /** `date('z') + 1`. */
  function Yearday(t: Time): Scalar { Int(t.dayOfYear + 1) }

  /** `preg_replace('/0/', '', date('W'))`: every `0` of the two-digit week is deleted. */
  function WeekAsWritten(t: Time): string requires ValidTime(t) { Erase(TwoDigits(t.isoWeek), '0') }

  /** The week number without its leading zero, which is what deleting the zeros is meant to
      give. */
  function Week(t: Time): Scalar { Str(Decimal(t.isoWeek)) }

  /** `date('Ymd')`. */
  function Today(t: Time): string requires ValidTime(t) {
    FourDigits(t.year) + TwoDigits(t.month) + TwoDigits(t.dayOfMonth)
  }

  /** The time variables read back as the clock's fields: `hour` and `minute` are two
      digits, `month` has no leading zero, `day` runs from 1 to 7 and `yearday` from 1 to 366. */
  lemma TimeVariables(t: Time)
    requires ValidTime(t)
    ensures |Hour(t).s| == 2 && AllDigits(Hour(t).s) && DigitsValue(Hour(t).s) == t.hour
    ensures |Minute(t).s| == 2 && AllDigits(Minute(t).s) && DigitsValue(Minute(t).s) == t.minute
    ensures DigitsValue(Month(t).s) == t.month && Month(t).s[0] != '0'
    ensures 1 <= Day(t).i <= 7 && 1 <= Yearday(t).i <= 366
  {
    TwoDigitsValue(t.hour);
    TwoDigitsValue(t.minute);
    DecimalValue(t.month);
  }

  /** As written, the tenth week reads as the first (and the 20th, 30th, 40th and 50th as the
      2nd to 5th), so a rule on `week == 1` also fires in week 10. */
  lemma WeekCollision(t: Time, u: Time)
    requires ValidTime(t) && ValidTime(u)
    requires t.isoWeek == 10 * u.isoWeek
    ensures WeekAsWritten(t) == WeekAsWritten(u)
    ensures t.isoWeek != u.isoWeek
  {
    var d := u.isoWeek;
    assert TwoDigits(t.isoWeek) == [DigitChar(d), '0'];
    assert TwoDigits(u.isoWeek) == ['0', DigitChar(d)];
    assert Erase([DigitChar(d), '0'], '0') == [DigitChar(d)] + Erase(['0'], '0');
    assert Erase(['0'], '0') == [] + Erase([], '0');
    assert Erase(['0', DigitChar(d)], '0') == [] + Erase([DigitChar(d)], '0');
    assert Erase([DigitChar(d)], '0') == [DigitChar(d)] + Erase([], '0');
  }

  /** Away from the multiples of ten the written week is the intended one. */
  lemma WeekAgrees(t: Time)
    requires ValidTime(t) && t.isoWeek % 10 != 0
    ensures WeekAsWritten(t) == Week(t).s
  {
    var w := t.isoWeek;
    var hi, lo := DigitChar(w / 10), DigitChar(w % 10);
    assert lo != '0';
    assert Erase([lo], '0') == [lo] + Erase([], '0');
    if w < 10 {
      assert hi == '0';
      assert Erase([hi, lo], '0') == [] + Erase([lo], '0');
      assert Decimal(w) == [lo];
    } else {
      assert hi != '0';
      assert Erase([hi, lo], '0') == [hi] + Erase([lo], '0');
      assert Decimal(w / 10) == [hi];
      assert Decimal(w) == [hi] + [lo];
    }
  }

  /** The intended week tells every week apart. */
  lemma WeekInjective(t: Time, u: Time)
    requires Week(t) == Week(u)
    ensures t.isoWeek == u.isoWeek
  {
    DecimalValue(t.isoWeek);
    DecimalValue(u.isoWeek);
  }

  /** `Ymd` identifies the calendar date: equal strings mean the same year, month and day. */
  lemma TodayInjective(t: Time, u: Time)
    requires ValidTime(t) && ValidTime(u)
    ensures Today(t) == Today(u) <==>
              t.year == u.year && t.month == u.month && t.dayOfMonth == u.dayOfMonth
  {
    if Today(t) == Today(u) {
      var a, b := Today(t), Today(u);
      assert a[0..2] == TwoDigits(t.year / 100) && b[0..2] == TwoDigits(u.year / 100);
      assert a[2..4] == TwoDigits(t.year % 100) && b[2..4] == TwoDigits(u.year % 100);
      assert a[4..6] == TwoDigits(t.month) && b[4..6] == TwoDigits(u.month);
      assert a[6..8] == TwoDigits(t.dayOfMonth) && b[6..8] == TwoDigits(u.dayOfMonth);
      TwoDigitsValue(t.year / 100);
      TwoDigitsValue(u.year / 100);
      TwoDigitsValue(t.year % 100);
      TwoDigitsValue(u.year % 100);
      TwoDigitsValue(t.month);
      TwoDigitsValue(u.month);
      TwoDigitsValue(t.dayOfMonth);
      TwoDigitsValue(u.dayOfMonth);
    }
  }
}
