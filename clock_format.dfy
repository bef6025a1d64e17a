/** `msToTime`: a count of milliseconds shown as HH:MM:SS. */
module ClockFormat {
  import opened Numerals

  /** JavaScript's `%` on integers: the remainder takes the sign of the dividend. */
  function JsRem(a: int, b: int): (r: int)
    requires b > 0
    ensures a >= 0 ==> 0 <= r < b
    ensures a < 0 ==> -b < r <= 0
  {
    if a >= 0 then a % b else -((-a) % b)
  }

  /** The remainder is what is left after the quotient truncated toward zero, which has the dividend's sign. */
  lemma JsRemIsTruncated(a: int, b: int) returns (q: int)
    requires b > 0
    ensures a == b * q + JsRem(a, b)
    ensures a >= 0 ==> q >= 0
    ensures a < 0 ==> q <= 0
  {
    if a >= 0 {
      q := a / b;
    } else {
      q := -((-a) / b);
    }
  }

  /** `pad(n)`: the last two characters of "00" followed by the decimal text of `n`. */
  function Pad2(n: int): (p: string)
    ensures |p| == 2
  {
    var z := "00" + IntToString(n);
    z[|z| - 2..]
  }

  /** The three fields of `msToTime`, split off with JavaScript's `%` as the source does. */
  datatype Clock = Clock(hrs: int, mins: int, secs: int)

  function Fields(s: int): (c: Clock)
    ensures -60 < c.mins < 60 && -60 < c.secs < 60
    ensures s >= 0 ==> c.hrs >= 0 && c.mins >= 0 && c.secs >= 0
    ensures s <= 0 ==> c.hrs <= 0 && c.mins <= 0 && c.secs <= 0
  {
    var ms := JsRem(s, 1000);
    var s1 := (s - ms) / 1000;
    var secs := JsRem(s1, 60);
    var s2 := (s1 - secs) / 60;
    var mins := JsRem(s2, 60);
    var hrs := (s2 - mins) / 60;
    Clock(hrs, mins, secs)
  }

  /** Each step of `Fields` divides exactly: what `JsRem` leaves is a multiple of the divisor. */
  lemma ExactQuotient(a: int, b: int)
    requires b == 1000 || b == 60
    ensures (a - JsRem(a, b)) / b * b == a - JsRem(a, b)
  {
    var q := JsRemIsTruncated(a, b);
    if b == 1000 {
      assert a - JsRem(a, 1000) == 1000 * q;
      assert (1000 * q) / 1000 == q;
    } else {
      assert a - JsRem(a, 60) == 60 * q;
      assert (60 * q) / 60 == q;
    }
  }

  /** The fields add back up to the duration, less its milliseconds remainder. */
  lemma FieldsDecompose(s: int)
    ensures var c := Fields(s);
      s == c.hrs * 3600000 + c.mins * 60000 + c.secs * 1000 + JsRem(s, 1000)
  {
    var ms := JsRem(s, 1000);
    var s1 := (s - ms) / 1000;
    assert s == s1 * 1000 + ms by { ExactQuotient(s, 1000); }
    var secs := JsRem(s1, 60);
    var s2 := (s1 - secs) / 60;
    assert s1 == s2 * 60 + secs by { ExactQuotient(s1, 60); }
    var mins := JsRem(s2, 60);
    var hrs := (s2 - mins) / 60;
    assert s2 == hrs * 60 + mins by { ExactQuotient(s2, 60); }
    assert Fields(s) == Clock(hrs, mins, secs);
  }

  /**
   * `msToTime(s)`: the milliseconds are dropped, and the whole seconds are
   * split into hours, minutes and seconds, each padded to two characters.
   */
  function MsToTime(s: int): (t: string)
    ensures |t| == 8 && t[2] == ':' && t[5] == ':'
  {
    var c := Fields(s);
    Pad2(c.hrs) + ":" + Pad2(c.mins) + ":" + Pad2(c.secs)
  }

  /** Two decimal digits, tens first. */
  function TwoDigits(n: nat): (p: string)
    requires n < 100
  {
    [DigitChar(n / 10), DigitChar(n % 10)]
  }

  /** A count that is not negative is padded to its last two decimal digits. */
  lemma Pad2OfNat(n: nat)
    ensures Pad2(n) == TwoDigits(n % 100)
  {
    assert Pad2(n) == [DigitChar((n / 10) % 10), DigitChar(n % 10)] by { LastTwoDigits(n); }
    DigitsBelowHundred(n);
  }

  /** The last two digits of `n` are the digits of `n % 100`. */
  lemma DigitsBelowHundred(n: nat)
    ensures (n % 100) / 10 == (n / 10) % 10 && (n % 100) % 10 == n % 10
  {
    var a, b := n / 10, n % 10;
    var c, d := a / 10, a % 10;
    assert n == 100 * c + (10 * d + b);
    assert n % 100 == 10 * d + b;
    assert (10 * d + b) / 10 == d && (10 * d + b) % 10 == b;
  }

  /** A count below 100 is padded to exactly its two digits. */
  lemma Pad2Small(n: nat)
    requires n < 100
    ensures Pad2(n) == TwoDigits(n)
  {
    assert n % 100 == n;
    Pad2OfNat(n);
  }

  /** For a duration that is not negative, JavaScript's `%` is Euclidean and the fields are plain quotients. */
  lemma FieldsOfNat(s: int)
    requires s >= 0
    ensures Fields(s) == Clock(s / 3600000, (s / 60000) % 60, (s / 1000) % 60)
  {
    var s1 := s / 1000;
    assert (s - JsRem(s, 1000)) / 1000 == s1;
    var s2 := s1 / 60;
    assert (s1 - JsRem(s1, 60)) / 60 == s2;
    assert s2 == s / 60000;
    var hrs := s2 / 60;
    assert (s2 - JsRem(s2, 60)) / 60 == hrs;
    assert hrs == s / 3600000;
  }

  /**
   * For a duration that is not negative, the text shows the whole hours
   * modulo 100, then the minutes and the seconds within the hour and minute.
   */
  lemma MsToTimeShows(s: int)
    requires s >= 0
    ensures MsToTime(s) ==
      TwoDigits((s / 3600000) % 100) + ":" + TwoDigits((s / 60000) % 60) + ":" + TwoDigits((s / 1000) % 60)
  {
    var h, m, sec := s / 3600000, (s / 60000) % 60, (s / 1000) % 60;
    assert Fields(s) == Clock(h, m, sec) by { FieldsOfNat(s); }
    assert MsToTime(s) == Pad2(h) + ":" + Pad2(m) + ":" + Pad2(sec);
    assert Pad2(h) == TwoDigits(h % 100) by { Pad2OfNat(h); }
    assert Pad2(m) == TwoDigits(m) by { Pad2Small(m); }
    assert Pad2(sec) == TwoDigits(sec) by { Pad2Small(sec); }
  }

  /** Below 100 hours the hour field is the whole number of hours. */
  lemma MsToTimeBelowHundredHours(s: int)
    requires 0 <= s < 100 * 3600000
    ensures MsToTime(s)[..2] == TwoDigits(s / 3600000)
  {
    var h := s / 3600000;
    assert h % 100 == h;
    MsToTimeShows(s);
  }

  /**
   * A negative duration is not clamped: the remainders keep the sign of the
   * dividend, so one second overdue shows a seconds field of "-1".
   */
  lemma MsToTimeOneSecondOverdue()
    ensures Fields(-1000) == Clock(0, 0, -1)
    ensures MsToTime(-1000) == ['0', '0', ':', '0', '0', ':', '-', '1']
  {
    assert Pad2(0) == ['0', '0'];
    assert Pad2(-1) == ['-', '1'];
  }
}
