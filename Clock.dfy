/**
 * Check-in times. Records carry them as "HH:MM" strings; some rules compare those strings
 * directly (`time >= "20:00"`, `timeIn > "17:10"`) and others convert them to minutes.
 */
module Clock {
  import opened Wrappers
  import opened Text

  /**
   * `timeToMinutes`: `const [hh, mm] = s.split(":").map(Number); return hh * 60 + mm`,
   * with `None` for the `NaN` that a missing or non-numeric part produces.
   */
  function Minutes(s: string): Option<int>
  {
    var parts := Split(s, ':');
    var hh := JsNumber(parts[0]);
    var mm := if |parts| >= 2 then JsNumber(parts[1]) else None;
    if hh.Some? && mm.Some? then Some(hh.value * 60 + mm.value) else None
  }

  /** A zero-padded 24-hour "HH:MM" reading, as `<input type="time">` produces. */
  predicate IsClock(s: string)
  {
    |s| == 5 && IsDigit(s[0]) && IsDigit(s[1]) && s[2] == ':' && IsDigit(s[3]) && IsDigit(s[4])
    && DigitValue(s[0]) * 10 + DigitValue(s[1]) < 24
    && DigitValue(s[3]) * 10 + DigitValue(s[4]) < 60
  }

  /** Minutes after midnight read off the four digits of a clock reading. */
  function ClockMinutes(s: string): (n: int)
    requires IsClock(s)
    ensures 0 <= n < 24 * 60
  {
    (DigitValue(s[0]) * 10 + DigitValue(s[1])) * 60 + DigitValue(s[3]) * 10 + DigitValue(s[4])
  }

  /** On a clock reading, `timeToMinutes` returns hours × 60 + minutes. */
  lemma MinutesOfClock(s: string)
    requires IsClock(s)
    ensures Minutes(s) == Some(ClockMinutes(s))
  {
    ClockSplit(s);
    TwoDigitField(s[..2]);
    TwoDigitField(s[3..]);
    MinutesOfFields(s, DigitValue(s[0]) * 10 + DigitValue(s[1]), DigitValue(s[3]) * 10 + DigitValue(s[4]));
  }

  /** Hours and minutes read off the first two fields give `timeToMinutes`. */
  lemma MinutesOfFields(s: string, h: int, m: int)
    requires |Split(s, ':')| >= 2
    requires JsNumber(Split(s, ':')[0]) == Some(h) && JsNumber(Split(s, ':')[1]) == Some(m)
    ensures Minutes(s) == Some(h * 60 + m)
  {
  }

  /** A clock reading splits at its colon into the hour and minute fields. */
  lemma ClockSplit(s: string)
    requires IsClock(s)
    ensures Split(s, ':') == [s[..2], s[3..]]
    ensures s[..2] == [s[0], s[1]] && s[3..] == [s[3], s[4]]
  {
    var hh, mm := s[..2], s[3..];
    assert Join([hh, mm], ':') == s;
    assert hh == [s[0], s[1]] && mm == [s[3], s[4]];
    SplitJoin([hh, mm], ':');
  }

  /** `Number` of a two-digit field is tens × 10 + units. */
  lemma TwoDigitField(f: string)
    requires |f| == 2 && IsDigit(f[0]) && IsDigit(f[1])
    ensures JsNumber(f) == Some(DigitValue(f[0]) * 10 + DigitValue(f[1]))
  {
    assert AllDigits(f);
    JsNumberDigits(f);
    assert f[..1] == [f[0]] && f[..1][..0] == [];
    assert DecimalValue(f[..1]) == DigitValue(f[0]);
  }

  /** For clock readings, JavaScript's string `<` orders them exactly as their minutes. */
  lemma {:induction false} ClockOrder(a: string, b: string)
    requires IsClock(a) && IsClock(b)
    ensures Less(a, b) <==> ClockMinutes(a) < ClockMinutes(b)
  {
    assert a[1..][1..] == a[2..] && b[1..][1..] == b[2..];
    assert a[2..][1..] == a[3..] && b[2..][1..] == b[3..];
    assert a[3..][1..] == a[4..] && b[3..][1..] == b[4..];
    assert a[4..][1..] == [] && b[4..][1..] == [];
    if a[0] != b[0] {
    } else if a[1] != b[1] {
      assert Less(a, b) == Less(a[1..], b[1..]);
    } else if a[3] != b[3] {
      assert Less(a, b) == Less(a[1..], b[1..]) == Less(a[2..], b[2..]) == Less(a[3..], b[3..]);
    } else if a[4] != b[4] {
      assert Less(a, b) == Less(a[1..], b[1..]) == Less(a[2..], b[2..]) == Less(a[3..], b[3..]) == Less(a[4..], b[4..]);
    } else {
      assert Less(a, b) == Less(a[1..], b[1..]) == Less(a[2..], b[2..]) == Less(a[3..], b[3..]) == Less(a[4..], b[4..]);
      assert Less(a[4..], b[4..]) == Less(a[4..][1..], b[4..][1..]);
    }
  }

  /** `time >= "20:00"` on a clock reading means 1200 minutes or later. */
  lemma AtOrAfterEightPm(t: string)
    requires IsClock(t)
    ensures !Less(t, "20:00") <==> ClockMinutes(t) >= 1200
  {
    ClockOrder(t, "20:00");
  }

  /** `timeIn > "17:10"` on a clock reading means after 1030 minutes (5:10 PM). */
  lemma AfterTenPastFive(t: string)
    requires IsClock(t)
    ensures Less("17:10", t) <==> ClockMinutes(t) > 1030
  {
    ClockOrder("17:10", t);
  }
}
