/**
 * The pure part of the progress display (src/progress.cpp): the h/m/s text
 * of `formatDuration`, the whole seconds shown as elapsed time, the
 * remaining-time estimate and the choice between a duration, "unknown" and
 * "calculating..." for the file-progress rows. Durations are whole seconds;
 * `std::chrono` casts and `%` truncate toward zero, which `Quot` and `Rem`
 * write out because Dafny's `/` and `%` are Euclidean.
 */
module Display {
  import opened Wrappers
  import opened Decimal

  /** Integer division truncating toward zero, as C++ and `duration_cast` do it. */
  function Quot(a: int, b: int): (q: int)
    requires b > 0
    ensures a >= 0 ==> 0 <= a - q * b < b
    ensures a < 0 ==> -b < a - q * b <= 0
  {
    if a >= 0 then a / b else -((-a) / b)
  }

  /** The remainder that goes with `Quot`: it takes the sign of `a`. */
  function Rem(a: int, b: int): (r: int)
    requires b > 0
    ensures a == Quot(a, b) * b + r
    ensures a >= 0 ==> 0 <= r < b
    ensures a < 0 ==> -b < r <= 0
  {
    a - Quot(a, b) * b
  }

  /** Quotient and remainder are the only pair with the remainder's sign and bound. */
  lemma QuotUnique(a: int, b: int, q: int, r: int)
    requires b > 0 && a == q * b + r
    requires a >= 0 ==> 0 <= r < b
    requires a < 0 ==> -b < r <= 0
    ensures q == Quot(a, b) && r == Rem(a, b)
  {
    var q0, r0 := Quot(a, b), Rem(a, b);
    var k := q - q0;
    assert k * b == r0 - r;
    if k > 0 {
      MulAtLeast(k, b);
    } else if k < 0 {
      MulAtLeast(-k, b);
    }
  }

  /** A positive multiple of `b` is at least `b`. */
  lemma MulAtLeast(k: int, b: int)
    requires k >= 1 && b > 0
    ensures k * b >= b
  {
  }

  /** Hours, minutes and seconds of a duration. */
  datatype Hms = Hms(hours: int, minutes: int, seconds: int)

  /**
   * The split of `formatDuration`: hours by truncating division by 3600,
   * minutes from the remainder modulo one hour, seconds modulo one minute.
   */
  function Split(d: int): (t: Hms)
    ensures t.hours * 3600 + t.minutes * 60 + t.seconds == d
    ensures d >= 0 ==> t.hours >= 0 && 0 <= t.minutes < 60 && 0 <= t.seconds < 60
    ensures d < 0 ==> t.hours <= 0 && -60 < t.minutes <= 0 && -60 < t.seconds <= 0
  {
    var withinHour := Rem(d, 3600);
    var t := Hms(Quot(d, 3600), Quot(withinHour, 60), Rem(d, 60));
    QuotUnique(d, 60, Quot(d, 3600) * 60 + t.minutes, Rem(withinHour, 60));
    t
  }

  /** Any decomposition with the bounds and the sign of `d` is `Split(d)`. */
  lemma SplitUnique(d: int, t: Hms)
    requires t.hours * 3600 + t.minutes * 60 + t.seconds == d
    requires d >= 0 ==> t.hours >= 0 && 0 <= t.minutes < 60 && 0 <= t.seconds < 60
    requires d < 0 ==> t.hours <= 0 && -60 < t.minutes <= 0 && -60 < t.seconds <= 0
    ensures t == Split(d)
  {
    QuotUnique(d, 3600, t.hours, t.minutes * 60 + t.seconds);
    QuotUnique(d, 60, t.hours * 60 + t.minutes, t.seconds);
    var s := Split(d);
    QuotUnique(d, 3600, s.hours, s.minutes * 60 + s.seconds);
    QuotUnique(t.minutes * 60 + t.seconds, 60, t.minutes, t.seconds);
    QuotUnique(s.minutes * 60 + s.seconds, 60, s.minutes, s.seconds);
  }

  /**
   * `formatDuration`: "Hh Mm Ss" when there is at least one hour, "Mm Ss"
   * when there is at least one minute, otherwise "Ss".
   */
  function FormatDuration(d: int): (s: string)
    ensures s != [] && s[|s| - 1] == 's'
  {
    var t := Split(d);
    if t.hours > 0 then
      Field(t.hours, 'h') + " " + (Field(t.minutes, 'm') + " " + Field(t.seconds, 's'))
    else if t.minutes > 0 then
      Field(t.minutes, 'm') + " " + Field(t.seconds, 's')
    else
      Field(t.seconds, 's')
  }

  /** One field of a duration's text: the number, then its unit letter. */
  function Field(n: int, unit: char): (s: string)
    ensures s != [] && s[|s| - 1] == unit
  {
    IntToString(n) + [unit]
  }

  /**
   * Reads text of the form "N<u>", "N<u> N<u>", ... into (value, unit)
   * fields: each field a non-empty run of digits and one non-digit unit,
   * fields separated by one space.
   */
  function ReadFields(s: string): Option<seq<(nat, char)>>
    decreases |s|
  {
    var k := DigitRun(s);
    if k == 0 || k == |s| then None
    else
      var field := (ParseDigits(s[..k]), s[k]);
      if k + 1 == |s| then Some([field])
      else if s[k + 1] != ' ' then None
      else match ReadFields(s[k + 2..])
        case None => None
        case Some(more) => Some([field] + more)
  }

  /** Reads a duration written as `formatDuration` writes a non-negative one. */
  function ReadDuration(s: string): Option<int>
  {
    match ReadFields(s)
    case None => None
    case Some(fs) => FieldsValue(fs)
  }

  /** The seconds denoted by "h m s", "m s" or "s" fields; other unit patterns are rejected. */
  function FieldsValue(fs: seq<(nat, char)>): Option<int>
  {
    if |fs| == 3 && fs[0].1 == 'h' && fs[1].1 == 'm' && fs[2].1 == 's' then
      Some(fs[0].0 * 3600 + fs[1].0 * 60 + fs[2].0)
    else if |fs| == 2 && fs[0].1 == 'm' && fs[1].1 == 's' then
      Some(fs[0].0 * 60 + fs[1].0)
    else if |fs| == 1 && fs[0].1 == 's' then
      Some(fs[0].0)
    else None
  }

  /** A last field is read back as its value and unit. */
  lemma ReadLastField(n: nat, u: char)
    requires !IsDigit(u)
    ensures ReadFields(Field(n, u)) == Some([(n, u)])
  {
    var a := IntToString(n);
    DigitRunStops(a, u, []);
    assert a + [u] == a + [u] + [];
    assert (a + [u])[..|a|] == a;
    ParseNatToString(n);
  }

  /** A field followed by a space and more fields is read back in front of them. */
  lemma ReadFieldThen(n: nat, u: char, rest: string)
    requires !IsDigit(u) && ReadFields(rest).Some?
    ensures ReadFields(Field(n, u) + " " + rest) == Some([(n, u)] + ReadFields(rest).value)
  {
    var a := IntToString(n);
    var s := a + [u] + " " + rest;
    assert s == a + [u] + (" " + rest);
    DigitRunStops(a, u, " " + rest);
    assert s[..|a|] == a;
    assert s[|a| + 1] == ' ';
    assert s[|a| + 2..] == rest;
    ParseNatToString(n);
  }

  /** "Mm Ss" is read back as two fields. */
  lemma ReadMinutesText(m: nat, sec: nat)
    ensures ReadFields(Field(m, 'm') + " " + Field(sec, 's')) == Some([(m, 'm'), (sec, 's')])
  {
    assert [(m, 'm')] + [(sec, 's')] == [(m, 'm'), (sec, 's')];
    ReadLastField(sec, 's');
    ReadFieldThen(m, 'm', Field(sec, 's'));
  }

  /** "Hh Mm Ss" is read back as three fields. */
  lemma ReadHoursText(h: nat, m: nat, sec: nat)
    ensures ReadFields(Field(h, 'h') + " " + (Field(m, 'm') + " " + Field(sec, 's')))
      == Some([(h, 'h'), (m, 'm'), (sec, 's')])
  {
    assert [(h, 'h')] + [(m, 'm'), (sec, 's')] == [(h, 'h'), (m, 'm'), (sec, 's')];
    ReadMinutesText(m, sec);
    ReadFieldThen(h, 'h', Field(m, 'm') + " " + Field(sec, 's'));
  }

  /** Reading a duration is reading its fields, then their value. */
  lemma ReadDurationOfFields(s: string, fs: seq<(nat, char)>)
    requires ReadFields(s) == Some(fs)
    ensures ReadDuration(s) == FieldsValue(fs)
  {
  }

  /** "Hh Mm Ss" reads back as h·3600 + m·60 + s. */
  lemma ReadHoursDuration(h: nat, m: nat, sec: nat)
    ensures ReadDuration(Field(h, 'h') + " " + (Field(m, 'm') + " " + Field(sec, 's'))) == Some(h * 3600 + m * 60 + sec)
  {
    var fs := [(h, 'h'), (m, 'm'), (sec, 's')];
    assert FieldsValue(fs) == Some(h * 3600 + m * 60 + sec);
    ReadHoursText(h, m, sec);
    ReadDurationOfFields(Field(h, 'h') + " " + (Field(m, 'm') + " " + Field(sec, 's')), fs);
  }

  /** "Mm Ss" reads back as m·60 + s. */
  lemma ReadMinutesDuration(m: nat, sec: nat)
    ensures ReadDuration(Field(m, 'm') + " " + Field(sec, 's')) == Some(m * 60 + sec)
  {
    var fs := [(m, 'm'), (sec, 's')];
    assert FieldsValue(fs) == Some(m * 60 + sec);
    ReadMinutesText(m, sec);
    ReadDurationOfFields(Field(m, 'm') + " " + Field(sec, 's'), fs);
  }

  /** "Ss" reads back as s. */
  lemma ReadSecondsDuration(sec: nat)
    ensures ReadDuration(Field(sec, 's')) == Some(sec)
  {
    ReadLastField(sec, 's');
    ReadDurationOfFields(Field(sec, 's'), [(sec, 's')]);
  }

  /** The text `formatDuration` builds from non-negative fields reads back as their total. */
  lemma ReadDurationOfText(h: nat, m: nat, sec: nat, text: string)
    requires text == if h > 0 then Field(h, 'h') + " " + (Field(m, 'm') + " " + Field(sec, 's'))
      else if m > 0 then Field(m, 'm') + " " + Field(sec, 's')
      else Field(sec, 's')
    ensures ReadDuration(text) == Some(h * 3600 + m * 60 + sec)
  {
    if h > 0 {
      ReadHoursDuration(h, m, sec);
    } else if m > 0 {
      ReadMinutesDuration(m, sec);
    } else {
      ReadSecondsDuration(sec);
    }
  }

  /** `ReadDuration` inverts `FormatDuration` on every non-negative duration. */
  lemma FormatDurationRoundTrip(d: int)
    requires d >= 0
    ensures ReadDuration(FormatDuration(d)) == Some(d)
  {
    var t := Split(d);
    assert t.hours * 3600 + t.minutes * 60 + t.seconds == d;
    ReadDurationOfText(t.hours, t.minutes, t.seconds, FormatDuration(d));
  }

  /**
   * A negative duration (a clock that went backwards) is shown by its
   * seconds part alone, since hours and minutes are then never positive; the
   * text never reads back as the duration.
   */
  lemma NegativeDurationShowsSeconds(d: int)
    requires d < 0
    ensures FormatDuration(d) == Field(Rem(d, 60), 's')
    ensures ReadDuration(FormatDuration(d)) != Some(d)
  {
    var s := FormatDuration(d);
    if Rem(d, 60) < 0 {
      assert s[0] == '-';
      assert DigitRun(s) == 0;
    } else {
      ReadLastField(0, 's');
    }
  }

  /** `static_cast<long>` of a real: truncation toward zero. */
  function Trunc(x: real): (n: int)
    ensures x >= 0.0 ==> n as real <= x < n as real + 1.0
    ensures x < 0.0 ==> n as real - 1.0 < x <= n as real
  {
    if x >= 0.0 then x.Floor else -((-x).Floor)
  }

  /**
   * Whole seconds of elapsed time, as `duration_cast<seconds>` of the
   * difference between two millisecond timestamps.
   */
  function ElapsedSeconds(nowMs: int, startMs: int): (e: int)
    ensures nowMs >= startMs ==> e >= 0 && e * 1000 <= nowMs - startMs < e * 1000 + 1000
    ensures nowMs < startMs ==> e <= 0 && e * 1000 - 1000 < nowMs - startMs <= e * 1000
  {
    Quot(nowMs - startMs, 1000)
  }

  /**
   * The remaining-time estimate: the elapsed time scaled up to the whole file
   * by the percentage done, minus the elapsed time, truncated to seconds. It
   * is the truncation of elapsed * (100 - p) / p, so never negative while
   * the elapsed time is not.
   */
  function RemainingSeconds(elapsed: int, percentage: real): (r: int)
    requires 0.1 < percentage < 99.9
    ensures r == Trunc(elapsed as real * (100.0 - percentage) / percentage)
    ensures elapsed >= 0 ==> r >= 0
  {
    var estimatedTotal := elapsed as real / (percentage / 100.0);
    assert estimatedTotal - elapsed as real == elapsed as real * (100.0 - percentage) / percentage by {
      ScaleToWhole(elapsed as real, percentage);
    }
    assert elapsed >= 0 ==> elapsed as real * (100.0 - percentage) >= 0.0;
    Trunc(estimatedTotal - elapsed as real)
  }

  /** e / (p / 100) - e == e * (100 - p) / p for a positive percentage p. */
  lemma ScaleToWhole(e: real, p: real)
    requires p > 0.0
    ensures e / (p / 100.0) - e == e * (100.0 - p) / p
  {
    var f := p / 100.0;
    assert e / f == e * 100.0 / p;
    assert e == e * p / p;
  }

  /** The text shown in place of a value that is not available yet. */
  const Unknown: string := "unknown"
  const Calculating: string := "calculating..."

  /** What the file-progress row holds: a percentage, or "unknown". */
  datatype FileCell = Percent(value: real) | UnknownFile

  /** The file-progress row: the percentage when it is known (not negative). */
  function FileProgressCell(percentage: real): (c: FileCell)
    ensures c == UnknownFile <==> percentage < 0.0
    ensures c.Percent? ==> c.value == percentage
  {
    if percentage >= 0.0 then Percent(percentage) else UnknownFile
  }

  /**
   * The estimated-remaining row: "unknown" when the percentage is unknown,
   * a duration only strictly between 0.1 and 99.9 percent, and
   * "calculating..." otherwise.
   */
  function RemainingCell(elapsed: int, percentage: real): (text: string)
    ensures text == Unknown <==> percentage < 0.0
    ensures text == Calculating <==> 0.0 <= percentage && !(0.1 < percentage < 99.9)
    ensures 0.1 < percentage < 99.9 ==> text == FormatDuration(RemainingSeconds(elapsed, percentage))
  {
    if percentage >= 0.0 then
      if percentage > 0.1 && percentage < 99.9 then
        var text := FormatDuration(RemainingSeconds(elapsed, percentage));
        assert text[|text| - 1] != Unknown[|Unknown| - 1];
        assert text[|text| - 1] != Calculating[|Calculating| - 1];
        text
      else Calculating
    else Unknown
  }

  /** The elapsed-time text reads back as the elapsed seconds while the clock has not gone backwards. */
  lemma ElapsedReadsBack(nowMs: int, startMs: int)
    ensures nowMs >= startMs ==> ReadDuration(FormatDuration(ElapsedSeconds(nowMs, startMs))) == Some(ElapsedSeconds(nowMs, startMs))
  {
    if nowMs >= startMs {
      FormatDurationRoundTrip(ElapsedSeconds(nowMs, startMs));
    }
  }

  /** The live rows that are modelled: pages, elapsed time, file progress and remaining time. */
  datatype LiveView = LiveView(pages: string, elapsed: string, file: FileCell, remaining: string)

  /** The rows shown at completion: status, total pages and total time. */
  datatype FinalView = FinalView(status: string, total: string, time: string)

  /** One refresh of the live display from the tracker's values and the clock. */
  function Live(count: int, nowMs: int, startMs: int, percentage: real): (v: LiveView)
    ensures ParseInt(v.pages) == Some(count)
    ensures nowMs >= startMs ==> ReadDuration(v.elapsed) == Some(ElapsedSeconds(nowMs, startMs))
    ensures v.file == FileProgressCell(percentage)
    ensures v.remaining == RemainingCell(ElapsedSeconds(nowMs, startMs), percentage)
  {
    var elapsed := ElapsedSeconds(nowMs, startMs);
    IntToStringRoundTrip(count);
    ElapsedReadsBack(nowMs, startMs);
    LiveView(IntToString(count), FormatDuration(elapsed), FileProgressCell(percentage), RemainingCell(elapsed, percentage))
  }

  /** The completion rows, shown once the render loop has been stopped. */
  function Final(count: int, nowMs: int, startMs: int): (v: FinalView)
    ensures v.status == "COMPLETED!"
    ensures ParseInt(v.total) == Some(count)
    ensures nowMs >= startMs ==> ReadDuration(v.time) == Some(ElapsedSeconds(nowMs, startMs))
  {
    var elapsed := ElapsedSeconds(nowMs, startMs);
    IntToStringRoundTrip(count);
    ElapsedReadsBack(nowMs, startMs);
    FinalView("COMPLETED!", IntToString(count), FormatDuration(elapsed))
  }

  /**
   * With a clock that does not go backwards and a percentage strictly
   * between 0.1 and 99.9, the remaining row reads back as the truncated
   * estimate elapsed * (100 - p) / p.
   */
  lemma RemainingReadsBack(elapsed: int, percentage: real)
    requires elapsed >= 0 && 0.1 < percentage < 99.9
    ensures ReadDuration(RemainingCell(elapsed, percentage))
      == Some(Trunc(elapsed as real * (100.0 - percentage) / percentage))
  {
    FormatDurationRoundTrip(RemainingSeconds(elapsed, percentage));
  }
}
