/**
  The timestamp formatter of utility.py (`format_timestamp`): a non-negative
  offset in seconds becomes `[HH:]MM:SS<marker>mmm`.
*/
module TimestampFormat {
  import opened Results
  import opened Decimal

  const MsPerSecond: nat := 1_000
  const MsPerMinute: nat := 60_000
  const MsPerHour: nat := 3_600_000

  /** The four fields the floor-division cascade produces. */
  datatype Clock = Clock(hours: nat, minutes: nat, seconds: nat, millis: nat)

  /** The only failure: the assertion on a negative offset. */
  datatype TimestampError = NegativeTimestamp

  function Total(c: Clock): nat {
    c.hours * MsPerHour + c.minutes * MsPerMinute + c.seconds * MsPerSecond + c.millis
  }

  /** Minutes, seconds and milliseconds are within their ranges; hours are unbounded. */
  predicate Normal(c: Clock) {
    c.minutes < 60 && c.seconds < 60 && c.millis < 1_000
  }

  /** The decomposition of a millisecond total: lossless and normal. */
  function Split(total: nat): (c: Clock)
    ensures Normal(c) && Total(c) == total
  {
    var h := total / MsPerHour;
    var rest := total % MsPerHour;
    Clock(h, rest / MsPerMinute, rest % MsPerMinute / MsPerSecond, rest % MsPerSecond)
  }

  /** There is only one normal clock for each total, so the cascade never yields `00:61:...`. */
  lemma SplitUnique(c: Clock)
    requires Normal(c)
    ensures Split(Total(c)) == c
  {
    var rest := c.minutes * MsPerMinute + c.seconds * MsPerSecond + c.millis;
    assert rest < MsPerHour;
    DivModUnique(Total(c), c.hours, rest, MsPerHour);
    var low := c.seconds * MsPerSecond + c.millis;
    DivModUnique(rest, c.minutes, low, MsPerMinute);
    DivModUnique(low, c.seconds, c.millis, MsPerSecond);
    assert rest % MsPerMinute == low;
    ModOfMod(rest, c.minutes * 60, low, MsPerSecond);
  }

  lemma DivModUnique(a: nat, q: nat, r: nat, k: nat)
    requires k > 0 && r < k && a == q * k + r
    ensures a / k == q && a % k == r
  {
    var q', r' := a / k, a % k;
    assert a == q' * k + r';
    if q' < q {
      MulMonotone(q' + 1, q, k);
      assert false;
    } else if q < q' {
      MulMonotone(q + 1, q', k);
      assert false;
    }
  }

  lemma MulMonotone(x: nat, y: nat, k: nat)
    requires x <= y
    ensures x * k <= y * k
  {
  }

  lemma ModOfMod(a: nat, m: nat, r: nat, k: nat)
    requires k > 0 && a == m * k + r
    ensures a % k == r % k
  {
    DivModUnique(a, m + r / k, r % k, k);
  }

  /** Python's `round` on an exact value: the nearest integer, ties to the even one. */
  function RoundHalfEven(x: real): (r: int)
    ensures r as real - 0.5 <= x <= r as real + 0.5
    ensures x - x.Floor as real == 0.5 ==> r % 2 == 0
  {
    var f := x.Floor;
    var d := x - f as real;
    if d < 0.5 then f
    else if d > 0.5 then f + 1
    else if f % 2 == 0 then f
    else f + 1
  }

  /** The rounding is determined by its two properties. */
  lemma RoundUnique(x: real, n: int)
    requires n as real - 0.5 <= x <= n as real + 0.5
    requires x - x.Floor as real == 0.5 ==> n % 2 == 0
    ensures n == RoundHalfEven(x)
  {
  }

  /** The f-string of utility.py building the clock text from the four fields. */
  function Layout(c: Clock, alwaysIncludeHours: bool, marker: string): string {
    var hoursMarker := if alwaysIncludeHours || c.hours > 0 then Pad(c.hours, 2) + ":" else "";
    hoursMarker + Pad(c.minutes, 2) + ":" + Pad(c.seconds, 2) + marker + Pad(c.millis, 3)
  }

  /** The text for a millisecond total. */
  function FormatMillis(total: nat, alwaysIncludeHours: bool, marker: string): string {
    Layout(Split(total), alwaysIncludeHours, marker)
  }

  /** `round(seconds * 1000.0)`: the offset in whole milliseconds. */
  function Millis(seconds: real): (ms: int)
    ensures seconds >= 0.0 ==> ms >= 0
  {
    RoundHalfEven(seconds * 1000.0)
  }

  /** `format_timestamp(seconds, always_include_hours, decimal_marker)` as a value. */
  function Timestamp(seconds: real, alwaysIncludeHours: bool := false, marker: string := "."): (r: Result<string, TimestampError>)
    ensures r.Failure? <==> seconds < 0.0
    ensures r.Success? ==> r.value == FormatMillis(Millis(seconds), alwaysIncludeHours, marker)
  {
    if seconds < 0.0 then Failure(NegativeTimestamp)
    else Success(FormatMillis(Millis(seconds), alwaysIncludeHours, marker))
  }

  /** `format_timestamp`, step by step: the cascade updates `milliseconds` in place. */
  method FormatTimestamp(seconds: real, alwaysIncludeHours: bool := false, marker: string := ".")
    returns (r: Result<string, TimestampError>)
    ensures r == Timestamp(seconds, alwaysIncludeHours, marker)
  {
    if seconds < 0.0 {
      return Failure(NegativeTimestamp);
    }
    var milliseconds: int := RoundHalfEven(seconds * 1000.0);
    ghost var total := milliseconds;

    var hours := milliseconds / MsPerHour;
    milliseconds := milliseconds - hours * MsPerHour;

    var minutes := milliseconds / MsPerMinute;
    milliseconds := milliseconds - minutes * MsPerMinute;

    var secs := milliseconds / MsPerSecond;
    milliseconds := milliseconds - secs * MsPerSecond;

    var c := Clock(hours, minutes, secs, milliseconds);
    assert Normal(c) && Total(c) == total;
    SplitUnique(c);

    var hoursMarker := if alwaysIncludeHours || hours > 0 then Pad(hours, 2) + ":" else "";
    r := Success(hoursMarker + Pad(minutes, 2) + ":" + Pad(secs, 2) + marker + Pad(milliseconds, 3));
  }

  /**
    Reads the four fields back out of a clock text whose decimal marker has
    `markerLength` characters: the last 3 characters are milliseconds, then
    the marker, 2 seconds digits, ':', 2 minutes digits, and an optional
    hours field ending in ':'.
  */
  function Fields(s: string, markerLength: nat): Option<Clock> {
    if |s| < 8 + markerLength then None
    else
      var n := |s|;
      var hh := s[..n - 8 - markerLength];
      var mm := s[n - 8 - markerLength..n - 6 - markerLength];
      var ss := s[n - 5 - markerLength..n - 3 - markerLength];
      var ms := s[n - 3..];
      var hours := HoursField(hh);
      if s[n - 6 - markerLength] == ':' && AllDigits(mm) && AllDigits(ss) && AllDigits(ms) && hours.Some?
      then Some(Clock(hours.value, Value(mm), Value(ss), Value(ms)))
      else None
  }

  /** The optional hours field: empty means zero hours, otherwise digits followed by ':'. */
  function HoursField(hh: string): Option<nat> {
    if hh == [] then Some(0)
    else if |hh| >= 2 && hh[|hh| - 1] == ':' && AllDigits(hh[..|hh| - 1]) then Some(Value(hh[..|hh| - 1]))
    else None
  }

  /** The millisecond total a clock text denotes. */
  function Parse(s: string, markerLength: nat): Option<nat> {
    match Fields(s, markerLength)
    case None => None
    case Some(c) => Some(Total(c))
  }

  /** The hours part of a clock text, with its ':' (empty when the hours are omitted). */
  function HoursPart(s: string, markerLength: nat): string
    requires |s| >= 8 + markerLength
  {
    s[..|s| - 8 - markerLength]
  }

  /** The decimal marker sits right before the last three characters. */
  predicate MarkerBeforeMillis(s: string, marker: string) {
    |s| >= 3 + |marker| && s[|s| - 3 - |marker|..|s| - 3] == marker
  }

  /** A one-character marker is the fourth character from the end. */
  lemma MarkerChar(s: string, marker: char)
    requires MarkerBeforeMillis(s, [marker])
    ensures |s| >= 4 && s[|s| - 4] == marker
  {
    assert s[|s| - 4] == s[|s| - 4..|s| - 3][0];
  }

  /** The minutes, seconds and milliseconds fields always have widths 2, 2 and 3. */
  lemma FixedWidths(c: Clock)
    requires Normal(c)
    ensures |Pad(c.minutes, 2)| == 2 && |Pad(c.seconds, 2)| == 2 && |Pad(c.millis, 3)| == 3
  {
    assert Pow10(2) == 100;
    assert Pow10(3) == 1000;
    PadWidth(c.minutes, 2);
    PadWidth(c.seconds, 2);
    PadWidth(c.millis, 3);
  }

  /** Where each piece of `h + mm + ":" + ss + marker + ms` lands, for fixed-width mm, ss and ms. */
  lemma Pieces(h: string, mm: string, ss: string, marker: string, ms: string)
    requires |mm| == 2 && |ss| == 2 && |ms| == 3
    ensures var s := h + mm + ":" + ss + marker + ms;
      var n, L := |s|, |marker|;
      && n == |h| + 8 + L
      && s[..n - 8 - L] == h
      && s[n - 8 - L..n - 6 - L] == mm
      && s[n - 6 - L] == ':'
      && s[n - 5 - L..n - 3 - L] == ss
      && s[n - 3 - L..n - 3] == marker
      && s[n - 3..] == ms
  {
    var s := h + mm + ":" + ss + marker + ms;
    var n, L := |s|, |marker|;
    assert s == h + (mm + ":" + ss + marker + ms);
    assert s[..n - 8 - L] == h;
    var t := mm + ":" + ss + marker + ms;
    assert s[n - 8 - L..] == t;
    assert t[..2] == mm;
    assert t[3..5] == ss;
    assert t[5..5 + L] == marker;
    assert t[5 + L..] == ms;
  }

  /**
    The shape of a clock text: the fields read back are exactly the
    decomposition, the marker sits between seconds and milliseconds, and
    the hours part is present exactly when forced or when hours are positive.
  */
  lemma FormatFields(total: nat, alwaysIncludeHours: bool, marker: string)
    ensures var s := FormatMillis(total, alwaysIncludeHours, marker);
      && |s| >= 8 + |marker|
      && Fields(s, |marker|) == Some(Split(total))
      && MarkerBeforeMillis(s, marker)
      && (HoursPart(s, |marker|) != [] <==> alwaysIncludeHours || Split(total).hours > 0)
  {
    LayoutFields(Split(total), alwaysIncludeHours, marker);
  }

  /** `FormatFields` for any normal clock. */
  lemma LayoutFields(c: Clock, alwaysIncludeHours: bool, marker: string)
    requires Normal(c)
    ensures var s := Layout(c, alwaysIncludeHours, marker);
      && |s| >= 8 + |marker|
      && Fields(s, |marker|) == Some(c)
      && MarkerBeforeMillis(s, marker)
      && (HoursPart(s, |marker|) != [] <==> alwaysIncludeHours || c.hours > 0)
  {
    FixedWidths(c);
    var hoursMarker := if alwaysIncludeHours || c.hours > 0 then Pad(c.hours, 2) + ":" else "";
    var mm, ss, ms := Pad(c.minutes, 2), Pad(c.seconds, 2), Pad(c.millis, 3);
    assert Layout(c, alwaysIncludeHours, marker) == hoursMarker + mm + ":" + ss + marker + ms;
    Pieces(hoursMarker, mm, ss, marker, ms);
    if hoursMarker != [] {
      HoursFieldOfPad(c.hours);
    }
    FieldsOfPieces(hoursMarker, mm, ss, marker, ms);
  }

  /** A padded hours number followed by ':' reads back as that number. */
  lemma HoursFieldOfPad(n: nat)
    ensures HoursField(Pad(n, 2) + ":") == Some(n)
  {
    var h := Pad(n, 2) + ":";
    assert h[..|h| - 1] == Pad(n, 2);
  }

  /** Reading the fields of a text assembled from well-formed pieces gives back the pieces' values. */
  lemma FieldsOfPieces(h: string, mm: string, ss: string, marker: string, ms: string)
    requires |mm| == 2 && |ss| == 2 && |ms| == 3 && AllDigits(mm) && AllDigits(ss) && AllDigits(ms)
    requires HoursField(h).Some?
    ensures Fields(h + mm + ":" + ss + marker + ms, |marker|)
      == Some(Clock(HoursField(h).value, Value(mm), Value(ss), Value(ms)))
  {
    Pieces(h, mm, ss, marker, ms);
  }

  /** Round trip: parsing a formatted total gives the total back, whatever the hours rule chose. */
  lemma ParseFormat(total: nat, alwaysIncludeHours: bool, marker: string)
    ensures Parse(FormatMillis(total, alwaysIncludeHours, marker), |marker|) == Some(total)
  {
    FormatFields(total, alwaysIncludeHours, marker);
  }

  /**
    The hours field is two digits below 100 hours and grows beyond that
    (`:02d` pads but never truncates).
  */
  lemma HoursWidth(total: nat, marker: string)
    ensures var s := FormatMillis(total, true, marker);
      |s| >= 8 + |marker| &&
      (|HoursPart(s, |marker|)| == 3 <==> Split(total).hours < 100)
  {
    FormatFields(total, true, marker);
    var c := Split(total);
    var s := FormatMillis(total, true, marker);
    FixedWidths(c);
    assert Pow10(2) == 100;
    PadWidth(c.hours, 2);
    assert |s| == |Pad(c.hours, 2)| + 9 + |marker|;
  }

  /** An offset that is a whole number of milliseconds is not moved by the rounding. */
  lemma WholeMillis(seconds: real, ms: int)
    requires seconds * 1000.0 == ms as real
    ensures Millis(seconds) == ms
  {
    RoundUnique(ms as real, ms);
  }

  /** Hours shown and below 100, a one-character marker: the text is `HH:MM:SS<marker>mmm`, digit by digit. */
  lemma ClockDigits(c: Clock, marker: char)
    requires Normal(c) && c.hours < 100
    ensures Layout(c, true, [marker])
      == [DigitChar(c.hours / 10), DigitChar(c.hours % 10), ':',
          DigitChar(c.minutes / 10), DigitChar(c.minutes % 10), ':',
          DigitChar(c.seconds / 10), DigitChar(c.seconds % 10), marker,
          DigitChar(c.millis / 100), DigitChar(c.millis / 10 % 10), DigitChar(c.millis % 10)]
  {
    PadTwo(c.hours);
    PadTwo(c.minutes);
    PadTwo(c.seconds);
    PadThree(c.millis);
  }

  /** Hours zero and not forced, a one-character marker: the text is `MM:SS<marker>mmm`, digit by digit. */
  lemma ShortClockDigits(c: Clock, marker: char)
    requires Normal(c) && c.hours == 0
    ensures Layout(c, false, [marker])
      == [DigitChar(c.minutes / 10), DigitChar(c.minutes % 10), ':',
          DigitChar(c.seconds / 10), DigitChar(c.seconds % 10), marker,
          DigitChar(c.millis / 100), DigitChar(c.millis / 10 % 10), DigitChar(c.millis % 10)]
  {
    PadTwo(c.minutes);
    PadTwo(c.seconds);
    PadThree(c.millis);
  }

  /** A text agrees with `ClockDigits` character by character. */
  lemma ClockText(c: Clock, marker: char, t: string)
    requires Normal(c) && c.hours < 100 && |t| == 12
    requires t[0] == DigitChar(c.hours / 10) && t[1] == DigitChar(c.hours % 10) && t[2] == ':'
    requires t[3] == DigitChar(c.minutes / 10) && t[4] == DigitChar(c.minutes % 10) && t[5] == ':'
    requires t[6] == DigitChar(c.seconds / 10) && t[7] == DigitChar(c.seconds % 10) && t[8] == marker
    requires t[9] == DigitChar(c.millis / 100) && t[10] == DigitChar(c.millis / 10 % 10) && t[11] == DigitChar(c.millis % 10)
    ensures Layout(c, true, [marker]) == t
  {
    ClockDigits(c, marker);
    assert t == [t[0], t[1], t[2], t[3], t[4], t[5], t[6], t[7], t[8], t[9], t[10], t[11]] by {
      Characters(t);
    }
  }

  /** A text agrees with `ShortClockDigits` character by character. */
  lemma ShortClockText(c: Clock, marker: char, t: string)
    requires Normal(c) && c.hours == 0 && |t| == 9
    requires t[0] == DigitChar(c.minutes / 10) && t[1] == DigitChar(c.minutes % 10) && t[2] == ':'
    requires t[3] == DigitChar(c.seconds / 10) && t[4] == DigitChar(c.seconds % 10) && t[5] == marker
    requires t[6] == DigitChar(c.millis / 100) && t[7] == DigitChar(c.millis / 10 % 10) && t[8] == DigitChar(c.millis % 10)
    ensures Layout(c, false, [marker]) == t
  {
    ShortClockDigits(c, marker);
    assert t == [t[0], t[1], t[2], t[3], t[4], t[5], t[6], t[7], t[8]] by {
      Characters(t);
    }
  }

  /** A short text is the sequence of its characters. */
  lemma Characters(t: string)
    ensures |t| == 9 ==> t == [t[0], t[1], t[2], t[3], t[4], t[5], t[6], t[7], t[8]]
    ensures |t| == 12 ==> t == [t[0], t[1], t[2], t[3], t[4], t[5], t[6], t[7], t[8], t[9], t[10], t[11]]
  {
  }

  /** 3661200 ms is one hour, one minute, 1.2 seconds: the carry lands in the hours field. */
  lemma CarryIntoHours()
    ensures FormatMillis(3_661_200, true, ",") == "01:01:01,200"
    ensures Timestamp(3661.2, true, ",") == Success("01:01:01,200")
  {
    var c := Clock(1, 1, 1, 200);
    assert Total(c) == 3_661_200;
    SplitUnique(c);
    CarryText();
    WholeMillis(3661.2, 3_661_200);
  }

  lemma CarryText()
    ensures Layout(Clock(1, 1, 1, 200), true, [',']) == "01:01:01,200"
  {
    assert DigitChar(0) == '0' && DigitChar(1) == '1' && DigitChar(2) == '2';
    ClockText(Clock(1, 1, 1, 200), ',', "01:01:01,200");
  }

  /** The two offsets of a 1.5-second segment starting at 0, as SRT shows them. */
  lemma ZeroSeconds()
    ensures Timestamp(0.0, true, ",") == Success("00:00:00,000")
  {
    var c := Clock(0, 0, 0, 0);
    SplitUnique(c);
    ZeroText();
    WholeMillis(0.0, 0);
  }

  lemma ZeroText()
    ensures Layout(Clock(0, 0, 0, 0), true, [',']) == "00:00:00,000"
  {
    assert DigitChar(0) == '0';
    ClockText(Clock(0, 0, 0, 0), ',', "00:00:00,000");
  }

  lemma OneAndAHalfSeconds()
    ensures Timestamp(1.5, true, ",") == Success("00:00:01,500")
  {
    var c := Clock(0, 0, 1, 500);
    assert Total(c) == 1_500;
    SplitUnique(c);
    OneAndAHalfText();
    WholeMillis(1.5, 1_500);
  }

  lemma OneAndAHalfText()
    ensures Layout(Clock(0, 0, 1, 500), true, [',']) == "00:00:01,500"
  {
    assert DigitChar(0) == '0' && DigitChar(1) == '1' && DigitChar(5) == '5';
    ClockText(Clock(0, 0, 1, 500), ',', "00:00:01,500");
  }

  /** Hours are left out when zero and not forced; the marker is the caller's. */
  lemma HoursOmitted()
    ensures Timestamp(123.456) == Success("02:03.456")
  {
    var c := Clock(0, 2, 3, 456);
    assert Total(c) == 123_456;
    SplitUnique(c);
    HoursOmittedText();
    WholeMillis(123.456, 123_456);
  }

  lemma HoursOmittedText()
    ensures Layout(Clock(0, 2, 3, 456), false, ['.']) == "02:03.456"
  {
    assert DigitChar(0) == '0' && DigitChar(2) == '2' && DigitChar(3) == '3' && DigitChar(4) == '4' && DigitChar(5) == '5' && DigitChar(6) == '6';
    ShortClockText(Clock(0, 2, 3, 456), '.', "02:03.456");
  }
}
