/** The two timestamp texts the service uses: the storage form "%Y-%m-%d %H:%M:%S" that upload
    writes (main.py:29) and the display form "%d-%m-%Y %H:%M:%S" that every response shows
    (main.py:52, 111, 147), and `strptime`/`strftime` between them, restricted to zero-padded,
    19-character texts. */
module Timestamp {
  import opened Common
  import opened Decimal

  /** The fields of a Python `datetime` down to the second. */
  datatype DateTime = DateTime(year: nat, month: nat, day: nat, hour: nat, minute: nat, second: nat)

  /** Leap years of the proleptic Gregorian calendar, which `datetime` uses. */
  predicate IsLeapYear(y: nat) {
    y % 4 == 0 && (y % 100 != 0 || y % 400 == 0)
  }

  function DaysInMonth(y: nat, m: nat): (d: nat)
    requires 1 <= m <= 12
    ensures 28 <= d <= 31
  {
    if m == 2 then (if IsLeapYear(y) then 29 else 28)
    else if m == 4 || m == 6 || m == 9 || m == 11 then 30
    else 31
  }

  /** The values a `datetime` can hold (years 1 to 9999, seconds up to 59). */
  predicate Valid(dt: DateTime) {
    && 1 <= dt.year <= 9999
    && 1 <= dt.month <= 12
    && 1 <= dt.day <= DaysInMonth(dt.year, dt.month)
    && dt.hour < 24 && dt.minute < 60 && dt.second < 60
  }

  function Pad2(n: nat): (s: string)
    requires n < 100
    ensures |s| == 2 && AllDigits(s)
  {
    [DigitChar(n / 10), DigitChar(n % 10)]
  }

  function Pad4(n: nat): (s: string)
    requires n < 10000
    ensures |s| == 4 && AllDigits(s)
  {
    Pad2(n / 100) + Pad2(n % 100)
  }

  function Value2(s: string): nat
    requires |s| == 2 && AllDigits(s)
  {
    10 * DigitValue(s[0]) + DigitValue(s[1])
  }

  function Value4(s: string): nat
    requires |s| == 4 && AllDigits(s)
  {
    100 * Value2(s[..2]) + Value2(s[2..])
  }

  /** "%H:%M:%S" */
  function Clock(dt: DateTime): (s: string)
    requires Valid(dt)
    ensures |s| == 8
  {
    Pad2(dt.hour) + ":" + Pad2(dt.minute) + ":" + Pad2(dt.second)
  }

  /** `dt.strftime("%Y-%m-%d %H:%M:%S")` */
  function FormatStorage(dt: DateTime): (s: string)
    requires Valid(dt)
    ensures |s| == 19
  {
    Pad4(dt.year) + "-" + Pad2(dt.month) + "-" + Pad2(dt.day) + " " + Clock(dt)
  }

  /** `dt.strftime("%d-%m-%Y %H:%M:%S")` */
  function FormatDisplay(dt: DateTime): (s: string)
    requires Valid(dt)
    ensures |s| == 19
  {
    Pad2(dt.day) + "-" + Pad2(dt.month) + "-" + Pad4(dt.year) + " " + Clock(dt)
  }

  /** The time of day in characters 10..19, laid out the same in both forms. */
  predicate ClockShape(s: string)
    requires |s| == 19
  {
    s[10] == ' ' && s[13] == ':' && s[16] == ':'
    && AllDigits(s[11..13]) && AllDigits(s[14..16]) && AllDigits(s[17..19])
  }

  /** `datetime.strptime(s, "%Y-%m-%d %H:%M:%S")` on zero-padded text: None where it raises. */
  function ParseStorage(s: string): (r: Option<DateTime>)
    ensures r.Some? ==> Valid(r.value) && |s| == 19
  {
    if |s| == 19 && s[4] == '-' && s[7] == '-' && ClockShape(s)
       && AllDigits(s[0..4]) && AllDigits(s[5..7]) && AllDigits(s[8..10]) then
      var dt := DateTime(Value4(s[0..4]), Value2(s[5..7]), Value2(s[8..10]),
                         Value2(s[11..13]), Value2(s[14..16]), Value2(s[17..19]));
      if Valid(dt) then Some(dt) else None
    else
      None
  }

  /** `datetime.strptime(s, "%d-%m-%Y %H:%M:%S")` on zero-padded text: None where it raises. */
  function ParseDisplay(s: string): (r: Option<DateTime>)
    ensures r.Some? ==> Valid(r.value) && |s| == 19
  {
    if |s| == 19 && s[2] == '-' && s[5] == '-' && ClockShape(s)
       && AllDigits(s[0..2]) && AllDigits(s[3..5]) && AllDigits(s[6..10]) then
      var dt := DateTime(Value4(s[6..10]), Value2(s[3..5]), Value2(s[0..2]),
                         Value2(s[11..13]), Value2(s[14..16]), Value2(s[17..19]));
      if Valid(dt) then Some(dt) else None
    else
      None
  }

  /** The response conversion
      `datetime.strptime(s, "%Y-%m-%d %H:%M:%S").strftime("%d-%m-%Y %H:%M:%S")`;
      None where `strptime` raises. */
  function ToDisplay(s: string): Option<string> {
    match ParseStorage(s)
    case None => None
    case Some(dt) => Some(FormatDisplay(dt))
  }

  lemma Pad2Value(n: nat)
    requires n < 100
    ensures Value2(Pad2(n)) == n
  {
  }

  lemma Pad4Value(n: nat)
    requires n < 10000
    ensures Value4(Pad4(n)) == n
  {
    var s := Pad4(n);
    assert s[..2] == Pad2(n / 100) && s[2..] == Pad2(n % 100);
    Pad2Value(n / 100);
    Pad2Value(n % 100);
  }

  lemma ValuePad2(s: string)
    requires |s| == 2 && AllDigits(s)
    ensures Value2(s) < 100 && Pad2(Value2(s)) == s
  {
    var a, b := DigitValue(s[0]), DigitValue(s[1]);
    assert (10 * a + b) / 10 == a && (10 * a + b) % 10 == b;
  }

  lemma ValuePad4(s: string)
    requires |s| == 4 && AllDigits(s)
    ensures Value4(s) < 10000 && Pad4(Value4(s)) == s
  {
    var hi, lo := s[..2], s[2..];
    assert AllDigits(hi) && AllDigits(lo);
    ValuePad2(hi);
    ValuePad2(lo);
    var h, l := Value2(hi), Value2(lo);
    assert (100 * h + l) / 100 == h && (100 * h + l) % 100 == l;
    assert s == hi + lo;
  }

  /** Parsing the storage text of a datetime gives that datetime back. */
  lemma StorageRoundTrip(dt: DateTime)
    requires Valid(dt)
    ensures ParseStorage(FormatStorage(dt)) == Some(dt)
  {
    var s := FormatStorage(dt);
    assert s[0..4] == Pad4(dt.year) && s[5..7] == Pad2(dt.month) && s[8..10] == Pad2(dt.day);
    assert s[11..13] == Pad2(dt.hour) && s[14..16] == Pad2(dt.minute) && s[17..19] == Pad2(dt.second);
    Pad4Value(dt.year);
    Pad2Value(dt.month);
    Pad2Value(dt.day);
    Pad2Value(dt.hour);
    Pad2Value(dt.minute);
    Pad2Value(dt.second);
  }

  /** Parsing the display text of a datetime gives that datetime back. */
  lemma DisplayRoundTrip(dt: DateTime)
    requires Valid(dt)
    ensures ParseDisplay(FormatDisplay(dt)) == Some(dt)
  {
    var s := FormatDisplay(dt);
    assert s[0..2] == Pad2(dt.day) && s[3..5] == Pad2(dt.month) && s[6..10] == Pad4(dt.year);
    assert s[11..13] == Pad2(dt.hour) && s[14..16] == Pad2(dt.minute) && s[17..19] == Pad2(dt.second);
    Pad4Value(dt.year);
    Pad2Value(dt.month);
    Pad2Value(dt.day);
    Pad2Value(dt.hour);
    Pad2Value(dt.minute);
    Pad2Value(dt.second);
  }

  /** The only text that parses to `dt` in the restricted form is its own storage text. */
  lemma StorageCanonical(s: string)
    requires ParseStorage(s).Some?
    ensures FormatStorage(ParseStorage(s).value) == s
  {
    var dt := ParseStorage(s).value;
    ValuePad4(s[0..4]);
    ValuePad2(s[5..7]);
    ValuePad2(s[8..10]);
    ValuePad2(s[11..13]);
    ValuePad2(s[14..16]);
    ValuePad2(s[17..19]);
    assert s == s[0..4] + [s[4]] + s[5..7] + [s[7]] + s[8..10] + [s[10]]
              + s[11..13] + [s[13]] + s[14..16] + [s[16]] + s[17..19];
  }

  /** The upload timestamp, written by `strftime` at main.py:29, always converts: the conversion
      at main.py:52 never raises, and it yields the display text of the same instant. */
  lemma UploadTimeDisplays(dt: DateTime)
    requires Valid(dt)
    ensures ToDisplay(FormatStorage(dt)) == Some(FormatDisplay(dt))
  {
    StorageRoundTrip(dt);
  }

  /** The conversion is a fixed-width rearrangement: day, month and year change places and the
      time of day is kept. */
  lemma ToDisplayRearranges(s: string)
    requires ToDisplay(s).Some?
    ensures |s| == 19
    ensures ToDisplay(s).value == s[8..10] + "-" + s[5..7] + "-" + s[0..4] + s[10..19]
  {
    StorageCanonical(s);
    var dt := ParseStorage(s).value;
    assert s[0..4] == Pad4(dt.year) && s[5..7] == Pad2(dt.month) && s[8..10] == Pad2(dt.day);
    assert s[10..19] == " " + Clock(dt);
  }

  /** Different storage texts never show as the same display text, so the conversion loses
      nothing: reading the display text back gives the stored instant. */
  lemma ToDisplayReversible(s: string)
    requires ToDisplay(s).Some?
    ensures ParseDisplay(ToDisplay(s).value) == ParseStorage(s)
    ensures forall t :: ToDisplay(t) == ToDisplay(s) ==> t == s
  {
    DisplayRoundTrip(ParseStorage(s).value);
    forall t | ToDisplay(t) == ToDisplay(s) ensures t == s {
      DisplayRoundTrip(ParseStorage(t).value);
      StorageCanonical(t);
      StorageCanonical(s);
    }
  }
}
