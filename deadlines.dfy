/**
  The deadline normaliser `parse_deadline` (application.py:84-106) and the two renderings of
  a datetime the application produces: `strftime('%d/%m/%Y %H:%M')` for the display string and
  `isoformat()` for the JSON projections.

  Each input format is modelled on a documented subset:
  - ISO 8601 (`datetime.fromisoformat`): `YYYY-MM-DD`, optionally followed by one separator
    character of any kind and `HH:MM` or `HH:MM:SS`, every field of fixed width;
  - `%Y-%m-%dT%H:%M` and `%d/%m/%Y %H:%M` (`datetime.strptime`): `%Y` is exactly four digits,
    `%m %d %H %M` one or two digits, `%d` also a blank and a digit from 1 to 9, the `T` matches
    either case and the blank matches one or more whitespace characters.
*/
module Deadlines {
  import opened Wrappers
  import opened Text
  import opened Instants

  datatype DeadlineError =
    | MissingDeadline        // `ValueError('Missing deadline')`
    | InvalidDeadlineFormat  // `ValueError('Invalid deadline format. ...')`

  /** `datetime(y, mo, d, h, mi, s)`, or nothing when the constructor raises. */
  function MakeDateTime(y: nat, mo: nat, d: nat, h: nat, mi: nat, s: nat): (r: Option<DateTime>)
    ensures r.Some? <==> Valid(DateTime(y, mo, d, h, mi, s, 0))
    ensures r.Some? ==> r.value == DateTime(y, mo, d, h, mi, s, 0)
  {
    var t := DateTime(y, mo, d, h, mi, s, 0);
    if Valid(t) then Some(t) else None
  }

  /** The `YYYY-MM-DD` date at the front of an ISO string, and what follows it. */
  datatype DateFields = DateFields(year: nat, month: nat, day: nat, rest: string)

  /** Hours, minutes and seconds read from a time of day. */
  datatype Clock = Clock(hour: nat, minute: nat, second: nat)

  function IsoDate(s: string): (r: Option<DateFields>)
    ensures r.Some? ==> |r.value.rest| + 10 == |s|
  {
    var y :- Fixed(s, 4);
    var afterYear :- Literal(y.rest, '-');
    var mo :- Fixed(afterYear, 2);
    var afterMonth :- Literal(mo.rest, '-');
    var d :- Fixed(afterMonth, 2);
    Some(DateFields(y.value, mo.value, d.value, d.rest))
  }

  /** `HH:MM` or `HH:MM:SS`, and nothing after it. */
  function IsoTime(s: string): (r: Option<Clock>)
    ensures r.Some? ==> |s| == 5 || |s| == 8
  {
    var h :- Fixed(s, 2);
    var afterHour :- Literal(h.rest, ':');
    var mi :- Fixed(afterHour, 2);
    if mi.rest == [] then Some(Clock(h.value, mi.value, 0))
    else
      var afterMinute :- Literal(mi.rest, ':');
      var sec :- Fixed(afterMinute, 2);
      if sec.rest == [] then Some(Clock(h.value, mi.value, sec.value)) else None
  }

  /** `datetime.fromisoformat` on the subset described above. */
  function ParseIso(s: string): (r: Option<DateTime>)
    ensures r.Some? ==> Valid(r.value) && r.value.microsecond == 0
  {
    var date :- IsoDate(s);
    if date.rest == [] then MakeDateTime(date.year, date.month, date.day, 0, 0, 0)
    else
      var clock :- IsoTime(date.rest[1..]);
      MakeDateTime(date.year, date.month, date.day, clock.hour, clock.minute, clock.second)
  }

  /** The literal `T` of a `strptime` format, which matches case-insensitively. */
  function LiteralT(s: string): (r: Option<string>)
    ensures r.Some? <==> s != [] && (s[0] == 'T' || s[0] == 't')
    ensures r.Some? ==> r.value == s[1..]
  {
    if s != [] && (s[0] == 'T' || s[0] == 't') then Some(s[1..]) else None
  }

  /** A blank in a `strptime` format: one or more whitespace characters. */
  function Blanks(s: string): (r: Option<string>)
    ensures r.Some? ==> |r.value| < |s|
  {
    if s != [] && IsSpace(s[0]) then Some(TrimStart(s)) else None
  }

  /** `%H:%M` at the end of a `strptime` format. */
  function StrptimeClock(s: string): (r: Option<Clock>)
    ensures r.Some? ==> r.value.second == 0
  {
    var h :- Field(s, 1, 2);
    var afterHour :- Literal(h.rest, ':');
    var mi :- Field(afterHour, 1, 2);
    if mi.rest == [] then Some(Clock(h.value, mi.value, 0)) else None
  }

  /**
    `%d`: one or two digits, or a blank and a digit from 1 to 9, the space-padded form
    `strptime` also accepts for the day.
  */
  function DayField(s: string): (r: Option<Scan>)
    ensures r.Some? ==> |r.value.rest| < |s|
  {
    if 2 <= |s| && s[0] == ' ' && '1' <= s[1] <= '9' then Some(Scan(DigitValue(s[1]), s[2..]))
    else Field(s, 1, 2)
  }

  /** `%Y-%m-%d` at the front of a `strptime` input, and what follows it. */
  function CompactDate(s: string): (r: Option<DateFields>)
    ensures r.Some? ==> |r.value.rest| < |s|
  {
    var y :- Field(s, 4, 4);
    var afterYear :- Literal(y.rest, '-');
    var mo :- Field(afterYear, 1, 2);
    var afterMonth :- Literal(mo.rest, '-');
    var d :- DayField(afterMonth);
    Some(DateFields(y.value, mo.value, d.value, d.rest))
  }

  /** `datetime.strptime(s, '%Y-%m-%dT%H:%M')`. */
  function ParseCompact(s: string): (r: Option<DateTime>)
    ensures r.Some? ==> Valid(r.value) && r.value.second == 0 && r.value.microsecond == 0
  {
    var date :- CompactDate(s);
    var afterDay :- LiteralT(date.rest);
    var clock :- StrptimeClock(afterDay);
    MakeDateTime(date.year, date.month, date.day, clock.hour, clock.minute, 0)
  }

  /** `%d/%m/%Y` at the front of a `strptime` input, and what follows it. */
  function DisplayDate(s: string): (r: Option<DateFields>)
    ensures r.Some? ==> |r.value.rest| < |s|
  {
    var d :- DayField(s);
    var afterDay :- Literal(d.rest, '/');
    var mo :- Field(afterDay, 1, 2);
    var afterMonth :- Literal(mo.rest, '/');
    var y :- Field(afterMonth, 4, 4);
    Some(DateFields(y.value, mo.value, d.value, y.rest))
  }

  /** `datetime.strptime(s, '%d/%m/%Y %H:%M')`. */
  function ParseDisplay(s: string): (r: Option<DateTime>)
    ensures r.Some? ==> Valid(r.value) && r.value.second == 0 && r.value.microsecond == 0
  {
    var date :- DisplayDate(s);
    var afterYear :- Blanks(date.rest);
    var clock :- StrptimeClock(afterYear);
    MakeDateTime(date.year, date.month, date.day, clock.hour, clock.minute, 0)
  }

  /**
    `parse_deadline(raw)`: a missing or empty value fails first; otherwise the ISO form of the
    input with every `Z` deleted, then the compact form, then the display form, and the first
    that parses wins.
  */
  function ParseDeadline(raw: Option<string>): (r: Result<DateTime, DeadlineError>)
    ensures r.Success? ==> Valid(r.value) && r.value.microsecond == 0
    ensures r == Failure(MissingDeadline) <==> raw.None? || raw.value == ""
  {
    if raw.None? || raw.value == "" then Failure(MissingDeadline)
    else
      var s := raw.value;
      match ParseIso(RemoveAll(s, "Z"))
      case Some(t) => Success(t)
      case None =>
        match ParseCompact(s)
        case Some(t) => Success(t)
        case None =>
          match ParseDisplay(s)
          case Some(t) => Success(t)
          case None => Failure(InvalidDeadlineFormat)
  }

  // ---------------------------------------------------------------------------
  // Renderings
  // ---------------------------------------------------------------------------

  /** `t.strftime('%d/%m/%Y %H:%M')`, the fallback display string. */
  function FormatDisplay(t: DateTime): string
    requires Valid(t)
  {
    ZeroPad(t.day, 2) + ("/" + (ZeroPad(t.month, 2) + ("/" + (ZeroPad(t.year, 4)
      + (" " + (ZeroPad(t.hour, 2) + (":" + ZeroPad(t.minute, 2))))))))
  }

  /** `YYYY-MM-DD` followed by `rest`. */
  function WithDate(t: DateTime, rest: string): string
    requires Valid(t)
  {
    ZeroPad(t.year, 4) + ("-" + (ZeroPad(t.month, 2) + ("-" + (ZeroPad(t.day, 2) + rest))))
  }

  /** `t.isoformat()`: seconds always, microseconds only when there are some. */
  function FormatIso(t: DateTime): string
    requires Valid(t)
  {
    var fraction := if t.microsecond == 0 then "" else "." + ZeroPad(t.microsecond, 6);
    WithDate(t, "T" + (ZeroPad(t.hour, 2) + (":" + (ZeroPad(t.minute, 2)
      + (":" + (ZeroPad(t.second, 2) + fraction))))))
  }

  /** `t.strftime('%Y-%m-%dT%H:%M')`: the compact form of the same minute. */
  function FormatCompact(t: DateTime): string
    requires Valid(t)
  {
    WithDate(t, "T" + (ZeroPad(t.hour, 2) + (":" + ZeroPad(t.minute, 2))))
  }

  // ---------------------------------------------------------------------------
  // Properties
  // ---------------------------------------------------------------------------

  predicate Digits(s: string, width: nat) {
    |s| == width && AllDigits(s)
  }

  /** `YYYY-MM-DD` followed by anything is read back field by field. */
  lemma IsoDateReads(y: string, m: string, d: string, rest: string)
    requires Digits(y, 4) && Digits(m, 2) && Digits(d, 2)
    ensures IsoDate(y + ("-" + (m + ("-" + (d + rest)))))
      == Some(DateFields(ValueOf(y), ValueOf(m), ValueOf(d), rest))
  {
    FixedConcat(y, "-" + (m + ("-" + (d + rest))));
    FixedConcat(m, "-" + (d + rest));
    FixedConcat(d, rest);
  }

  /** `HH:MM` followed by `rest` is read back by the ISO time of day. */
  lemma IsoClockReads(h: string, m: string, rest: string)
    requires Digits(h, 2) && Digits(m, 2)
    ensures var s := h + (":" + (m + rest));
      && Fixed(s, 2) == Some(Scan(ValueOf(h), ":" + (m + rest)))
      && Fixed(m + rest, 2) == Some(Scan(ValueOf(m), rest))
  {
    FixedConcat(h, ":" + (m + rest));
    FixedConcat(m, rest);
  }

  /** `HH:MM:SS` is read back by the ISO time of day. */
  lemma IsoTimeReadsSeconds(h: string, m: string, s: string)
    requires Digits(h, 2) && Digits(m, 2) && Digits(s, 2)
    ensures IsoTime(h + (":" + (m + (":" + s)))) == Some(Clock(ValueOf(h), ValueOf(m), ValueOf(s)))
  {
    IsoClockReads(h, m, ":" + s);
    assert s == s + [];
    FixedConcat(s, []);
  }

  /** `HH:MM` is read back by the ISO time of day, with zero seconds. */
  lemma IsoTimeReadsMinutes(h: string, m: string)
    requires Digits(h, 2) && Digits(m, 2)
    ensures IsoTime(h + (":" + m)) == Some(Clock(ValueOf(h), ValueOf(m), 0))
  {
    assert m == m + [];
    IsoClockReads(h, m, []);
  }

  /** `HH:MM` is read back by the `%H:%M` directives. */
  lemma StrptimeClockReads(h: string, m: string)
    requires Digits(h, 2) && Digits(m, 2)
    ensures StrptimeClock(h + (":" + m)) == Some(Clock(ValueOf(h), ValueOf(m), 0))
  {
    FieldConcat(h, ":" + m, 1, 2);
    assert m == m + [];
    FieldConcat(m, [], 1, 2);
  }

  lemma PadShape(n: nat, width: nat)
    requires 1 <= width && n < Pow10(width)
    ensures Digits(ZeroPad(n, width), width) && ValueOf(ZeroPad(n, width)) == n
  {
  }

  /** The padded fields of a valid datetime, as `strftime` and `isoformat` write them. */
  lemma PaddedFields(t: DateTime)
    requires Valid(t)
    ensures Digits(ZeroPad(t.year, 4), 4) && ValueOf(ZeroPad(t.year, 4)) == t.year
    ensures Digits(ZeroPad(t.month, 2), 2) && ValueOf(ZeroPad(t.month, 2)) == t.month
    ensures Digits(ZeroPad(t.day, 2), 2) && ValueOf(ZeroPad(t.day, 2)) == t.day
    ensures Digits(ZeroPad(t.hour, 2), 2) && ValueOf(ZeroPad(t.hour, 2)) == t.hour
    ensures Digits(ZeroPad(t.minute, 2), 2) && ValueOf(ZeroPad(t.minute, 2)) == t.minute
    ensures Digits(ZeroPad(t.second, 2), 2) && ValueOf(ZeroPad(t.second, 2)) == t.second
  {
    assert Pow10(2) == 100 && Pow10(4) == 10000;
    PadShape(t.year, 4);
    PadShape(t.month, 2);
    PadShape(t.day, 2);
    PadShape(t.hour, 2);
    PadShape(t.minute, 2);
    PadShape(t.second, 2);
  }

  lemma DigitsLackZ(s: string)
    requires AllDigits(s)
    ensures 'Z' !in s
  {
  }

  lemma NoZInRenderings(t: DateTime)
    requires Valid(t) && t.microsecond == 0
    ensures 'Z' !in FormatIso(t) && 'Z' !in FormatCompact(t) && 'Z' !in FormatDisplay(t)
  {
    PaddedFields(t);
    DigitsLackZ(ZeroPad(t.year, 4));
    DigitsLackZ(ZeroPad(t.month, 2));
    DigitsLackZ(ZeroPad(t.day, 2));
    DigitsLackZ(ZeroPad(t.hour, 2));
    DigitsLackZ(ZeroPad(t.minute, 2));
    DigitsLackZ(ZeroPad(t.second, 2));
  }

  lemma {:induction false} RemoveTrailingChar(s: string, c: char)
    requires c !in s
    ensures RemoveAll(s + [c], [c]) == s
    decreases |s|
  {
    if s != [] {
      assert (s + [c])[1..] == s[1..] + [c];
      assert c !in s[1..];
      RemoveTrailingChar(s[1..], c);
      assert [s[0]] + s[1..] == s;
    }
  }

  lemma IsoFromParts(s: string, date: DateFields, clock: Clock)
    requires IsoDate(s) == Some(date) && date.rest != [] && IsoTime(date.rest[1..]) == Some(clock)
    ensures ParseIso(s)
      == MakeDateTime(date.year, date.month, date.day, clock.hour, clock.minute, clock.second)
  {
  }

  /** The ISO rendering of a whole-second datetime is parsed back by the ISO parser. */
  lemma IsoParsesIsoFormat(t: DateTime)
    requires Valid(t) && t.microsecond == 0
    ensures ParseIso(FormatIso(t)) == Some(t)
  {
    var hh, mm, ss := ZeroPad(t.hour, 2), ZeroPad(t.minute, 2), ZeroPad(t.second, 2);
    PaddedFields(t);
    var clock := hh + (":" + (mm + (":" + ss)));
    assert FormatIso(t) == WithDate(t, "T" + clock) by {
      assert ss + "" == ss;
    }
    IsoDateReads(ZeroPad(t.year, 4), ZeroPad(t.month, 2), ZeroPad(t.day, 2), "T" + clock);
    assert ("T" + clock)[1..] == clock;
    IsoTimeReadsSeconds(hh, mm, ss);
    IsoFromParts(FormatIso(t), DateFields(t.year, t.month, t.day, "T" + clock), Clock(t.hour, t.minute, t.second));
  }

  /** The compact rendering is parsed back by the ISO parser. */
  lemma IsoParsesCompactFormat(t: DateTime)
    requires Valid(t) && t.second == 0 && t.microsecond == 0
    ensures ParseIso(FormatCompact(t)) == Some(t)
  {
    var hh, mm := ZeroPad(t.hour, 2), ZeroPad(t.minute, 2);
    PaddedFields(t);
    var clock := hh + (":" + mm);
    IsoDateReads(ZeroPad(t.year, 4), ZeroPad(t.month, 2), ZeroPad(t.day, 2), "T" + clock);
    assert ("T" + clock)[1..] == clock;
    IsoTimeReadsMinutes(hh, mm);
    IsoFromParts(FormatCompact(t), DateFields(t.year, t.month, t.day, "T" + clock), Clock(t.hour, t.minute, 0));
  }

  /**
    The `deadline` string of `to_dict` and of the embed data (`isoformat() + 'Z'`) is read back
    by `parse_deadline` as the stored deadline, for the whole-second deadlines it produces.
  */
  lemma IsoZRoundTrip(t: DateTime)
    requires Valid(t) && t.microsecond == 0
    ensures ParseDeadline(Some(FormatIso(t) + "Z")) == Success(t)
  {
    NoZInRenderings(t);
    RemoveTrailingChar(FormatIso(t), 'Z');
    IsoParsesIsoFormat(t);
  }

  /** A compact `YYYY-MM-DDTHH:MM` deadline is accepted, by the ISO branch, as that minute. */
  lemma CompactRoundTrip(t: DateTime)
    requires Valid(t) && t.second == 0 && t.microsecond == 0
    ensures ParseDeadline(Some(FormatCompact(t))) == Success(t)
  {
    NoZInRenderings(t);
    RemoveCharAbsent(FormatCompact(t), 'Z');
    IsoParsesCompactFormat(t);
  }

  /** `DD/MM/YYYY` followed by anything is read back by the display form's date. */
  lemma DisplayDateReads(d: string, m: string, y: string, rest: string)
    requires Digits(d, 2) && Digits(m, 2) && Digits(y, 4) && (rest == [] || !IsDigit(rest[0]))
    ensures DisplayDate(d + ("/" + (m + ("/" + (y + rest)))))
      == Some(DateFields(ValueOf(y), ValueOf(m), ValueOf(d), rest))
  {
    FieldConcat(d, "/" + (m + ("/" + (y + rest))), 1, 2);
    FieldConcat(m, "/" + (y + rest), 1, 2);
    FieldConcat(y, rest, 4, 4);
  }

  lemma DisplayFromParts(s: string, date: DateFields, rest: string, clock: Clock)
    requires DisplayDate(s) == Some(date) && Blanks(date.rest) == Some(rest)
    requires StrptimeClock(rest) == Some(clock)
    ensures ParseDisplay(s) == MakeDateTime(date.year, date.month, date.day, clock.hour, clock.minute, 0)
  {
  }

  /** A single blank before a digit is consumed by the format's blank. */
  lemma BlankBeforeDigit(rest: string)
    requires rest != [] && IsDigit(rest[0])
    ensures Blanks(" " + rest) == Some(rest)
  {
    assert (" " + rest)[1..] == rest;
  }

  /** The display rendering of a whole-minute datetime is read back by the display form. */
  lemma DisplayReads(t: DateTime)
    requires Valid(t) && t.second == 0 && t.microsecond == 0
    ensures ParseDisplay(FormatDisplay(t)) == Some(t)
  {
    var hh, mm := ZeroPad(t.hour, 2), ZeroPad(t.minute, 2);
    PaddedFields(t);
    var clock := hh + (":" + mm);
    StrptimeClockReads(hh, mm);
    assert clock[0] == hh[0];
    BlankBeforeDigit(clock);
    DisplayDateReads(ZeroPad(t.day, 2), ZeroPad(t.month, 2), ZeroPad(t.year, 4), " " + clock);
    DisplayFromParts(FormatDisplay(t), DateFields(t.year, t.month, t.day, " " + clock), clock,
      Clock(t.hour, t.minute, 0));
  }

  /** The display form never starts with the four digits the other two forms need. */
  lemma DisplayRejectedByOthers(d: string, rest: string)
    requires Digits(d, 2) && rest != [] && rest[0] == '/'
    ensures ParseIso(d + rest).None? && ParseCompact(d + rest).None?
  {
    var s := d + rest;
    assert s[2] == '/';
    assert |s| < 4 || !AllDigits(s[..4]) by {
      if |s| >= 4 {
        assert s[..4][2] == '/';
      }
    }
    LeadingDigitsConcat(d, rest);
  }

  /**
    Formatting a whole-minute deadline with `%d/%m/%Y %H:%M` and parsing the result gives the
    deadline back: neither the ISO nor the compact form accepts it, the display form does.
  */
  lemma DisplayRoundTrip(t: DateTime)
    requires Valid(t) && t.second == 0 && t.microsecond == 0
    ensures ParseDeadline(Some(FormatDisplay(t))) == Success(t)
  {
    var d := ZeroPad(t.day, 2);
    PaddedFields(t);
    NoZInRenderings(t);
    var s := FormatDisplay(t);
    RemoveCharAbsent(s, 'Z');
    DisplayRejectedByOthers(d, s[2..]);
    DisplayReads(t);
  }

  /**
    The same minute written in the compact and in the display form parses to the same
    datetime.
  */
  lemma CompactAndDisplayAgree(t: DateTime)
    requires Valid(t) && t.second == 0 && t.microsecond == 0
    ensures ParseDeadline(Some(FormatCompact(t))) == ParseDeadline(Some(FormatDisplay(t))) == Success(t)
  {
    CompactRoundTrip(t);
    DisplayRoundTrip(t);
  }

  lemma PaddedExamples()
    ensures ZeroPad(12, 2) == "12" && ZeroPad(2025, 4) == "2025"
    ensures ZeroPad(23, 2) == "23" && ZeroPad(59, 2) == "59"
  {
    assert NatToString(12) == "12";
    assert NatToString(2025) == "2025";
    assert NatToString(23) == "23";
    assert NatToString(59) == "59";
  }

  lemma DisplayPieces()
    ensures "12" + ("/" + ("12" + ("/" + ("2025" + (" " + ("23" + (":" + "59")))))))
      == "12/12/2025 23:59"
  {
  }

  lemma ExampleDisplay()
    ensures Valid(DateTime(2025, 12, 12, 23, 59, 0, 0))
    ensures FormatDisplay(DateTime(2025, 12, 12, 23, 59, 0, 0)) == "12/12/2025 23:59"
  {
    PaddedExamples();
    DisplayPieces();
  }

  lemma ExampleCompact()
    ensures Valid(DateTime(2025, 12, 12, 23, 59, 0, 0))
    ensures FormatCompact(DateTime(2025, 12, 12, 23, 59, 0, 0)) == "2025-12-12T23:59"
  {
    PaddedExamples();
  }

  /** `"12/12/2025 23:59"` and `"2025-12-12T23:59"` parse to the same datetime. */
  lemma SameMinuteBothForms()
    ensures ParseDeadline(Some("12/12/2025 23:59")) == ParseDeadline(Some("2025-12-12T23:59"))
      == Success(DateTime(2025, 12, 12, 23, 59, 0, 0))
  {
    var t := DateTime(2025, 12, 12, 23, 59, 0, 0);
    ExampleDisplay();
    ExampleCompact();
    CompactAndDisplayAgree(t);
  }

  /** `DD/MM/YYYY` with a day of a blank and one digit is read by the display form's date. */
  lemma BlankDayDisplayDateReads(c: char, m: string, y: string, rest: string)
    requires '1' <= c <= '9' && Digits(m, 2) && Digits(y, 4) && (rest == [] || !IsDigit(rest[0]))
    ensures DisplayDate([' ', c] + ("/" + (m + ("/" + (y + rest)))))
      == Some(DateFields(ValueOf(y), ValueOf(m), DigitValue(c), rest))
  {
    var s := [' ', c] + ("/" + (m + ("/" + (y + rest))));
    assert s[2..] == "/" + (m + ("/" + (y + rest)));
    FieldConcat(m, "/" + (y + rest), 1, 2);
    FieldConcat(y, rest, 4, 4);
  }

  /** The zero-padded day of a day below ten is `0` and the day's digit. */
  lemma OneDigitDay(t: DateTime)
    requires Valid(t) && t.day <= 9
    ensures var dd := ZeroPad(t.day, 2);
      |dd| == 2 && IsDigit(dd[1]) && '1' <= dd[1] <= '9' && DigitValue(dd[1]) == t.day
  {
    var dd := ZeroPad(t.day, 2);
    PaddedFields(t);
    assert dd[..|dd| - 1] == [dd[0]] && [dd[0]][..0] == [];
    assert ValueOf(dd) == ValueOf([dd[0]]) * 10 + DigitValue(dd[1]);
  }

  /** A day that starts with a digit is read by `%d` as one or two digits. */
  lemma DayFieldOfDigit(s: string)
    requires s != [] && IsDigit(s[0])
    ensures DayField(s) == Field(s, 1, 2)
  {
  }

  /** Neither the ISO nor the compact form accepts a text that starts with a blank. */
  lemma LeadingBlankRefused(s: string)
    requires s != [] && s[0] == ' '
    ensures ParseIso(s).None? && ParseCompact(s).None?
  {
    assert |s| < 4 || !AllDigits(s[..4]) by {
      if |s| >= 4 {
        assert s[..4][0] == ' ';
      }
    }
    assert LeadingDigits(s) == 0;
  }

  /** The display rendering with the zero of a one-digit day replaced by a blank. */
  function BlankPaddedDisplay(t: DateTime): (s: string)
    requires Valid(t) && t.microsecond == 0 && t.day <= 9
    ensures s != [] && s[0] == ' ' && 'Z' !in s
  {
    PaddedFields(t);
    OneDigitDay(t);
    NoZInRenderings(t);
    var s := [' '] + FormatDisplay(t)[1..];
    assert forall i :: 1 <= i < |s| ==> s[i] == FormatDisplay(t)[i];
    s
  }

  /** The display form reads the blank-padded rendering as the same minute. */
  lemma BlankPaddedDisplayReads(t: DateTime)
    requires Valid(t) && t.second == 0 && t.microsecond == 0 && t.day <= 9
    ensures ParseDisplay(BlankPaddedDisplay(t)) == Some(t)
  {
    var dd, mm, yyyy := ZeroPad(t.day, 2), ZeroPad(t.month, 2), ZeroPad(t.year, 4);
    var hh, mi := ZeroPad(t.hour, 2), ZeroPad(t.minute, 2);
    PaddedFields(t);
    OneDigitDay(t);
    var clock := hh + (":" + mi);
    var rest := "/" + (mm + ("/" + (yyyy + (" " + clock))));
    var s := [' ', dd[1]] + rest;
    assert BlankPaddedDisplay(t) == s by {
      assert FormatDisplay(t) == dd + rest;
    }
    StrptimeClockReads(hh, mi);
    BlankBeforeDigit(clock);
    BlankDayDisplayDateReads(dd[1], mm, yyyy, " " + clock);
    DisplayFromParts(s, DateFields(t.year, t.month, t.day, " " + clock), clock, Clock(t.hour, t.minute, 0));
  }

  /**
    A display string whose one-digit day is padded with a blank instead of a zero, such as
    `" 5/12/2025 23:59"`, is read by `parse_deadline` as the same minute: `%d` accepts a blank
    and a digit, while the ISO and compact forms, which need a digit first, refuse it.
  */
  lemma BlankPaddedDayRoundTrip(t: DateTime)
    requires Valid(t) && t.second == 0 && t.microsecond == 0 && t.day <= 9
    ensures ParseDeadline(Some(BlankPaddedDisplay(t))) == Success(t)
  {
    var s := BlankPaddedDisplay(t);
    RemoveCharAbsent(s, 'Z');
    LeadingBlankRefused(s);
    BlankPaddedDisplayReads(t);
  }

  /** The compact rendering with the zero of a one-digit day replaced by a blank. */
  function BlankPaddedCompact(t: DateTime): (s: string)
    requires Valid(t) && t.microsecond == 0 && t.day <= 9
    ensures 'Z' !in s
  {
    PaddedFields(t);
    DigitsLackZ(ZeroPad(t.year, 4));
    DigitsLackZ(ZeroPad(t.month, 2));
    DigitsLackZ(ZeroPad(t.hour, 2));
    DigitsLackZ(ZeroPad(t.minute, 2));
    ZeroPad(t.year, 4) + ("-" + (ZeroPad(t.month, 2) + ("-" + ([' ', DigitChar(t.day)]
      + ("T" + (ZeroPad(t.hour, 2) + (":" + ZeroPad(t.minute, 2))))))))
  }

  /**
    The compact form reads a blank-padded day as well, such as `"2025-12- 5T23:59"`, which the
    ISO form refuses.
  */
  lemma BlankPaddedCompactDay(t: DateTime)
    requires Valid(t) && t.second == 0 && t.microsecond == 0 && t.day <= 9
    ensures ParseDeadline(Some(BlankPaddedCompact(t))) == Success(t)
  {
    var s := BlankPaddedCompact(t);
    RemoveCharAbsent(s, 'Z');
    BlankPaddedCompactReads(t);
  }

  /** The ISO form refuses the blank-padded compact rendering and the compact form reads it. */
  lemma BlankPaddedCompactReads(t: DateTime)
    requires Valid(t) && t.second == 0 && t.microsecond == 0 && t.day <= 9
    ensures ParseIso(BlankPaddedCompact(t)).None? && ParseCompact(BlankPaddedCompact(t)) == Some(t)
  {
    var mm, yyyy := ZeroPad(t.month, 2), ZeroPad(t.year, 4);
    var hh, mi := ZeroPad(t.hour, 2), ZeroPad(t.minute, 2);
    PaddedFields(t);
    var clock := hh + (":" + mi);
    var after := [' ', DigitChar(t.day)] + ("T" + clock);
    assert BlankPaddedCompact(t) == yyyy + ("-" + (mm + ("-" + after)));
    IsoDateRefusesBlankDay(yyyy, mm, after);
    CompactBlankDayReads(yyyy, mm, DigitChar(t.day), clock);
    StrptimeClockReads(hh, mi);
    assert ("T" + clock)[1..] == clock;
  }

  /** `YYYY-MM- D` followed by `T` and a clock is read by the compact form's date. */
  lemma CompactBlankDayReads(y: string, m: string, c: char, clock: string)
    requires Digits(y, 4) && Digits(m, 2) && '1' <= c <= '9'
    ensures var after := [' ', c] + ("T" + clock);
      CompactDate(y + ("-" + (m + ("-" + after)))) == Some(DateFields(ValueOf(y), ValueOf(m), DigitValue(c), "T" + clock))
  {
    var after := [' ', c] + ("T" + clock);
    FieldConcat(y, "-" + (m + ("-" + after)), 4, 4);
    FieldConcat(m, "-" + after, 1, 2);
    assert after[2..] == "T" + clock;
  }

  /** The ISO date needs two digits for the day. */
  lemma IsoDateRefusesBlankDay(y: string, m: string, after: string)
    requires Digits(y, 4) && Digits(m, 2) && after != [] && after[0] == ' '
    ensures IsoDate(y + ("-" + (m + ("-" + after)))).None?
  {
    FixedConcat(y, "-" + (m + ("-" + after)));
    FixedConcat(m, "-" + after);
    assert |after| < 2 || !AllDigits(after[..2]) by {
      if |after| >= 2 {
        assert after[..2][0] == ' ';
      }
    }
  }

  /** `" 5/12/2025 23:59"` is the fifth of December 2025 at 23:59. */
  lemma SpacePaddedDay()
    ensures ParseDeadline(Some(" 5/12/2025 23:59")) == Success(DateTime(2025, 12, 5, 23, 59, 0, 0))
  {
    var t := DateTime(2025, 12, 5, 23, 59, 0, 0);
    ExampleFifth();
    BlankPaddedDayRoundTrip(t);
  }

  lemma ExampleFifth()
    ensures Valid(DateTime(2025, 12, 5, 23, 59, 0, 0))
    ensures BlankPaddedDisplay(DateTime(2025, 12, 5, 23, 59, 0, 0)) == " 5/12/2025 23:59"
  {
    var t := DateTime(2025, 12, 5, 23, 59, 0, 0);
    assert Valid(t);
    DisplayOfFifth();
    assert [' '] + "05/12/2025 23:59"[1..] == " 5/12/2025 23:59";
  }

  lemma DisplayOfFifth()
    ensures Valid(DateTime(2025, 12, 5, 23, 59, 0, 0))
    ensures FormatDisplay(DateTime(2025, 12, 5, 23, 59, 0, 0)) == "05/12/2025 23:59"
  {
    PadFive();
    PaddedExamples();
    DisplayPiecesFifth();
  }

  lemma PadFive()
    ensures ZeroPad(5, 2) == "05"
  {
    assert NatToString(5) == "5";
    assert Zeros(1) == "0";
  }

  lemma DisplayPiecesFifth()
    ensures "05" + ("/" + ("12" + ("/" + ("2025" + (" " + ("23" + (":" + "59")))))))
      == "05/12/2025 23:59"
  {
  }

  /** A `strptime` field and an ISO field of the same width read the same number. */
  lemma FixedField(s: string, width: nat, minWidth: nat)
    requires minWidth <= width
    requires Fixed(s, width).Some? && Field(s, minWidth, width).Some?
    ensures Fixed(s, width) == Field(s, minWidth, width)
  {
  }

  lemma IsoTimeAndClockAgree(s: string)
    requires IsoTime(s).Some? && StrptimeClock(s).Some?
    ensures IsoTime(s) == StrptimeClock(s)
  {
    FixedField(s, 2, 1);
    var h := Fixed(s, 2).value;
    assert Literal(h.rest, ':').Some?;
    var afterHour := h.rest[1..];
    FixedField(afterHour, 2, 1);
  }

  /**
    On an input without `Z`, whenever both the ISO form and the compact form accept it they
    give the same datetime: trying ISO first never changes what the compact form would say.
  */
  lemma IsoAndCompactAgree(s: string)
    requires 'Z' !in s
    requires ParseIso(RemoveAll(s, "Z")).Some? && ParseCompact(s).Some?
    ensures ParseIso(RemoveAll(s, "Z")) == ParseCompact(s)
  {
    RemoveCharAbsent(s, 'Z');
    IsoAndCompactDatesAgree(s);
    var date := IsoDate(s).value;
    IsoTimeAndClockAgree(date.rest[1..]);
  }

  /** Where both the ISO date and the compact date read a text, they read the same fields. */
  lemma IsoAndCompactDatesAgree(s: string)
    requires IsoDate(s).Some? && CompactDate(s).Some?
    ensures IsoDate(s) == CompactDate(s)
  {
    FixedField(s, 4, 4);
    var afterYear := Fixed(s, 4).value.rest[1..];
    FixedField(afterYear, 2, 1);
    var afterMonth := Fixed(afterYear, 2).value.rest[1..];
    FixedField(afterMonth, 2, 1);
    DayFieldOfDigit(afterMonth);
  }
}
