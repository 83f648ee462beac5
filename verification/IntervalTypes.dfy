/** Printing and parsing of interval values: types/DatetimeIntervalType.cpp and
    types/YearMonthIntervalType.cpp. */
module IntervalTypes {
  import opened Options
  import opened Decimal
  import opened Scanner
  import opened IntervalParser
  import opened ComplexIntervals
  import opened IntervalTexts
  import opened SimpleTexts

  const INT64_MAX := 0x7FFF_FFFF_FFFF_FFFF

  /** kPrintingChars of the two literals: the characters that a printed value may take. */
  const DATETIME_PRINTING_CHARS := 40
  const YEAR_MONTH_PRINTING_CHARS := 33

  /** Values whose magnitude is an int64: all but INT64_MIN, which printing cannot negate. */
  predicate Negatable(value: int) {
    -INT64_MAX <= value <= INT64_MAX
  }

  function Magnitude(value: int): nat {
    if value < 0 then -value else value
  }

  function Plural(word: string, n: int): string {
    if n == 1 then word else word + "s"
  }

  // ---- what is printed -----------------------------------------------------------------------------

  datatype Clock = Clock(days: nat, hours: nat, minutes: nat, seconds: nat, subseconds: nat)

  function ClockOf(ticks: nat): Clock {
    var seconds := ticks / TICKS_PER_SECOND;
    var inDay := seconds % (24 * 60 * 60);
    Clock(seconds / (24 * 60 * 60), inDay / (60 * 60), inDay / 60 % 60, inDay % 60, ticks % TICKS_PER_SECOND)
  }

  function PrintedClock(c: Clock): string {
    ClockText(Padded(c.hours, 2), Padded(c.minutes, 2), Padded(c.seconds, 2),
              if c.subseconds == 0 then "" else Padded(c.subseconds, 6))
  }

  function PrintedParts(negative: bool, c: Clock): string {
    WithSign(negative,
             if c.days == 0 then PrintedClock(c) else DaysText(Digits(c.days), Plural("day", c.days), PrintedClock(c)))
  }

  /** "[-][D day[s] ]HH:MM:SS[.FFFFFF]" */
  function PrintedDatetime(ticks: int): string {
    PrintedParts(ticks < 0, ClockOf(Magnitude(ticks)))
  }

  function YearMonthText(negative: bool, years: nat, months: nat): string {
    var monthsText := Digits(months) + (" " + Plural("mon", months));
    WithSign(negative,
             if years == 0 then monthsText
             else if months == 0 then Digits(years) + (" " + Plural("year", years))
             else Digits(years) + (" " + (Plural("year", years) + (" " + monthsText))))
  }

  /** "[-]Y year[s] M mon[s]", without a part that is 0, except that 0 is "0 mons". */
  function PrintedYearMonth(interval: int): string {
    YearMonthText(interval < 0, Magnitude(interval) / 12, Magnitude(interval) % 12)
  }

  // ---- what is parsed ------------------------------------------------------------------------------

  function ParsedDatetime(s: string): Option<int> {
    var fields := SimpleFields(s);
    if fields.Some? && TicksPerUnit(fields.value.1).Some? then
      Some(fields.value.0 * TicksPerUnit(fields.value.1).value)
    else ComplexDatetime(s)
  }

  function ParsedYearMonth(s: string): Option<int> {
    var fields := SimpleFields(s);
    if fields.Some? && MonthsPerUnit(fields.value.1).Some? then
      Some(fields.value.0 * MonthsPerUnit(fields.value.1).value)
    else ComplexYearMonth(s)
  }

  // ---- round trip of datetime intervals ---------------------------------------------------------

  predicate InRange(c: Clock) {
    c.hours <= 23 && c.minutes <= 59 && c.seconds <= 59 && c.subseconds < TICKS_PER_SECOND
  }

  function TotalTicks(c: Clock): nat {
    (((c.days * 24 + c.hours) * 60 + c.minutes) * 60 + c.seconds) * TICKS_PER_SECOND + c.subseconds
  }

  /** Splitting ticks into a clock loses nothing. */
  lemma ClockAddsUp(ticks: nat)
    ensures InRange(ClockOf(ticks)) && TotalTicks(ClockOf(ticks)) == ticks
  {
    SecondsAddUp(ticks / TICKS_PER_SECOND);
  }

  lemma SecondsAddUp(seconds: nat)
    ensures var inDay := seconds % (24 * 60 * 60);
            && inDay / (60 * 60) <= 23
            && seconds / (24 * 60 * 60) * (24 * 60 * 60) + inDay == seconds
            && inDay / (60 * 60) * 60 + inDay / 60 % 60 == inDay / 60
            && inDay / 60 * 60 + inDay % 60 == inDay
  {
  }

  lemma NumeralOf(n: nat)
    ensures Denotes(Digits(n), n)
  {
    DigitsReadBack(n);
  }

  lemma TwoDigits(n: nat)
    requires n <= 59
    ensures ShortFor(Padded(n, 2), n) && |Padded(n, 2)| == 2
  {
    assert Power(2) == 100;
    PaddedReadsBack(n, 2);
  }

  lemma SixDigits(n: nat)
    requires n < TICKS_PER_SECOND
    ensures FractionFor(Padded(n, 6), n) && |Padded(n, 6)| == 6 && FractionFor("", 0)
  {
    assert Power(6) == 1000000;
    PaddedReadsBack(n, 6);
  }

  /** A printed sign and digits are a numeral for %d. */
  lemma SignedNumeral(negative: bool, ds: string, n: int, rest: string)
    requires Denotes(ds, n)
    ensures Numeral(WithSign(negative, ds), Signed(negative, n)) && AllBlank("")
    ensures WithSign(negative, ds + rest) == "" + (WithSign(negative, ds) + rest)
  {
    hide Denotes;
  }

  lemma OneBlank(units: string)
    requires UnitWord(units)
    ensures AllBlank(" ") && Separates(" ", units)
    ensures !IsDigit(units[0]) ==> Separates("", units)
  {
  }

  /** A unit of the table does not begin with a colon. */
  lemma UnitsAreNotClocks(units: string)
    requires units != "" && units[0] == ':'
    ensures TicksPerUnit(Lowered(units)) == None
  {
    assert Lowered(units)[0] == ':';
  }

  /** The simple format never takes a text with a clock, whatever digits are in it. */
  lemma SimpleLeavesClocks(negative: bool, hs: string, ms: string, ss: string, fs: string,
                           h: int, m: int, sec: int, frac: int)
    requires Denotes(hs, h) && ShortFor(ms, m) && ShortFor(ss, sec) && FractionFor(fs, frac)
    ensures var s := WithSign(negative, ClockText(hs, ms, ss, fs)); ParsedDatetime(s) == ComplexDatetime(s)
  {
    var units := ClockTail(ms, ss, fs);
    ClockTailShape(ms, ss, fs);
    assert UnitWord(units);
    hide Denotes, ClockTail, Lowered, SimpleFields, ComplexDatetime, TicksPerUnit, UnitWord, WithSign, Numeral,
      AllBlank, Separates;
    assert "" + units == units;
    SignedNumeral(negative, hs, h, units);
    OneBlank(units);
    PlainFields("", WithSign(negative, hs), Signed(negative, h), "", units);
    UnitsAreNotClocks(units);
  }

  lemma SimpleLeavesDays(negative: bool, ds: string, d: int, word: string, clock: string)
    requires Denotes(ds, d) && UnitWord(word)
    ensures var s := WithSign(negative, DaysText(ds, word, clock)); ParsedDatetime(s) == ComplexDatetime(s)
  {
    PlainUnitsRejected(negative, ds, d, word, clock);
    hide SimpleFields, ComplexDatetime, TicksPerUnit;
  }

  /** A signed count, a blank and a unit. */
  lemma PlainUnits(negative: bool, ds: string, n: int, units: string)
    requires Denotes(ds, n) && UnitWord(units)
    ensures SimpleFields(WithSign(negative, ds + (" " + units))) == Some((Signed(negative, n), Lowered(units)))
  {
    hide *;
    SignedNumeral(negative, ds, n, " " + units);
    OneBlank(units);
    PlainFields("", WithSign(negative, ds), Signed(negative, n), " ", units);
  }

  lemma PlainUnitsRejected(negative: bool, ds: string, n: int, units: string, rest: string)
    requires Denotes(ds, n) && UnitWord(units)
    ensures SimpleFields(WithSign(negative, ds + (" " + (units + (" " + rest))))) == None
  {
    BlankEndsUnit(rest);
    hide *;
    SignedNumeral(negative, ds, n, " " + (units + (" " + rest)));
    OneBlank(units);
    PlainRejects("", WithSign(negative, ds), Signed(negative, n), " ", units, " " + rest);
  }

  lemma DayWords(n: int)
    ensures var w := Plural("day", n); NoBlanks(w) && UnitWord(w) && |w| <= 4 && IsDaysWord(Lowered(w))
  {
    assert Lowered("day") == "day" && Lowered("days") == "days";
    assert "day" + "s" == "days";
  }

  lemma FractionOfClock(subseconds: nat)
    requires subseconds < TICKS_PER_SECOND
    ensures var fs := if subseconds == 0 then "" else Padded(subseconds, 6);
            FractionFor(fs, subseconds) && Scaled(subseconds, Places(fs)) == subseconds
  {
    SixDigits(subseconds);
    hide Padded;
  }

  lemma PartsRoundTrip(negative: bool, c: Clock)
    requires InRange(c)
    ensures ParsedDatetime(PrintedParts(negative, c)) == Some(Signed(negative, TotalTicks(c)))
  {
    hide Padded, Denotes, FractionFor, ShortFor, ClockText, DaysText, ParsedDatetime, ComplexDatetime, Scaled, Places,
      WithSign, NoBlanks, UnitWord, Lowered, IsDaysWord, Plural;
    TwoDigits(c.hours);
    TwoDigits(c.minutes);
    TwoDigits(c.seconds);
    FractionOfClock(c.subseconds);
    var hs, ms, ss := Padded(c.hours, 2), Padded(c.minutes, 2), Padded(c.seconds, 2);
    var fs := if c.subseconds == 0 then "" else Padded(c.subseconds, 6);
    if c.days == 0 {
      ShortDenotes(hs, c.hours);
      SimpleLeavesClocks(negative, hs, ms, ss, fs, c.hours, c.minutes, c.seconds, c.subseconds);
      ClockTextParses(negative, hs, ms, ss, fs, c.hours, c.minutes, c.seconds, c.subseconds);
    } else {
      var word := Plural("day", c.days);
      NumeralOf(c.days);
      DayWords(c.days);
      SimpleLeavesDays(negative, Digits(c.days), c.days, word, ClockText(hs, ms, ss, fs));
      DaysTextParses(negative, Digits(c.days), word, hs, ms, ss, fs,
                     c.days, c.hours, c.minutes, c.seconds, c.subseconds);
    }
  }

  lemma ShortDenotes(s: string, n: int)
    requires ShortFor(s, n)
    ensures Denotes(s, n)
  {
  }

  /** Parsing what was printed gives back every tick count. */
  lemma DatetimeRoundTrip(ticks: int)
    requires Negatable(ticks)
    ensures ParsedDatetime(PrintedDatetime(ticks)) == Some(ticks)
  {
    hide ClockOf, PrintedParts, ParsedDatetime, TotalTicks, InRange;
    ClockAddsUp(Magnitude(ticks));
    PartsRoundTrip(ticks < 0, ClockOf(Magnitude(ticks)));
  }

  // ---- round trip of year-month intervals -----------------------------------------------------------

  lemma BlankEndsUnit(rest: string)
    ensures StopsAt(" " + rest, Unit)
  {
  }

  lemma MonthWords(n: int)
    ensures var w := Plural("mon", n);
            NoBlanks(w) && UnitWord(w) && |w| <= 6 && IsMonthsWord(Lowered(w)) && MonthsPerUnit(Lowered(w)) == Some(1)
  {
    assert Lowered("mon") == "mon" && Lowered("mons") == "mons";
    assert "mon" + "s" == "mons";
  }

  lemma YearWords(n: int)
    ensures var w := Plural("year", n);
            NoBlanks(w) && UnitWord(w) && |w| <= 5 && IsYearsWord(Lowered(w)) && MonthsPerUnit(Lowered(w)) == Some(12)
  {
    assert Lowered("year") == "year" && Lowered("years") == "years";
    assert "year" + "s" == "years";
  }

  /** Parsing what was printed gives back every month count. */
  lemma YearMonthRoundTrip(interval: int)
    requires Negatable(interval)
    ensures ParsedYearMonth(PrintedYearMonth(interval)) == Some(interval)
  {
    hide Digits, Denotes, SimpleFields, ComplexYearMonth, WithSign, NoBlanks, UnitWord, Lowered,
      IsYearsWord, IsMonthsWord, MonthsPerUnit, Plural, In, IsBlank;
    var negative, years, months := interval < 0, Magnitude(interval) / 12, Magnitude(interval) % 12;
    var yearsWord, monthsWord := Plural("year", years), Plural("mon", months);
    NumeralOf(years);
    NumeralOf(months);
    YearWords(years);
    MonthWords(months);
    if years == 0 {
      PlainUnits(negative, Digits(months), months, monthsWord);
    } else if months == 0 {
      PlainUnits(negative, Digits(years), years, yearsWord);
    } else {
      PlainUnitsRejected(negative, Digits(years), years, yearsWord, Digits(months) + (" " + monthsWord));
      YearsTextParses(negative, Digits(years), yearsWord, Digits(months), monthsWord, years, months);
    }
  }

  // ---- the value parsers -------------------------------------------------------------------------------

  // DatetimeIntervalType::parseValueFromString(): whatever was printed is read back.
  method ParseDatetimeValue(s: string) returns (ticks: Option<int>)
    ensures ticks == ParsedDatetime(s)
    ensures forall t | Negatable(t) && s == PrintedDatetime(t) :: ticks == Some(t)
  {
    forall t | Negatable(t) && s == PrintedDatetime(t)
      ensures ParsedDatetime(s) == Some(t)
    {
      DatetimeRoundTrip(t);
    }
    hide PrintedDatetime, ComplexDatetime, SimpleFields, TicksPerUnit;
    var fields := ParseSimpleFields(s);
    if fields.Some? && TicksPerUnit(fields.value.1).Some? {
      return Some(fields.value.0 * TicksPerUnit(fields.value.1).value);
    }
    ticks := ParseDatetimeInterval(s);
  }

  // YearMonthIntervalType::parseValueFromString()
  method ParseYearMonthValue(s: string) returns (interval: Option<int>)
    ensures interval == ParsedYearMonth(s)
    ensures forall t | Negatable(t) && s == PrintedYearMonth(t) :: interval == Some(t)
  {
    forall t | Negatable(t) && s == PrintedYearMonth(t)
      ensures ParsedYearMonth(s) == Some(t)
    {
      YearMonthRoundTrip(t);
    }
    hide PrintedYearMonth, ComplexYearMonth, SimpleFields, MonthsPerUnit;
    var fields := ParseSimpleFields(s);
    if fields.Some? && MonthsPerUnit(fields.value.1).Some? {
      return Some(fields.value.0 * MonthsPerUnit(fields.value.1).value);
    }
    interval := ParseYearMonthInterval(s);
  }

  // ---- printing into a buffer ----------------------------------------------------------------------

  predicate NoNul(s: string) {
    forall i :: 0 <= i < |s| ==> s[i] != '\0'
  }

  // One snprintf() and its CheckSnprintf(): the text has to fit with its terminator.
  method Append(buffer: array<char>, written: nat, text: string) returns (now: nat)
    requires written + |text| < buffer.Length && NoNul(buffer[..written]) && NoNul(text)
    modifies buffer
    ensures now == written + |text| < buffer.Length
    ensures buffer[..now] == old(buffer[..written]) + text && buffer[now] == '\0' && NoNul(buffer[..now])
  {
    for i := 0 to |text|
      invariant buffer[..written] == old(buffer[..written])
      invariant forall j :: 0 <= j < i ==> buffer[written + j] == text[j]
    {
      buffer[written + i] := text[i];
    }
    now := written + |text|;
    buffer[now] := '\0';
    assert buffer[written..now] == text;
    assert buffer[..now] == buffer[..written] + buffer[written..now];
  }

  // The std::string made of a C string: everything before the terminator.
  method Contents(buffer: array<char>, ghost end: nat) returns (s: string)
    requires end < buffer.Length && buffer[end] == '\0' && NoNul(buffer[..end])
    ensures s == buffer[..end]
  {
    assert forall j :: 0 <= j < end ==> buffer[j] == buffer[..end][j] != '\0';
    var i := 0;
    while buffer[i] != '\0'
      invariant 0 <= i <= end
      decreases end - i
    {
      i := i + 1;
    }
    s := buffer[..i];
  }

  method AppendSign(buffer: array<char>, negative: bool) returns (written: nat)
    requires buffer.Length >= 2
    modifies buffer
    ensures written < 2 && buffer[..written] == WithSign(negative, "") && NoNul(buffer[..written])
  {
    written := 0;
    if negative {
      buffer[0] := '-';
      buffer[1] := '\0';
      written := written + 1;
    }
  }

  lemma DigitsPrint(n: nat, k: nat)
    requires n < Power(k) && k > 0
    ensures |Digits(n)| <= k && NoNul(Digits(n))
  {
    DigitsAreFew(n, k);
    DigitsReadBack(n);
  }

  lemma ClockPrints(c: Clock)
    requires InRange(c)
    ensures NoNul(Hms(c)) && |Hms(c)| == 8
    ensures NoNul("." + Padded(c.subseconds, 6)) && |Padded(c.subseconds, 6)| == 6
  {
    TwoDigits(c.hours);
    TwoDigits(c.minutes);
    TwoDigits(c.seconds);
    SixDigits(c.subseconds);
    hide Padded, ValueOf;
  }

  /** "%02d:%02d:%02d" */
  function Hms(c: Clock): string {
    Padded(c.hours, 2) + ":" + Padded(c.minutes, 2) + ":" + Padded(c.seconds, 2)
  }

  lemma ClockJoined(hs: string, ms: string, ss: string, fs: string)
    ensures ClockText(hs, ms, ss, fs) == hs + ":" + ms + ":" + ss + FractionText(fs)
  {
  }

  lemma PrintedClockJoined(c: Clock)
    ensures PrintedClock(c) == Hms(c) + if c.subseconds != 0 then "." + Padded(c.subseconds, 6) else ""
  {
    var fs := if c.subseconds == 0 then "" else Padded(c.subseconds, 6);
    assert Padded(c.subseconds, 6) != "";
    hide Padded, ClockText;
    ClockJoined(Padded(c.hours, 2), Padded(c.minutes, 2), Padded(c.seconds, 2), fs);
  }

  function DaysPiece(days: nat): string {
    if days == 0 then "" else Digits(days) + (" " + Plural("day", days) + " ")
  }

  /** The pieces in the order in which they are written. */
  lemma PrintedPieces(negative: bool, c: Clock)
    ensures PrintedParts(negative, c) ==
            WithSign(negative, "") + DaysPiece(c.days) + Hms(c) +
            if c.subseconds != 0 then "." + Padded(c.subseconds, 6) else ""
  {
    PrintedClockJoined(c);
    hide Digits, Padded, PrintedClock, Hms, Plural;
  }

  lemma DayText(n: int)
    ensures " " + Plural("day", n) + " " == (if n == 1 then " day " else " days ") && NoNul(" day ") && NoNul(" days ")
  {
    assert "day" + "s" == "days";
  }

  /** The divisions of the source yield the fields of the clock. */
  lemma ClockByDivision(ticks: nat, seconds: int, days: int, hours: int, minutes: int)
    requires seconds == ticks / TICKS_PER_SECOND
    requires days == seconds / (24 * 60 * 60)
    requires hours == (seconds - days * (24 * 60 * 60)) / (60 * 60)
    requires minutes == (seconds - days * (24 * 60 * 60) - hours * (60 * 60)) / 60
    ensures ClockOf(ticks) ==
            Clock(days, hours, minutes, seconds - days * (24 * 60 * 60) - (60 * hours + minutes) * 60,
                  ticks - seconds * TICKS_PER_SECOND)
  {
    SecondsOfDay(seconds - days * (24 * 60 * 60), hours, minutes);
  }

  lemma SecondsOfDay(x: int, hours: int, minutes: int)
    requires 0 <= x && hours == x / 3600 && minutes == (x - hours * 3600) / 60
    ensures minutes == x / 60 % 60 && x - (60 * hours + minutes) * 60 == x % 60
  {
  }

  // DatetimeIntervalType::printValueToString(); the buffer is never too small.
  method PrintDatetime(ticks: int) returns (s: string)
    requires Negatable(ticks)
    ensures s == PrintedDatetime(ticks)
  {
    var subseconds := ticks;
    var negative := subseconds < 0;
    if negative {
      subseconds := -subseconds;
    }
    var seconds := subseconds / TICKS_PER_SECOND;
    subseconds := subseconds - seconds * TICKS_PER_SECOND;
    var days := seconds / (24 * 60 * 60);
    seconds := seconds - days * (24 * 60 * 60);
    var hours := seconds / (60 * 60);
    var minutes := (seconds - hours * (60 * 60)) / 60;
    var remainder := seconds - (60 * hours + minutes) * 60;
    ClockByDivision(Magnitude(ticks), Magnitude(ticks) / TICKS_PER_SECOND, days, hours, minutes);
    ClockAddsUp(Magnitude(ticks));
    DaysAreFew(Magnitude(ticks));
    hide ClockOf, TotalTicks, InRange, Power;
    s := PrintClock(negative, Clock(days, hours, minutes, remainder, subseconds));
  }

  lemma DaysAreFew(ticks: nat)
    requires ticks <= INT64_MAX
    ensures ClockOf(ticks).days < Power(9)
  {
    assert Power(9) == 1000000000;
  }

  method PrintClock(negative: bool, c: Clock) returns (s: string)
    requires InRange(c) && c.days < Power(9)
    ensures s == PrintedParts(negative, c)
  {
    hide Digits, Padded, Power, InRange, NoNul, WithSign, PrintedParts, Hms, DaysPiece;
    var buffer := new char[DATETIME_PRINTING_CHARS + 1];
    var written := AppendSign(buffer, negative);
    ClockPrints(c);
    PrintedPieces(negative, c);
    if c.days != 0 {
      written := AppendDays(buffer, written, c.days);
    }
    NoDaysPiece();
    written := Append(buffer, written, Hms(c));
    if c.subseconds != 0 {
      written := Append(buffer, written, "." + Padded(c.subseconds, 6));
    }
    s := Contents(buffer, written);
  }

  lemma NoDaysPiece()
    ensures DaysPiece(0) == ""
  {
  }

  method AppendDays(buffer: array<char>, written: nat, days: nat) returns (now: nat)
    requires 0 < days < Power(9) && written + 15 < buffer.Length && NoNul(buffer[..written])
    modifies buffer
    ensures now <= written + 15
    ensures buffer[..now] == old(buffer[..written]) + DaysPiece(days) && buffer[now] == '\0' && NoNul(buffer[..now])
  {
    hide Digits, Power, NoNul, Plural;
    DigitsPrint(days, 9);
    DayText(days);
    now := Append(buffer, written, Digits(days));
    if days == 1 {
      now := Append(buffer, now, " day ");
    } else {
      now := Append(buffer, now, " days ");
    }
  }

  function YearsPiece(years: nat): string {
    if years != 0 then Digits(years) + (" " + Plural("year", years)) else ""
  }

  /** What is written for the months, after the years if there are any. */
  function MonthsPiece(years: nat, months: nat): string {
    if months == 0 && years != 0 then ""
    else (if years != 0 then " " else "") + Digits(months) + (" " + Plural("mon", months))
  }

  lemma YearMonthPieces(negative: bool, years: nat, months: nat)
    ensures YearMonthText(negative, years, months) ==
            WithSign(negative, "") + YearsPiece(years) + MonthsPiece(years, months)
  {
    hide Digits, Plural, WithSign, YearsPiece, MonthsPiece;
    SignPrefix(negative, YearsPiece(years) + MonthsPiece(years, months));
    BodyPieces(years, months);
    AssociatesLeft(WithSign(negative, ""), YearsPiece(years), MonthsPiece(years, months));
  }

  lemma SignPrefix(negative: bool, body: string)
    ensures WithSign(negative, body) == WithSign(negative, "") + body
  {
  }

  lemma AssociatesLeft(a: string, b: string, c: string)
    ensures a + (b + c) == a + b + c
  {
  }

  lemma BodyPieces(years: nat, months: nat)
    ensures YearsPiece(years) + MonthsPiece(years, months) ==
            var monthsText := Digits(months) + (" " + Plural("mon", months));
            if years == 0 then monthsText
            else if months == 0 then Digits(years) + (" " + Plural("year", years))
            else Digits(years) + (" " + (Plural("year", years) + (" " + monthsText)))
  {
    hide Digits, Plural;
    if years != 0 && months != 0 {
      Joined(Digits(years), Plural("year", years), Digits(months), Plural("mon", months));
    }
  }

  lemma Joined(a: string, b: string, c: string, d: string)
    ensures a + (" " + (b + (" " + (c + (" " + d))))) == a + (" " + b) + (" " + c + (" " + d))
  {
  }

  lemma UnitTexts(years: nat, months: nat)
    ensures " " + Plural("year", years) == if years == 1 then " year" else " years"
    ensures " " + Plural("mon", months) == if months == 1 then " mon" else " mons"
    ensures NoNul(" year") && NoNul(" years") && NoNul(" mon") && NoNul(" mons") && NoNul(" ")
  {
    assert "year" + "s" == "years" && "mon" + "s" == "mons";
  }

  // YearMonthIntervalType::printValueToString(); the buffer is never too small.
  method PrintYearMonth(interval: int) returns (s: string)
    requires Negatable(interval)
    ensures s == PrintedYearMonth(interval)
  {
    hide Power, YearMonthText;
    var months: int := interval;
    var negative := months < 0;
    if negative {
      months := -months;
    }
    var years := months / 12;
    months := months - years * 12;
    YearsAndMonths(Magnitude(interval), years, months);
    s := PrintYearsAndMonths(negative, years, months);
  }

  lemma YearsAndMonths(interval: nat, years: int, months: int)
    requires interval <= INT64_MAX && years == interval / 12 && months == interval - years * 12
    ensures years >= 0 && months == interval % 12 && months >= 0 && years < Power(18) && months < Power(2)
  {
    hide Power;
    YearsAreFew(interval);
  }

  lemma YearsAreFew(interval: nat)
    requires interval <= INT64_MAX
    ensures interval / 12 < Power(18) && interval % 12 < Power(2)
  {
    assert Power(9) == 1000000000;
    assert Power(18) == Power(9) * 1000000000;
    assert Power(2) == 100;
  }

  method PrintYearsAndMonths(negative: bool, years: nat, months: nat) returns (s: string)
    requires years < Power(18) && months < Power(2)
    ensures s == YearMonthText(negative, years, months)
  {
    hide Power, NoNul, WithSign, YearMonthText, YearsPiece, MonthsPiece;
    var buffer := new char[YEAR_MONTH_PRINTING_CHARS + 1];
    var written := AppendSign(buffer, negative);
    if years != 0 {
      written := AppendYears(buffer, written, years);
    }
    PieceTexts(years, months);
    if months != 0 || years == 0 {
      written := AppendMonths(buffer, written, years, months);
    }
    YearMonthPieces(negative, years, months);
    s := Contents(buffer, written);
  }

  method AppendYears(buffer: array<char>, written: nat, years: nat) returns (now: nat)
    requires 0 < years < Power(18) && written + 24 < buffer.Length && NoNul(buffer[..written])
    modifies buffer
    ensures now <= written + 24
    ensures buffer[..now] == old(buffer[..written]) + YearsPiece(years) && buffer[now] == '\0' && NoNul(buffer[..now])
  {
    hide Digits, Power, NoNul, Plural, YearsPiece;
    DigitsPrint(years, 18);
    UnitTexts(years, 0);
    YearsPieceJoined(buffer[..written], years);
    now := Append(buffer, written, Digits(years));
    now := Append(buffer, now, if years == 1 then " year" else " years");
  }

  method AppendMonths(buffer: array<char>, written: nat, years: nat, months: nat) returns (now: nat)
    requires months < Power(2) && (months != 0 || years == 0)
    requires written + 8 < buffer.Length && NoNul(buffer[..written])
    modifies buffer
    ensures now <= written + 8
    ensures buffer[..now] == old(buffer[..written]) + MonthsPiece(years, months)
    ensures buffer[now] == '\0' && NoNul(buffer[..now])
  {
    hide Digits, Power, NoNul, Plural, MonthsPiece;
    DigitsPrint(months, 2);
    UnitTexts(years, months);
    MonthsPieceJoined(buffer[..written], years, months);
    now := written;
    if years != 0 {
      now := Append(buffer, now, " ");
    }
    now := Append(buffer, now, Digits(months));
    now := Append(buffer, now, if months == 1 then " mon" else " mons");
  }

  lemma YearsPieceJoined(before: string, years: nat)
    requires years > 0
    ensures before + YearsPiece(years) == before + Digits(years) + if years == 1 then " year" else " years"
  {
    hide Digits;
    UnitTexts(years, 0);
    hide Plural;
  }

  lemma MonthsPieceJoined(before: string, years: nat, months: nat)
    requires months != 0 || years == 0
    ensures before + MonthsPiece(years, months) ==
            (if years != 0 then before + " " else before) + Digits(months) + if months == 1 then " mon" else " mons"
  {
    hide Digits, Plural;
    UnitTexts(years, months);
    var unit := if months == 1 then " mon" else " mons";
    if years != 0 {
      JoinedLeft(before, " ", Digits(months), unit);
    } else {
      AssociatesLeft(before, Digits(months), unit);
    }
  }

  lemma JoinedLeft(a: string, b: string, c: string, d: string)
    ensures a + (b + c + d) == a + b + c + d
  {
  }

  lemma PieceTexts(years: nat, months: nat)
    ensures years == 0 ==> YearsPiece(years) == ""
    ensures months == 0 && years != 0 ==> MonthsPiece(years, months) == ""
  {
  }

  // ---- consequences -----------------------------------------------------------------------------------

  /** Different values print differently. */
  lemma PrintingIsInjective(a: int, b: int)
    requires Negatable(a) && Negatable(b)
    ensures PrintedDatetime(a) == PrintedDatetime(b) ==> a == b
    ensures PrintedYearMonth(a) == PrintedYearMonth(b) ==> a == b
  {
    hide *;
    DatetimeRoundTrip(a);
    DatetimeRoundTrip(b);
    YearMonthRoundTrip(a);
    YearMonthRoundTrip(b);
  }
}
