/** The complex formats of types/IntervalParser.cpp, and what they read from a well-formed text. */
module ComplexIntervals {
  import opened Options
  import opened Decimal
  import opened Scanner
  import opened IntervalParser

  // "%*1[-]%n"
  function SignFormat(): Format {
    Skip(Hyphen, 1, Mark(End))
  }

  // ":%2d:%2d%n.%6d%n"
  function ClockRest(): Format {
    Literal(':', Integer(2, Literal(':', Integer(2, Mark(Literal('.', Integer(6, Mark(End))))))))
  }

  // "%ld %4s %2ld:%2d:%2d%n.%6d%n"
  function DaysFormat(): Format {
    Integer(0, Space(Word(4, Space(Integer(2, ClockRest())))))
  }

  // "%ld:%2d:%2d%n.%6d%n"
  function ClockFormat(): Format {
    Integer(0, ClockRest())
  }

  // "%ld %5s %d %6s%n"
  function YearsFormat(): Format {
    Integer(0, Space(Word(5, Space(Integer(0, Space(Word(6, Mark(End))))))))
  }

  /** The fields of a datetime interval, with the number of characters after the point; a clock
      without a fraction has 0 subseconds in 6 places. */
  datatype Fields = Fields(days: int, hours: int, minutes: int, seconds: int, subseconds: int, places: int)

  function StartOffset(s: string): (start: nat)
    ensures start <= |s|
  {
    MarksAscend(SignFormat(), s, 0, Nothing());
    MarkAt(Scan(SignFormat(), s, 0, Nothing()), 0)
  }

  /** Fields scanned from number k on, followed by a fraction if `fraction`. */
  function ScannedFields(sc: Scanned, days: int, k: nat, fraction: bool): Fields {
    if fraction then
      Fields(days, NumberAt(sc, k), NumberAt(sc, k + 1), NumberAt(sc, k + 2),
             NumberAt(sc, k + 3), MarkAt(sc, 1) - MarkAt(sc, 0) - 1)
    else
      Fields(days, NumberAt(sc, k), NumberAt(sc, k + 1), NumberAt(sc, k + 2), 0, 6)
  }

  function FieldsWithDays(body: string, sc: Scanned): Option<Fields> {
    var end := MarkAt(sc, if sc.Matched() == 5 then 0 else 1);
    if end != |body| || !IsDaysWord(Lowered(WordAt(sc, 0))) || NumberAt(sc, 1) > 23 then None
    else Some(ScannedFields(sc, NumberAt(sc, 0), 1, sc.Matched() == 6))
  }

  function FieldsWithoutDays(body: string, sc: Scanned): Option<Fields> {
    var end := MarkAt(sc, if sc.Matched() == 3 then 0 else 1);
    if !(3 <= sc.Matched() <= 4) || end != |body| then None
    else Some(ScannedFields(sc, 0, 0, sc.Matched() == 4))
  }

  function FieldsOf(body: string): Option<Fields> {
    var sc := Scan(DaysFormat(), body, 0, Nothing());
    if 5 <= sc.Matched() <= 6 then FieldsWithDays(body, sc)
    else FieldsWithoutDays(body, Scan(ClockFormat(), body, 0, Nothing()))
  }

  /** A fraction given with fewer than six places, in millionths. */
  function Scaled(value: int, places: int): int {
    if places < 6 then value * Power(6 - places) else value
  }

  /** What a fraction of so many characters counts in millionths. */
  function Tens(places: int): int {
    if places >= 6 then 1
    else if places == 5 then 10
    else if places == 4 then 100
    else if places == 3 then 1000
    else if places == 2 then 10000
    else 100000
  }

  lemma ScaledByTens(value: int, places: int)
    requires places >= 1
    ensures Scaled(value, places) == value * Tens(places)
  {
    assert Power(1) == 10 && Power(2) == 100 && Power(3) == 1000 && Power(4) == 10000 && Power(5) == 100000;
  }

  function TicksOf(f: Fields): Option<int> {
    if f.days < 0 || f.hours < 0 || f.minutes < 0 || f.seconds < 0 || f.subseconds < 0 ||
       f.minutes > 59 || f.seconds > 59
    then None
    else
      Some((((f.days * 24 + f.hours) * 60 + f.minutes) * 60 + f.seconds) * TICKS_PER_SECOND +
           Scaled(f.subseconds, f.places))
  }

  function Oriented(start: nat, magnitude: Option<int>): Option<int> {
    if magnitude.Some? && start != 0 then Some(-magnitude.value) else magnitude
  }

  function ComplexDatetime(s: string): Option<int> {
    var start := StartOffset(s);
    var fields := FieldsOf(s[start..]);
    if fields.Some? then Oriented(start, TicksOf(fields.value)) else None
  }

  function ComplexYearMonth(s: string): Option<int> {
    var start := StartOffset(s);
    var body := s[start..];
    var sc := Scan(YearsFormat(), body, 0, Nothing());
    var years, months := NumberAt(sc, 0), NumberAt(sc, 1);
    if sc.Matched() != 4 || MarkAt(sc, 0) != |body| || years < 0 || months < 0 || months > 11 ||
       !IsYearsWord(Lowered(WordAt(sc, 0))) || !IsMonthsWord(Lowered(WordAt(sc, 1)))
    then None
    else Oriented(start, Some(years * 12 + months))
  }

  // ---- the parsers ------------------------------------------------------------------------------

  // ParseDatetimeIntervalComplexFormat()
  method ParseDatetimeInterval(s: string) returns (ticks: Option<int>)
    ensures ticks == ComplexDatetime(s)
  {
    hide Scan, DaysFormat, ClockFormat, Lowered, StartOffset, Scaled, NumberAt, WordAt, MarkAt;
    var start := StartOffset(s);
    var body := s[start..];
    var days, hours, minutes, seconds: int, subseconds: int;
    var secondsEnd: int, parseEnd: int;
    var haveSubseconds := false;
    var sc := Scan(DaysFormat(), body, 0, Nothing());
    if sc.Matched() == 5 || sc.Matched() == 6 {
      days, hours, minutes := NumberAt(sc, 0), NumberAt(sc, 1), NumberAt(sc, 2);
      seconds, subseconds := NumberAt(sc, 3), NumberAt(sc, 4);
      secondsEnd, parseEnd := MarkAt(sc, 0), MarkAt(sc, 1);
      if sc.Matched() == 5 {
        if start + secondsEnd != |s| {
          return None;
        }
      } else {
        if start + parseEnd != |s| {
          return None;
        }
        haveSubseconds := true;
      }
      var word := ToLower(WordAt(sc, 0));
      if !(word == "day" || word == "days") {
        return None;
      }
      if hours > 23 {
        return None;
      }
    } else {
      sc := Scan(ClockFormat(), body, 0, Nothing());
      days, hours, minutes := 0, NumberAt(sc, 0), NumberAt(sc, 1);
      seconds, subseconds := NumberAt(sc, 2), NumberAt(sc, 3);
      secondsEnd, parseEnd := MarkAt(sc, 0), MarkAt(sc, 1);
      if sc.Matched() == 3 {
        if start + secondsEnd != |s| {
          return None;
        }
      } else if sc.Matched() == 4 {
        if start + parseEnd != |s| {
          return None;
        }
        haveSubseconds := true;
      } else {
        return None;
      }
    }
    ghost var fields := FieldsOf(body);
    assert fields == Some(if haveSubseconds
      then Fields(days, hours, minutes, seconds, subseconds, parseEnd - secondsEnd - 1)
      else Fields(days, hours, minutes, seconds, 0, 6));
    NoSubseconds();
    if days < 0 || hours < 0 || minutes < 0 || seconds < 0 || (haveSubseconds && subseconds < 0) {
      return None;
    }
    if minutes > 59 || seconds > 59 {
      return None;
    }
    if haveSubseconds {
      subseconds := Scale(subseconds, parseEnd - secondsEnd - 1);
    } else {
      subseconds := 0;
    }
    var total := (((days * 24 + hours) * 60 + minutes) * 60 + seconds) * TICKS_PER_SECOND + subseconds;
    return Some(if start == 0 then total else -total);
  }

  lemma NoSubseconds()
    ensures Scaled(0, 6) == 0
  {
  }

  method Scale(value: int, places: int) returns (scaled: int)
    ensures scaled == Scaled(value, places)
    ensures places >= 1 ==> scaled == value * Tens(places)
  {
    if places >= 1 {
      ScaledByTens(value, places);
    }
    scaled := value;
    var adjustment := 6 - places;
    var i: int := 0;
    while i < adjustment
      invariant i == 0 || 0 < i <= adjustment
      invariant scaled == value * Power(i)
    {
      PowerStep(value, i);
      scaled := scaled * 10;
      i := i + 1;
    }
    assert adjustment > 0 ==> i == adjustment;
    assert adjustment <= 0 ==> value * Power(i) == value;
  }

  lemma PowerStep(value: int, i: nat)
    ensures value * Power(i) * 10 == value * Power(i + 1)
  {
  }

  // ParseYearMonthIntervalComplexFormat()
  method ParseYearMonthInterval(s: string) returns (interval: Option<int>)
    ensures interval == ComplexYearMonth(s)
  {
    hide Scan, YearsFormat, Lowered, StartOffset, NumberAt, WordAt, MarkAt;
    var start := StartOffset(s);
    var body := s[start..];
    var sc := Scan(YearsFormat(), body, 0, Nothing());
    var years, months := NumberAt(sc, 0), NumberAt(sc, 1);
    if sc.Matched() != 4 || start + MarkAt(sc, 0) != |s| || years < 0 || months < 0 || months > 11 {
      return None;
    }
    var yearsWord := ToLower(WordAt(sc, 0));
    if !(yearsWord == "year" || yearsWord == "years" || yearsWord == "y") {
      return None;
    }
    var monthsWord := ToLower(WordAt(sc, 1));
    if !(monthsWord == "month" || monthsWord == "months" || monthsWord == "mon" || monthsWord == "mons") {
      return None;
    }
    return Some(if start == 0 then years * 12 + months else -(years * 12 + months));
  }
}
