/** types/IntervalParser.cpp: the simple format ("3 days"), the complex formats ("1 day 00:39:35.244090",
    "2 years 1 mon"), and what each of them reads from a well-formed text. */
module IntervalParser {
  import opened Options
  import opened Decimal
  import opened Scanner

  const TICKS_PER_SECOND := 1000000

  // tolower() in the "C" locale
  function LowerChar(c: char): char {
    if 'A' <= c <= 'Z' then (c as int + 32) as char else c
  }

  function Lowered(s: string): (r: string)
    ensures |r| == |s|
  {
    seq(|s|, i requires 0 <= i < |s| => LowerChar(s[i]))
  }

  method LowerInPlace(buffer: array<char>)
    modifies buffer
    ensures buffer[..] == Lowered(old(buffer[..]))
    ensures forall i | 0 <= i < buffer.Length ::
              buffer[i] as int == old(buffer[i]) as int + if 'A' <= old(buffer[i]) <= 'Z' then 32 else 0
  {
    for i := 0 to buffer.Length
      invariant forall j :: 0 <= j < i ==> buffer[j] == LowerChar(old(buffer[j]))
      invariant forall j :: i <= j < buffer.Length ==> buffer[j] == old(buffer[j])
    {
      buffer[i] := LowerChar(buffer[i]);
    }
  }

  method ToLower(s: string) returns (r: string)
    ensures r == Lowered(s)
  {
    var buffer := new char[|s|](i requires 0 <= i < |s| => s[i]);
    assert buffer[..] == s;
    LowerInPlace(buffer);
    r := buffer[..];
  }

  // ---- units ------------------------------------------------------------------------------------

  function TicksPerUnit(units: string): Option<int> {
    if units == "microsecond" || units == "microseconds" || units == "us" then Some(TICKS_PER_SECOND / 1000000)
    else if units == "millisecond" || units == "milliseconds" || units == "ms" then Some(TICKS_PER_SECOND / 1000)
    else if units == "second" || units == "seconds" || units == "s" then Some(TICKS_PER_SECOND)
    else if units == "minute" || units == "minutes" then Some(TICKS_PER_SECOND * 60)
    else if units == "hour" || units == "hours" || units == "h" then Some(TICKS_PER_SECOND * 60 * 60)
    else if units == "day" || units == "days" || units == "d" then Some(TICKS_PER_SECOND * 60 * 60 * 24)
    else if units == "week" || units == "weeks" || units == "w" then Some(TICKS_PER_SECOND * 60 * 60 * 24 * 7)
    else None
  }

  function MonthsPerUnit(units: string): Option<int> {
    if units == "month" || units == "months" || units == "mon" || units == "mons" then Some(1)
    else if units == "year" || units == "years" || units == "y" then Some(12)
    else if units == "decade" || units == "decades" then Some(120)
    else if units == "century" || units == "centuries" then Some(1200)
    else if units == "millennium" || units == "millennia" then Some(12000)
    else None
  }

  predicate IsYearsWord(w: string) {
    w == "year" || w == "years" || w == "y"
  }

  predicate IsMonthsWord(w: string) {
    w == "month" || w == "months" || w == "mon" || w == "mons"
  }

  predicate IsDaysWord(w: string) {
    w == "day" || w == "days"
  }

  // ---- variables set by sscanf; positions start as 0 --------------------------------------------

  function NumberAt(sc: Scanned, k: nat): int {
    if k < |sc.numbers| then sc.numbers[k] else 0
  }

  function WordAt(sc: Scanned, k: nat): string {
    if k < |sc.words| then sc.words[k] else ""
  }

  function MarkAt(sc: Scanned, k: nat): nat {
    if k < |sc.marks| then sc.marks[k] else 0
  }

  // ---- the simple format ------------------------------------------------------------------------

  function QuotedFormat(): Format {
    Literal('\'', Integer(0, Space(Mark(Skip(Unit, 0, Mark(Literal('\'', Mark(End))))))))
  }

  function QuotedCountFormat(): Format {
    Literal('\'', Integer(0, Literal('\'', Space(Mark(Skip(Unit, 0, Mark(End)))))))
  }

  function PlainFormat(): Format {
    Integer(0, Space(Mark(Skip(Unit, 0, Mark(End)))))
  }

  /** A count and a unit in lower case, if f matches all of s; `last` is the number of the mark
      that must have reached the end of s. */
  function FieldsBy(f: Format, last: nat, s: string): Option<(int, string)>
    requires last >= 1
  {
    var sc := Scan(f, s, 0, Nothing());
    if sc.Matched() == 1 && MarkAt(sc, last) == |s| > 0 then
      MarksAscend(f, s, 0, Nothing());
      Some((NumberAt(sc, 0), Lowered(s[sc.marks[0]..sc.marks[1]])))
    else
      None
  }

  function SimpleFields(s: string): Option<(int, string)> {
    var quoted := FieldsBy(QuotedFormat(), 2, s);
    var quotedCount := FieldsBy(QuotedCountFormat(), 1, s);
    if quoted.Some? then quoted
    else if quotedCount.Some? then quotedCount
    else FieldsBy(PlainFormat(), 1, s)
  }

  /** An empty string matches none of the formats, so a full match is never of length 0. */
  lemma NothingInEmpty(f: Format)
    requires f == QuotedFormat() || f == QuotedCountFormat() || f == PlainFormat()
    ensures Scan(f, "", 0, Nothing()).Matched() == 0
  {
  }

  // One sscanf() of the field splitter, with its check and the lowering of the units.
  method SplitBy(f: Format, last: nat, s: string) returns (fields: Option<(int, string)>)
    requires f == QuotedFormat() || f == QuotedCountFormat() || f == PlainFormat()
    requires last >= 1
    ensures fields == FieldsBy(f, last, s)
  {
    var sc := Scan(f, s, 0, Nothing());
    NothingInEmpty(f);
    if sc.Matched() == 1 && MarkAt(sc, last) == |s| {
      MarksAscend(f, s, 0, Nothing());
      var units := ToLower(s[sc.marks[0]..sc.marks[1]]);
      return Some((NumberAt(sc, 0), units));
    }
    return None;
  }

  // ParseSimpleFormatFieldsFromCombinedStringNoExtraWhitespace()
  method ParseSimpleFields(s: string) returns (fields: Option<(int, string)>)
    ensures fields == SimpleFields(s)
  {
    fields := SplitBy(QuotedFormat(), 2, s);
    if fields.Some? {
      return;
    }
    fields := SplitBy(QuotedCountFormat(), 1, s);
    if fields.Some? {
      return;
    }
    fields := SplitBy(PlainFormat(), 1, s);
  }
}
