/** What interval texts are worth, spelled out: the text, the weight of every digit of a fraction and
    the length of every unit stand here as literals, not through the functions of the parsers. */
module IntervalLaws {
  import opened Options
  import opened Decimal
  import opened Scanner
  import opened IntervalParser
  import opened ColonCounts
  import opened ComplexIntervals
  import opened IntervalTexts
  import opened SimpleTexts
  import opened ComplexTexts
  import opened IntervalTypes

  // ---- fractions -------------------------------------------------------------------------------

  function DigitAt(fs: string, i: nat): int {
    if i < |fs| then fs[i] as int - '0' as int else 0
  }

  /** Digits after the point, in millionths of a second. */
  function Millionths(fs: string): int {
    100000 * DigitAt(fs, 0) + 10000 * DigitAt(fs, 1) + 1000 * DigitAt(fs, 2) +
    100 * DigitAt(fs, 3) + 10 * DigitAt(fs, 4) + DigitAt(fs, 5)
  }

  function Seconds(days: int, hours: int, minutes: int, seconds: int): int {
    86400 * days + 3600 * hours + 60 * minutes + seconds
  }

  lemma LastDigit(fs: string, n: int)
    requires fs != "" && AllDigits(fs) && ValueOf(fs) == n
    ensures var front := fs[..|fs| - 1];
            AllDigits(front) && n == 10 * ValueOf(front) + DigitAt(fs, |fs| - 1)
    ensures forall i: nat | i < |fs| - 1 :: DigitAt(fs, i) == DigitAt(fs[..|fs| - 1], i)
  {
  }

  /** One more digit weighs ten times less than the one before it. */
  lemma {:induction false} WeighedDigits(fs: string, n: int)
    requires AllDigits(fs) && |fs| <= 6 && ValueOf(fs) == n
    ensures n * Power(6 - |fs|) == Millionths(fs)
  {
    if fs != "" {
      var k := |fs| - 1;
      var front := fs[..k];
      LastDigit(fs, n);
      hide ValueOf, AllDigits, Millionths, Power, DigitAt;
      WeighedDigits(front, ValueOf(front));
      LastWeight(fs);
      OneMorePlace(ValueOf(front), DigitAt(fs, k), 6 - |fs|);
    }
  }

  lemma OneMorePlace(v: int, d: int, k: nat)
    ensures (10 * v + d) * Power(k) == v * Power(k + 1) + Power(k) * d
  {
    var p := Power(k);
    assert Power(k + 1) == 10 * p;
  }

  lemma Powers()
    ensures Power(0) == 1 && Power(1) == 10 && Power(2) == 100 && Power(3) == 1000
    ensures Power(4) == 10000 && Power(5) == 100000 && Power(6) == 1000000
  {
  }

  lemma LastWeight(fs: string)
    requires 0 < |fs| <= 6
    ensures Millionths(fs) == Millionths(fs[..|fs| - 1]) + Power(6 - |fs|) * DigitAt(fs, |fs| - 1)
  {
    Powers();
    hide Power;
  }

  lemma ScaledIsMillionths(fs: string, frac: int)
    requires FractionFor(fs, frac)
    ensures Scaled(frac, Places(fs)) == Millionths(fs)
  {
    hide ValueOf, Millionths;
    WeighedDigits(fs, frac);
    Powers();
    if fs == "" {
      NothingScaled(fs, frac);
    }
  }

  lemma NothingScaled(fs: string, frac: int)
    requires FractionFor(fs, frac) && fs == ""
    ensures frac == 0 && Millionths(fs) == 0
  {
  }

  /** "H:M:S" and "H:M:S.F" */
  function SpelledClock(hs: string, ms: string, ss: string, fs: string): string {
    if fs == "" then hs + ":" + ms + ":" + ss else hs + ":" + ms + ":" + ss + "." + fs
  }

  /** "[-]H:M:S" and "[-]H:M:S.F" */
  predicate ClockSpelled(s: string, negative: bool, hs: string, ms: string, ss: string, fs: string) {
    s == if negative then "-" + SpelledClock(hs, ms, ss, fs) else SpelledClock(hs, ms, ss, fs)
  }

  /** "[-]D word H:M:S" and "[-]D word H:M:S.F" */
  predicate DaysSpelled(s: string, negative: bool, ds: string, word: string,
                        hs: string, ms: string, ss: string, fs: string) {
    s == if negative then "-" + (ds + " " + word + " " + SpelledClock(hs, ms, ss, fs))
         else ds + " " + word + " " + SpelledClock(hs, ms, ss, fs)
  }

  lemma SpelledAlike(hs: string, ms: string, ss: string, fs: string)
    ensures ClockText(hs, ms, ss, fs) == SpelledClock(hs, ms, ss, fs)
  {
    ClockJoined(hs, ms, ss, fs);
    hide ClockText;
    if fs != "" {
      AssociatesLeft(hs + ":" + ms + ":" + ss, ".", fs);
    }
  }

  lemma ClockSpelling(s: string, negative: bool, hs: string, ms: string, ss: string, fs: string)
    requires ClockSpelled(s, negative, hs, ms, ss, fs)
    ensures s == WithSign(negative, ClockText(hs, ms, ss, fs))
  {
    hide ClockText, SpelledClock;
    SpelledAlike(hs, ms, ss, fs);
  }

  lemma DaysSpelling(s: string, negative: bool, ds: string, word: string,
                     hs: string, ms: string, ss: string, fs: string)
    requires DaysSpelled(s, negative, ds, word, hs, ms, ss, fs)
    ensures s == WithSign(negative, DaysText(ds, word, ClockText(hs, ms, ss, fs)))
  {
    hide ClockText, SpelledClock;
    SpelledAlike(hs, ms, ss, fs);
    DaysJoined(ds, word, SpelledClock(hs, ms, ss, fs));
    hide DaysText;
  }

  lemma DaysJoined(ds: string, word: string, clock: string)
    ensures DaysText(ds, word, clock) == ds + " " + word + " " + clock
  {
  }

  lemma FractionReads(fs: string) returns (frac: int)
    requires AllDigits(fs) && |fs| <= 6
    ensures FractionFor(fs, frac)
  {
    frac := ValueOf(fs);
  }

  /** A clock is worth its seconds times a million, plus its fraction in millionths. */
  lemma ClockTicks(s: string, negative: bool, hs: string, ms: string, ss: string, fs: string,
                   h: int, m: int, sec: int)
    requires ClockSpelled(s, negative, hs, ms, ss, fs)
    requires Denotes(hs, h) && ShortFor(ms, m) && ShortFor(ss, sec) && AllDigits(fs) && |fs| <= 6
    ensures var ticks := 1000000 * Seconds(0, h, m, sec) + Millionths(fs);
            ParsedDatetime(s) == if m <= 59 && sec <= 59 then Some(if negative then -ticks else ticks) else None
  {
    hide ParsedDatetime, ComplexDatetime, ClockSpelled, Denotes, ShortFor, FractionFor, Scaled, Places, Millionths,
      ClockText, WithSign, ValueOf, AllDigits;
    ClockSpelling(s, negative, hs, ms, ss, fs);
    var frac := FractionReads(fs);
    SimpleLeavesClocks(negative, hs, ms, ss, fs, h, m, sec, frac);
    ClockTextParses(negative, hs, ms, ss, fs, h, m, sec, frac);
    ScaledIsMillionths(fs, frac);
  }

  /** So is a clock after a number of days. */
  lemma DaysTicks(s: string, negative: bool, ds: string, word: string, hs: string, ms: string, ss: string, fs: string,
                  d: int, h: int, m: int, sec: int)
    requires DaysSpelled(s, negative, ds, word, hs, ms, ss, fs)
    requires Denotes(ds, d) && UnitWord(word)
    requires ShortFor(hs, h) && ShortFor(ms, m) && ShortFor(ss, sec) && AllDigits(fs) && |fs| <= 6
    ensures var ticks := 1000000 * Seconds(d, h, m, sec) + Millionths(fs);
            ParsedDatetime(s) ==
            if Lowered(word) in {"day", "days"} && h <= 23 && m <= 59 && sec <= 59
            then Some(if negative then -ticks else ticks)
            else None
  {
    hide ParsedDatetime, ComplexDatetime, DaysSpelled, Denotes, ShortFor, FractionFor, Scaled, Places, Millionths,
      ClockText, DaysText, WithSign, ValueOf, AllDigits, NoBlanks, UnitWord, Lowered;
    DaysSpelling(s, negative, ds, word, hs, ms, ss, fs);
    UnitsHaveNoBlanks(word);
    var frac := FractionReads(fs);
    SimpleLeavesDays(negative, ds, d, word, ClockText(hs, ms, ss, fs));
    DaysTextParses(negative, ds, word, hs, ms, ss, fs, d, h, m, sec, frac);
    ScaledIsMillionths(fs, frac);
  }

  /** The days may be followed by the hours at once: the scan takes four characters for the word. */
  lemma DaysNeedNoBlank(ds: string, hs: string, ms: string, ss: string, fs: string, d: int, h: int, m: int, sec: int)
    requires Denotes(ds, d) && ShortFor(hs, h) && ShortFor(ms, m) && ShortFor(ss, sec) && AllDigits(fs) && |fs| <= 6
    requires h <= 23 && m <= 59 && sec <= 59
    ensures ComplexDatetime(ds + (" " + ("days" + SpelledClock(hs, ms, ss, fs)))) ==
            Some(1000000 * Seconds(d, h, m, sec) + Millionths(fs))
  {
    hide ValueOf, ComplexDatetime, Takes, Millionths, Tens, Scaled, SpelledClock, AllDigits;
    var frac := FractionReads(fs);
    SpelledAlike(hs, ms, ss, fs);
    ScaledIsMillionths(fs, frac);
    ScaledByTens(frac, Places(fs));
    var p := Parts(ds, d, " ", "days", hs, h, ms, m, ss, sec, fs, frac);
    DaysPartsTaken(p);
    Taken(p.Body(), false, p);
  }

  lemma DaysPartsTaken(p: Parts)
    requires Denotes(p.ds, p.d) && p.gap == " " && p.word == "days" && ShortFor(p.hs, p.h)
    requires ShortFor(p.ms, p.m) && ShortFor(p.ss, p.sec) && FractionFor(p.fs, p.frac)
    requires p.h <= 23 && p.m <= 59 && p.sec <= 59
    ensures Takes(p.Body(), false, p)
  {
    hide ValueOf, Denotes, AllDigits, IsDigit, IsBlank, NoBlanks, AllBlank, IsField, FractionField, FractionFor,
      ClockText, Lowered, Blanks;
    DaysWord();
    FieldsNotNegative(p.ds, p.hs, p.ms, p.ss, p.fs, p.d, p.h, p.m, p.sec, p.frac);
    DigitsAreFields(p.ds, 0, p.d);
    DigitsAreFields(p.hs, 2, p.h);
    ShortsAreFields(p.ms, p.ss, p.fs, p.m, p.sec, p.frac);
    FirstDigit(p.ds, p.d);
  }

  lemma DaysWord()
    ensures Lowered("days") == "days" && NoBlanks("days") && AllBlank(" ")
  {
  }

  lemma UnitsHaveNoBlanks(word: string)
    requires UnitWord(word)
    ensures NoBlanks(word)
  {
    forall i | 0 <= i < |word|
      ensures !IsBlank(word[i])
    {
      assert In(word[i], Unit);
    }
  }

  /** padded is fs with zeros on its right, six digits in all. */
  predicate PadsToSix(padded: string, fs: string) {
    |padded| == 6 && fs <= padded && forall i :: |fs| <= i < 6 ==> padded[i] == '0'
  }

  /** A fraction of one to five digits reads as it would with zeros up to six digits. */
  lemma ShortFractionsArePadded(s: string, t: string, negative: bool, hs: string, ms: string, ss: string,
                                fs: string, padded: string, h: int, m: int, sec: int)
    requires ClockSpelled(s, negative, hs, ms, ss, fs) && ClockSpelled(t, negative, hs, ms, ss, padded)
    requires Denotes(hs, h) && ShortFor(ms, m) && ShortFor(ss, sec) && AllDigits(fs) && PadsToSix(padded, fs)
    ensures ParsedDatetime(s) == ParsedDatetime(t)
  {
    hide *;
    PaddingAddsNothing(fs, padded);
    ClockTicks(s, negative, hs, ms, ss, fs, h, m, sec);
    ClockTicks(t, negative, hs, ms, ss, padded, h, m, sec);
  }

  lemma ShortFractionsArePaddedAfterDays(s: string, t: string, negative: bool, ds: string, word: string,
                                         hs: string, ms: string, ss: string, fs: string, padded: string,
                                         d: int, h: int, m: int, sec: int)
    requires DaysSpelled(s, negative, ds, word, hs, ms, ss, fs)
    requires DaysSpelled(t, negative, ds, word, hs, ms, ss, padded)
    requires Denotes(ds, d) && UnitWord(word) && ShortFor(hs, h) && ShortFor(ms, m) && ShortFor(ss, sec)
    requires AllDigits(fs) && PadsToSix(padded, fs)
    ensures ParsedDatetime(s) == ParsedDatetime(t)
  {
    hide *;
    PaddingAddsNothing(fs, padded);
    DaysTicks(s, negative, ds, word, hs, ms, ss, fs, d, h, m, sec);
    DaysTicks(t, negative, ds, word, hs, ms, ss, padded, d, h, m, sec);
  }

  /** Padding with zeros does not change what a fraction weighs; six digits weigh what they read as. */
  lemma PaddingAddsNothing(fs: string, padded: string)
    requires AllDigits(fs) && PadsToSix(padded, fs)
    ensures |fs| <= 6 == |padded| && AllDigits(padded) && Millionths(padded) == Millionths(fs) == ValueOf(padded)
  {
    WeighedDigits(padded, ValueOf(padded));
    Powers();
    hide ValueOf;
  }

  /** A year-month interval is worth twelve months a year. */
  lemma YearsMonths(s: string, negative: bool, ys: string, yearsWord: string, ms: string, monthsWord: string,
                    y: int, m: int)
    requires var body := ys + " " + yearsWord + " " + ms + " " + monthsWord;
             s == if negative then "-" + body else body
    requires Denotes(ys, y) && Denotes(ms, m) && UnitWord(yearsWord) && UnitWord(monthsWord)
    ensures ParsedYearMonth(s) ==
            if Lowered(yearsWord) in ["year", "years", "y"] &&
               Lowered(monthsWord) in ["month", "months", "mon", "mons"] && m <= 11
            then Some(if negative then -(12 * y + m) else 12 * y + m)
            else None
  {
    YearsRecognised(Lowered(yearsWord), Lowered(monthsWord));
    hide *;
    YearsJoined(ys, yearsWord, ms, monthsWord);
    UnitsHaveNoBlanks(yearsWord);
    UnitsHaveNoBlanks(monthsWord);
    YearsTextParses(negative, ys, yearsWord, ms, monthsWord, y, m);
    SimpleLeavesYears(negative, ys, y, yearsWord, ms, monthsWord);
    SignSpelled(negative, YearsText(ys, yearsWord, ms, monthsWord), Signed(negative, y * 12 + m), y * 12 + m);
  }

  lemma SignSpelled(negative: bool, body: string, value: int, magnitude: int)
    requires value == Signed(negative, magnitude)
    ensures value == if negative then -magnitude else magnitude
    ensures WithSign(negative, body) == if negative then "-" + body else body
  {
  }

  lemma YearsJoined(ys: string, yearsWord: string, ms: string, monthsWord: string)
    ensures YearsText(ys, yearsWord, ms, monthsWord) == ys + " " + yearsWord + " " + ms + " " + monthsWord
  {
  }

  /** The simple format never takes a text with years and months. */
  lemma SimpleLeavesYears(negative: bool, ys: string, y: int, yearsWord: string, ms: string, monthsWord: string)
    requires Denotes(ys, y) && UnitWord(yearsWord)
    ensures var s := WithSign(negative, YearsText(ys, yearsWord, ms, monthsWord));
            ParsedYearMonth(s) == ComplexYearMonth(s)
  {
    PlainUnitsRejected(negative, ys, y, yearsWord, ms + (" " + monthsWord));
    hide SimpleFields, ComplexYearMonth, MonthsPerUnit;
  }

  // ---- the simple format ------------------------------------------------------------------------------

  function Capitals(): string {
    "ABCDEFGHIJKLMNOPQRSTUVWXYZ"
  }

  function SmallLetters(): string {
    "abcdefghijklmnopqrstuvwxyz"
  }

  lemma Alphabet(k: nat)
    requires k < 26
    ensures |Capitals()| == |SmallLetters()| == 26
    ensures Capitals()[k] as int == 'A' as int + k && SmallLetters()[k] as int == 'a' as int + k
  {
  }

  /** Lowering replaces each capital by the small letter in its place in the alphabet. */
  lemma LoweredLetters(s: string, i: nat, k: nat)
    requires i < |s| && k < 26
    ensures |Capitals()| == |SmallLetters()| == 26
    ensures s[i] == Capitals()[k] ==> Lowered(s)[i] == SmallLetters()[k]
    ensures s[i] !in Capitals() ==> Lowered(s)[i] == s[i]
  {
    hide Capitals, SmallLetters;
    Alphabet(k);
    if 'A' <= s[i] <= 'Z' {
      Alphabet(s[i] as int - 'A' as int);
      assert s[i] == Capitals()[s[i] as int - 'A' as int];
    }
  }

  /** A count and a unit of time, in any case, spacing and quoting. */
  lemma DatetimeUnits(s: string, lead: string, numeral: string, n: int, gap: string, units: string)
    requires SimpleText(s, lead, numeral, gap, units) && Numeral(numeral, n)
    ensures var u := Lowered(units);
            ParsedDatetime(s) ==
            if u in ["microsecond", "microseconds", "us"] then Some(n)
            else if u in ["millisecond", "milliseconds", "ms"] then Some(1000 * n)
            else if u in ["second", "seconds", "s"] then Some(1000000 * n)
            else if u in ["minute", "minutes"] then Some(60000000 * n)
            else if u in ["hour", "hours", "h"] then Some(3600000000 * n)
            else if u in ["day", "days", "d"] then Some(86400000000 * n)
            else if u in ["week", "weeks", "w"] then Some(604800000000 * n)
            else ComplexDatetime(s)
  {
    hide Lowered, SimpleText, Numeral, SimpleFields, ComplexDatetime;
    SimpleYields(s, lead, numeral, n, gap, units);
  }

  lemma YearMonthUnits(s: string, lead: string, numeral: string, n: int, gap: string, units: string)
    requires SimpleText(s, lead, numeral, gap, units) && Numeral(numeral, n)
    ensures var u := Lowered(units);
            ParsedYearMonth(s) ==
            if u in ["month", "months", "mon", "mons"] then Some(n)
            else if u in ["year", "years", "y"] then Some(12 * n)
            else if u in ["decade", "decades"] then Some(120 * n)
            else if u in ["century", "centuries"] then Some(1200 * n)
            else if u in ["millennium", "millennia"] then Some(12000 * n)
            else ComplexYearMonth(s)
  {
    hide Lowered, SimpleText, Numeral, SimpleFields, ComplexYearMonth;
    SimpleYields(s, lead, numeral, n, gap, units);
  }

  // ---- texts without a clock ---------------------------------------------------------------------------

  lemma NoColonsInRest(s: string, k: nat)
    requires NoColons(s) && k <= |s|
    ensures NoColons(s[k..])
  {
  }

  /** Without a colon the format with days reads at most days, word and hours. */
  lemma NoColonsInDays(body: string)
    requires NoColons(body)
    ensures Scan(DaysFormat(), body, 0, Nothing()).Matched() <= 3
  {
    hide Scan, Run, ReadNumber, ClockRest, NoColons, Limit;
    var b := Blanks(body);
    var t := body[b..];
    IntegerStep(DaysFormat(), body, b, t, 0, Nothing());
    var r := ReadNumber(t, Limit(0, t));
    NoColonsInRest(body, b);
    NoColonsInRest(t, r.taken);
    NoColonsAfterDays(t[r.taken..], b + r.taken, Scanned([] + [r.number], [], []));
  }

  lemma NoColonsAfterDays(rest: string, at: nat, got: Scanned)
    requires NoColons(rest) && got.Matched() == 1
    ensures Scan(Space(Word(4, Space(Integer(2, ClockRest())))), rest, at, got).Matched() <= 3
  {
    hide Scan, Blanks, NoColons, ClockRest;
    SpaceTaken(Space(Word(4, Space(Integer(2, ClockRest())))), rest, at, got);
    NoColonsInRest(rest, Blanks(rest));
    NoColonsAfterWord(rest[Blanks(rest)..], at + Blanks(rest), got);
  }

  lemma NoColonsAfterWord(u: string, at: nat, got: Scanned)
    requires NoColons(u) && got.Matched() == 1
    ensures Scan(Word(4, Space(Integer(2, ClockRest()))), u, at, got).Matched() <= 3
  {
    hide Scan, Run, NoColons, ClockRest, Limit;
    var v := u[Blanks(u)..];
    var k := Run(v, NonBlank, Limit(4, v));
    WordStep(4, Space(Integer(2, ClockRest())), u, at, got, v, k);
    NoColonsInRest(u, Blanks(u));
    NoColonsInRest(v, k);
    NoColonLeft(v[k..], at + Blanks(u) + k, got.(words := got.words + [v[..k]]));
  }

  lemma NoColonsInClock(body: string)
    requires NoColons(body)
    ensures Scan(ClockFormat(), body, 0, Nothing()).Matched() <= 1
  {
    hide Scan, Run, ReadNumber, ClockRest, NoColons, Limit;
    var b := Blanks(body);
    var t := body[b..];
    IntegerStep(ClockFormat(), body, b, t, 0, Nothing());
    var r := ReadNumber(t, Limit(0, t));
    NoColonsInRest(body, b);
    NoColonsInRest(t, r.taken);
    ScanFailsWithoutColon(t[r.taken..], b + r.taken, Scanned([] + [r.number], [], []));
  }

  lemma ScanFailsWithoutColon(rest: string, at: nat, got: Scanned)
    requires NoColons(rest)
    ensures Scan(ClockRest(), rest, at, got) == got
  {
    ScanFails(ClockRest(), rest, at, got);
  }

  lemma NoClockWithoutColons(s: string)
    requires NoColons(s)
    ensures ComplexDatetime(s) == None
  {
    hide Scan, NoColons, DaysFormat, ClockFormat, StartOffset, Oriented, TicksOf;
    var body := s[StartOffset(s)..];
    NoColonsInRest(s, StartOffset(s));
    NoColonsInDays(body);
    NoColonsInClock(body);
  }

  /** A unit that is not in the table, and no colon: the text is rejected. */
  lemma UnknownUnits(s: string, lead: string, numeral: string, n: int, gap: string, units: string)
    requires SimpleText(s, lead, numeral, gap, units) && Numeral(numeral, n) && NoColons(s)
    requires Lowered(units) !in
             ["microsecond", "microseconds", "us", "millisecond", "milliseconds", "ms", "second", "seconds", "s",
              "minute", "minutes", "hour", "hours", "h", "day", "days", "d", "week", "weeks", "w"]
    ensures ParsedDatetime(s) == None
  {
    hide Lowered, SimpleText, Numeral, SimpleFields, ComplexDatetime, NoColons;
    SimpleYields(s, lead, numeral, n, gap, units);
    NoClockWithoutColons(s);
  }

  // ---- what is printed -----------------------------------------------------------------------------------

  const DIGITS := "0123456789"

  /** The two digits of a number below 100. */
  function TwoPlaces(n: nat): (s: string)
    requires n < 100
    ensures |s| == 2
  {
    [DIGITS[n / 10], DIGITS[n % 10]]
  }

  /** The six digits of a number below a million. */
  function SixPlaces(n: nat): (s: string)
    requires n < 1000000
    ensures |s| == 6
  {
    TwoPlaces(n / 10000) + TwoPlaces(n / 100 % 100) + TwoPlaces(n % 100)
  }

  lemma DigitsOf(d: nat)
    requires d < 10
    ensures IsDigit(DIGITS[d]) && DIGITS[d] as int - '0' as int == d
  {
  }

  /** Numerals of one length that read alike are the same. */
  lemma {:induction false} SameNumeral(a: string, b: string)
    requires AllDigits(a) && AllDigits(b) && |a| == |b| && ValueOf(a) == ValueOf(b)
    ensures a == b
  {
    if a != "" {
      var k := |a| - 1;
      LastDigit(a, ValueOf(a));
      LastDigit(b, ValueOf(b));
      SameNumeral(a[..k], b[..k]);
      assert a == a[..k] + [a[k]] && b == b[..k] + [b[k]];
    }
  }

  lemma DigitAppended(s: string, c: char)
    requires AllDigits(s) && IsDigit(c)
    ensures AllDigits(s + [c]) && ValueOf(s + [c]) == 10 * ValueOf(s) + (c as int - '0' as int)
  {
    assert (s + [c])[..|s|] == s;
  }

  lemma TwoPlacesRead(n: nat)
    requires n < 100
    ensures AllDigits(TwoPlaces(n)) && ValueOf(TwoPlaces(n)) == n
  {
    DigitsOf(n / 10);
    DigitsOf(n % 10);
    DigitAppended("", DIGITS[n / 10]);
    DigitAppended("" + [DIGITS[n / 10]], DIGITS[n % 10]);
    assert TwoPlaces(n) == "" + [DIGITS[n / 10]] + [DIGITS[n % 10]];
  }

  lemma {:induction false} ReadJoined(a: string, b: string)
    requires AllDigits(a) && AllDigits(b)
    ensures AllDigits(a + b) && ValueOf(a + b) == ValueOf(a) * Power(|b|) + ValueOf(b)
  {
    if b == "" {
      assert a + b == a;
    } else {
      var k := |b| - 1;
      var front := b[..k];
      assert b == front + [b[k]] && a + b == a + front + [b[k]];
      assert IsDigit(b[k]) && AllDigits(front);
      TenTimesPower(ValueOf(a), k);
      hide AllDigits, IsDigit, ValueOf, Power;
      ReadJoined(a, front);
      DigitAppended(front, b[k]);
      DigitAppended(a + front, b[k]);
    }
  }

  lemma TenTimesPower(v: int, k: nat)
    ensures v * Power(k + 1) == 10 * (v * Power(k))
  {
    var p := Power(k);
    assert Power(k + 1) == 10 * p;
  }

  lemma SixPlacesRead(n: nat)
    requires n < 1000000
    ensures AllDigits(SixPlaces(n)) && ValueOf(SixPlaces(n)) == n
  {
    hide ValueOf, AllDigits, TwoPlaces;
    var a, b, c := n / 10000, n / 100 % 100, n % 100;
    TwoPlacesRead(a);
    TwoPlacesRead(b);
    TwoPlacesRead(c);
    Powers();
    assert |TwoPlaces(b)| == |TwoPlaces(c)| == 2;
    ReadJoined(TwoPlaces(a), TwoPlaces(b));
    ReadJoined(TwoPlaces(a) + TwoPlaces(b), TwoPlaces(c));
  }

  lemma PaddedSpelled(n: nat)
    ensures n < 100 ==> Padded(n, 2) == TwoPlaces(n)
    ensures n < 1000000 ==> Padded(n, 6) == SixPlaces(n)
  {
    Powers();
    hide Padded, AllDigits, ValueOf, SixPlaces, TwoPlaces, Power;
    if n < 100 {
      PaddedReadsBack(n, 2);
      TwoPlacesRead(n);
      SameNumeral(Padded(n, 2), TwoPlaces(n));
    }
    if n < 1000000 {
      PaddedReadsBack(n, 6);
      SixPlacesRead(n);
      SameNumeral(Padded(n, 6), SixPlaces(n));
    }
  }

  /** The fields of a clock by division of the ticks. */
  lemma ClockFields(t: nat)
    ensures var c := ClockOf(t);
            && c.days == t / 86400000000 && c.hours == t / 3600000000 % 24 && c.minutes == t / 60000000 % 60
            && c.seconds == t / 1000000 % 60 && c.subseconds == t % 1000000
  {
    ClockAddsUp(t);
    var c := ClockOf(t);
    hide ClockOf;
    FieldsByDivision(t, c.days, c.hours, c.minutes, c.seconds, c.subseconds);
  }

  lemma FieldsByDivision(t: nat, d: nat, h: nat, m: nat, s: nat, u: nat)
    requires h <= 23 && m <= 59 && s <= 59 && u < 1000000
    requires t == (((d * 24 + h) * 60 + m) * 60 + s) * 1000000 + u
    ensures d == t / 86400000000 && h == t / 3600000000 % 24 && m == t / 60000000 % 60
    ensures s == t / 1000000 % 60 && u == t % 1000000
  {
    var hours := d * 24 + h;
    var minutes := hours * 60 + m;
    var seconds := minutes * 60 + s;
    SecondsOf(t, seconds, u);
    MinutesOf(t, minutes, s * 1000000 + u);
    HoursOf(t, hours, m * 60000000 + s * 1000000 + u);
    DaysOf(t, d, h * 3600000000 + m * 60000000 + s * 1000000 + u);
  }

  lemma SecondsOf(t: nat, q: nat, rest: nat)
    requires t == 1000000 * q + rest && rest < 1000000
    ensures t / 1000000 == q && t % 1000000 == rest
  {
  }

  lemma MinutesOf(t: nat, q: nat, rest: nat)
    requires t == 60000000 * q + rest && rest < 60000000
    ensures t / 60000000 == q
  {
  }

  lemma HoursOf(t: nat, q: nat, rest: nat)
    requires t == 3600000000 * q + rest && rest < 3600000000
    ensures t / 3600000000 == q
  {
  }

  lemma DaysOf(t: nat, q: nat, rest: nat)
    requires t == 86400000000 * q + rest && rest < 86400000000
    ensures t / 86400000000 == q
  {
  }

  function SpelledDays(days: nat): string {
    if days == 0 then "" else if days == 1 then "1 day " else Digits(days) + " days "
  }

  /** A datetime interval is printed as its days, if any, and a clock of two digits each, with six
      digits of fraction unless they are all zero. */
  lemma DatetimeSpelled(ticks: int)
    ensures var t := if ticks < 0 then -ticks else ticks;
            PrintedDatetime(ticks) ==
            (if ticks < 0 then "-" else "") + SpelledDays(t / 86400000000) +
            (TwoPlaces(t / 3600000000 % 24) + ":" + TwoPlaces(t / 60000000 % 60) + ":" + TwoPlaces(t / 1000000 % 60)) +
            if t % 1000000 == 0 then "" else "." + SixPlaces(t % 1000000)
  {
    var t: nat := Magnitude(ticks);
    var c := ClockOf(t);
    ClockFields(t);
    hide ClockOf, Padded, TwoPlaces, SixPlaces, Digits, DaysPiece, SpelledDays, PrintedParts;
    PrintedPieces(ticks < 0, c);
    PaddedSpelled(c.hours);
    PaddedSpelled(c.minutes);
    PaddedSpelled(c.seconds);
    PaddedSpelled(c.subseconds);
    DaysSpelledAlike(c.days);
  }

  lemma DaysSpelledAlike(days: nat)
    ensures DaysPiece(days) == SpelledDays(days)
  {
    DayText(days);
    assert Digits(1) == "1";
    hide Plural, Digits;
    BlankJoined(Digits(days), Plural("day", days));
  }

  lemma BlankJoined(a: string, b: string)
    ensures a + (" " + b + " ") == a + (" " + b) + " "
  {
  }

  function SpelledYears(years: nat): string {
    if years == 0 then "" else if years == 1 then "1 year" else Digits(years) + " years"
  }

  function SpelledMonths(months: nat): string {
    if months == 1 then "1 mon" else Digits(months) + " mons"
  }

  /** A year-month interval is printed as its years and months, without a part that is 0, and 0 as
      "0 mons". */
  lemma YearMonthSpelled(interval: int)
    ensures var n := if interval < 0 then -interval else interval;
            PrintedYearMonth(interval) ==
            (if interval < 0 then "-" else "") + SpelledYears(n / 12) +
            if n / 12 == 0 then SpelledMonths(n % 12)
            else if n % 12 == 0 then ""
            else " " + SpelledMonths(n % 12)
  {
    var n: nat := Magnitude(interval);
    hide Digits, YearMonthText, YearsPiece, MonthsPiece, SpelledYears, SpelledMonths;
    YearMonthPieces(interval < 0, n / 12, n % 12);
    YearsSpelledAlike(n / 12, n % 12);
  }

  lemma YearsSpelledAlike(years: nat, months: nat)
    ensures YearsPiece(years) == SpelledYears(years)
    ensures MonthsPiece(years, months) ==
            if years == 0 then SpelledMonths(months) else if months == 0 then "" else " " + SpelledMonths(months)
  {
    UnitTexts(years, months);
    DigitsOfOne();
    hide Plural, Digits;
    MonthsSpelledAlike(months);
    if years != 0 && months != 0 {
      AssociatesLeft(" ", Digits(months), " " + Plural("mon", months));
    }
  }

  lemma DigitsOfOne()
    ensures Digits(1) == "1"
  {
  }

  lemma MonthsSpelledAlike(months: nat)
    ensures Digits(months) + (" " + Plural("mon", months)) == SpelledMonths(months)
  {
    UnitTexts(0, months);
    DigitsOfOne();
    hide Plural, Digits;
    assert "1" + " mon" == "1 mon";
  }

  /** Printed numbers do not begin with a zero. */
  lemma {:induction false} NoLeadingZero(n: nat)
    requires n > 0
    ensures Digits(n)[0] != '0'
  {
    if n >= 10 {
      NoLeadingZero(n / 10);
    }
  }
}
