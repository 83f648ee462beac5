/** The complex datetime format: exactly which texts it takes, and what it reads from them. */
module ComplexTexts {
  import opened Options
  import opened Decimal
  import opened Scanner
  import opened ColonCounts
  import opened IntervalParser
  import opened ComplexIntervals
  import opened IntervalTexts

  // ---- what was read -------------------------------------------------------------------------------

  lemma LiteralRead(f: Format, s: string, at: nat, got: Scanned) returns (rest: string)
    requires f.Literal? && Scan(f, s, at, got) != got
    ensures s == [f.c] + rest && Scan(f, s, at, got) == Scan(f.next, rest, at + 1, got)
  {
    rest := s[1..];
  }

  function FractionRest(): Format {
    Literal('.', Integer(6, Mark(End)))
  }

  lemma FractionParts(rest: string, at: nat, got: Scanned) returns (fs: string, frac: int, last: string)
    requires Scan(FractionRest(), rest, at, got) != got
    ensures IsField(fs, 6, frac) && rest == "." + (fs + last)
    ensures Scan(FractionRest(), rest, at, got) ==
            Scanned(got.numbers + [frac], got.words, got.marks + [at + 1 + |fs|])
  {
    hide Scan, IsField, Blanks, StopsAt;
    var digits := LiteralRead(FractionRest(), rest, at, got);
    fs, frac, last := FieldRead(Integer(6, Mark(End)), digits, at + 1, got);
    MarkAtEnd(last, at + 1 + |fs|, got.(numbers := got.numbers + [frac]));
  }

  /** After the seconds, when something follows: a point and a field, then nothing. */
  lemma FractionRead(rest: string, at: nat, got: Scanned) returns (fs: string, frac: int)
    requires rest != "" && got.marks == [at]
    requires var sc := Scan(FractionRest(), rest, at, got);
             MarkAt(sc, if |sc.numbers| == |got.numbers| then 0 else 1) == at + |rest|
    ensures IsField(fs, 6, frac) && fs != "" && rest == FractionText(fs)
    ensures Scan(FractionRest(), rest, at, got) == Scanned(got.numbers + [frac], got.words, [at, at + 1 + |fs|])
  {
    hide Scan, IsField, FractionRest;
    assert Scan(FractionRest(), rest, at, got) != got;
    var last;
    fs, frac, last := FractionParts(rest, at, got);
    FieldNotEmpty(fs, 6, frac);
    NoMore(rest, fs, last);
  }

  lemma FieldNotEmpty(t: string, width: nat, n: int)
    requires IsField(t, width, n)
    ensures t != ""
  {
  }

  lemma NoMore(rest: string, fs: string, last: string)
    requires rest == "." + (fs + last)
    ensures |rest| == 1 + |fs| + |last| && (|rest| == 1 + |fs| ==> rest == "." + fs)
  {
  }

  function SecondsRest(): Format {
    Integer(2, Mark(FractionRest()))
  }

  function MinutesRest(): Format {
    Integer(2, Literal(':', SecondsRest()))
  }

  /** The second field and what follows it. */
  lemma SecondsRead(s: string, at: nat, got: Scanned) returns (ss: string, sec: int, rest: string)
    requires Scan(SecondsRest(), s, at, got) != got && got.marks == []
    ensures IsField(ss, 2, sec) && s == ss + rest
    ensures Scan(SecondsRest(), s, at, got) ==
            Scan(FractionRest(), rest, at + |ss|, Scanned(got.numbers + [sec], got.words, [at + |ss|]))
  {
    hide Scan, IsField, Blanks, StopsAt, FractionRest;
    ss, sec, rest := FieldRead(SecondsRest(), s, at, got);
    ScanMark(Mark(FractionRest()), rest, at + |ss|, got.(numbers := got.numbers + [sec]));
    assert [] + [at + |ss|] == [at + |ss|];
  }

  /** The minutes and the colon after them. */
  lemma MinutesRead(s: string, at: nat, got: Scanned) returns (ms: string, m: int, rest: string)
    requires |Scan(MinutesRest(), s, at, got).numbers| >= |got.numbers| + 2
    ensures IsField(ms, 2, m) && s == ms + (":" + rest)
    ensures Scan(MinutesRest(), s, at, got) ==
            Scan(SecondsRest(), rest, at + |ms| + 1, got.(numbers := got.numbers + [m]))
  {
    hide Scan, IsField, Blanks, StopsAt, SecondsRest;
    var colon;
    ms, m, colon := FieldRead(MinutesRest(), s, at, got);
    rest := LiteralRead(Literal(':', SecondsRest()), colon, at + |ms|, got.(numbers := got.numbers + [m]));
  }

  /** A clock read to its end is a tail of minutes, seconds and perhaps a fraction. */
  lemma ClockRead(s: string, at: nat, got: Scanned)
    returns (ms: string, ss: string, fs: string, m: int, sec: int, frac: int)
    requires got.marks == []
    requires var sc := Scan(ClockRest(), s, at, got);
             && |sc.numbers| >= |got.numbers| + 2
             && MarkAt(sc, if |sc.numbers| == |got.numbers| + 2 then 0 else 1) == at + |s|
    ensures IsField(ms, 2, m) && IsField(ss, 2, sec) && FractionField(fs, frac) && s == ClockTail(ms, ss, fs)
  {
    ClockShapes();
    hide Scan, IsField, SecondsRest, MinutesRest, FractionRest, ClockTail, FractionText, ClockRest;
    var s1 := LiteralRead(ClockRest(), s, at, got);
    var s2, rest;
    ms, m, s2 := MinutesRead(s1, at + 1, got);
    var got1 := got.(numbers := got.numbers + [m]);
    ss, sec, rest := SecondsRead(s2, at + 1 + |ms| + 1, got1);
    var e := at + 1 + |ms| + 1 + |ss|;
    TailLength(s, s1, ms, s2, ss, rest);
    if rest == "" {
      fs, frac := "", 0;
    } else {
      fs, frac := FractionRead(rest, e, Scanned(got1.numbers + [sec], got.words, [e]));
    }
    TailJoined(ms, ss, fs);
  }

  lemma ClockShapes()
    ensures ClockRest() == Literal(':', MinutesRest()) && FractionText("") == ""
  {
  }

  lemma TailLength(s: string, s1: string, ms: string, s2: string, ss: string, rest: string)
    requires s == [':'] + s1 && s1 == ms + (":" + s2) && s2 == ss + rest
    ensures |s| == 2 + |ms| + |ss| + |rest| && s == ":" + (ms + (":" + (ss + rest)))
  {
  }

  lemma TailJoined(ms: string, ss: string, fs: string)
    ensures ClockTail(ms, ss, fs) == ":" + (ms + (":" + (ss + FractionText(fs))))
  {
  }

  /** A word was read. */
  lemma WordRead(f: Format, s: string, at: nat, got: Scanned) returns (word: string, rest: string)
    requires f.Word? && f.width > 0 && StopsAt(s, Blank) && Scan(f, s, at, got) != got
    ensures NoBlanks(word) && |word| <= f.width && (|word| == f.width || StopsAt(rest, NonBlank)) && s == word + rest
    ensures Scan(f, s, at, got) == Scan(f.next, rest, at + |word|, got.(words := got.words + [word]))
  {
    RunIs(s, Blank, |s|, 0);
    assert s[0..] == s;
    var k := Run(s, NonBlank, Limit(f.width, s));
    assert forall i :: 0 <= i < k ==> In(s[i], NonBlank);
    word, rest := s[..k], s[k..];
  }

  /** White space before a number makes no difference: %d skips it anyway. */
  lemma SpaceBeforeField(f: Format, s: string, at: nat, got: Scanned)
    requires f.Integer?
    ensures Scan(Space(f), s, at, got) == Scan(f, s, at, got)
  {
    hide *;
    var b := Blanks(s);
    var t := s[b..];
    SpaceStep(f, s, b, t, at, got);
    IntegerStep(f, s, b, t, at, got);
    assert t[0..] == t;
    IntegerStep(f, t, 0, t, at + b, got);
  }

  // ---- the format with days ----------------------------------------------------------------------------

  /** The text before the clock: a count of days, white space and a word. */
  predicate DaysPart(ds: string, d: int, gap: string, word: string, hs: string, h: int) {
    Apart(ds, d, gap, word) && |word| <= 4 && IsField(hs, 2, h) && (|word| == 4 || Blanks(hs) > 0)
  }

  function HoursRest(): Format {
    Integer(2, ClockRest())
  }

  lemma DaysShape()
    ensures DaysFormat() == Integer(0, Space(Word(4, Space(HoursRest())))) && Wordless(ClockRest())
    ensures CountedWord(DaysFormat())
  {
  }

  /** A number, white space and a word: how both complex formats begin. */
  predicate CountedWord(f: Format) {
    f.Integer? && f.width == 0 && f.next.Space? && f.next.next.Word? && f.next.next.width > 0
  }

  lemma CountedWordScanned(f: Format, ds: string, d: int, gap: string, word: string, rest: string,
                           start: nat, at: nat, got: Scanned)
    requires CountedWord(f) && IsField(ds, 0, d) && AllBlank(gap) && NoBlanks(word) && |word| <= f.next.next.width
    requires StopsAt(gap + (word + rest), Digit) && StopsAt(word + rest, Blank)
    requires (|word| == f.next.next.width || StopsAt(rest, NonBlank)) && at == start + |ds| + |gap| + |word|
    ensures Scan(f, ds + (gap + (word + rest)), start, got) ==
            Scan(f.next.next.next, rest, at, Scanned(got.numbers + [d], got.words + [word], got.marks))
  {
    hide Scan, IsField, Blanks, AllBlank, StopsAt, IsBlank;
    ScanField(f, ds, d, gap + (word + rest), start, got);
    var got1 := got.(numbers := got.numbers + [d]);
    ScanBlanks(f.next, gap, word + rest, start + |ds|, got1);
    ScanWord(f.next.next, word, rest, start + |ds| + |gap|, got1);
  }

  /** The conditions under which the count ends before the gap and the word. */
  predicate Apart(ds: string, d: int, gap: string, word: string) {
    IsField(ds, 0, d) && AllBlank(gap) && NoBlanks(word) && (gap != "" || !IsDigit(word[0]))
  }

  lemma CountedWordRead(f: Format, s: string, start: nat, got: Scanned)
    returns (ds: string, d: int, gap: string, word: string, rest: string, at: nat)
    requires CountedWord(f) && Scan(f, s, start, got).Matched() >= got.Matched() + 2
    ensures Apart(ds, d, gap, word) && |word| <= f.next.next.width
    ensures (|word| == f.next.next.width || StopsAt(rest, NonBlank)) && at == start + |ds| + |gap| + |word|
    ensures s == ds + (gap + (word + rest)) && |s| == |ds| + |gap| + |word| + |rest|
    ensures Scan(f, s, start, got) ==
            Scan(f.next.next.next, rest, at, Scanned(got.numbers + [d], got.words + [word], got.marks))
  {
    hide Scan, IsField, Blanks, AllBlank, NoBlanks, StopsAt, Apart, IsDigit;
    var r1, r2;
    ds, d, r1 := FieldRead(f, s, start, got);
    var got1 := got.(numbers := got.numbers + [d]);
    gap, r2 := BlanksRead(f.next.next, r1, start + |ds|, got1);
    word, rest := WordRead(f.next.next, r2, start + |ds| + |gap|, got1);
    at := start + |ds| + |gap| + |word|;
    ReadApart(ds, d, r1, gap, word, r2, rest);
  }

  lemma ReadApart(ds: string, d: int, r1: string, gap: string, word: string, r2: string, rest: string)
    requires IsField(ds, 0, d) && (|ds| - Blanks(ds) == 0 || StopsAt(r1, Digit)) && AllBlank(gap)
    requires r1 == gap + r2 && NoBlanks(word) && r2 == word + rest
    ensures Apart(ds, d, gap, word)
  {
    NumeralStart(ds[Blanks(ds)..], d, "");
    assert gap == "" ==> r1[0] == word[0];
  }

  lemma ApartStops(ds: string, d: int, gap: string, word: string, rest: string)
    requires Apart(ds, d, gap, word)
    ensures IsField(ds, 0, d) && AllBlank(gap) && NoBlanks(word)
    ensures StopsAt(gap + (word + rest), Digit) && StopsAt(word + rest, Blank)
  {
    assert (word + rest)[0] == word[0];
    assert gap != "" ==> (gap + (word + rest))[0] == gap[0];
  }

  lemma HoursScanned(hs: string, h: int, tail: string, d: int, word: string, at: nat)
    requires IsField(hs, 2, h) && StopsAt(tail, Digit)
    ensures Scan(Space(HoursRest()), hs + tail, at, Scanned([d], [word], [])) ==
            Scan(ClockRest(), tail, at + |hs|, Scanned([d, h], [word], []))
  {
    hide Scan, IsField, Blanks, StopsAt, ClockRest;
    SpaceBeforeField(HoursRest(), hs + tail, at, Scanned([d], [word], []));
    ScanField(HoursRest(), hs, h, tail, at, Scanned([d], [word], []));
    assert [d] + [h] == [d, h];
  }

  /** What the text before the clock does to the scan. */
  lemma DaysScanned(ds: string, d: int, gap: string, word: string, hs: string, h: int, tail: string, at: nat)
    requires DaysPart(ds, d, gap, word, hs, h) && StopsAt(tail, Digit) && at == |ds| + |gap| + |word|
    ensures Scan(DaysFormat(), ds + (gap + (word + (hs + tail))), 0, Nothing()) ==
            Scan(ClockRest(), tail, at + |hs|, Scanned([d, h], [word], []))
  {
    hide *;
    DaysShape();
    PartOfDays(ds, d, gap, word, hs, h, tail);
    ApartStops(ds, d, gap, word, hs + tail);
    CountedWordScanned(DaysFormat(), ds, d, gap, word, hs + tail, 0, at, Nothing());
    FirstNumberWord(d, word);
    HoursScanned(hs, h, tail, d, word, at);
  }

  lemma FirstNumberWord(n: int, word: string)
    ensures Scanned(Nothing().numbers + [n], Nothing().words + [word], Nothing().marks) == Scanned([n], [word], [])
  {
  }

  lemma DaysRead(body: string)
    returns (ds: string, d: int, gap: string, word: string, hs: string, h: int, tail: string, at: nat)
    requires Scan(DaysFormat(), body, 0, Nothing()).Matched() >= 5
    ensures DaysPart(ds, d, gap, word, hs, h) && at == |ds| + |gap| + |word|
    ensures body == ds + (gap + (word + (hs + tail))) && |body| == at + |hs| + |tail|
    ensures Scan(DaysFormat(), body, 0, Nothing()) ==
            Scan(ClockRest(), tail, at + |hs|, Scanned([d, h], [word], []))
  {
    hide Scan, IsField, Blanks, StopsAt, ClockRest, Apart, DaysPart;
    DaysShape();
    var rest;
    ds, d, gap, word, rest, at := CountedWordRead(DaysFormat(), body, 0, Nothing());
    var got := Scanned([d], [word], []);
    FirstNumberWord(d, word);
    SpaceBeforeField(HoursRest(), rest, at, got);
    hs, h, tail := FieldRead(HoursRest(), rest, at, got);
    assert [d] + [h] == [d, h];
    if |word| != 4 {
      BlanksStart(hs, 2, h, rest, tail);
    }
    DaysParts(ds, d, gap, word, hs, h);
  }

  lemma DaysParts(ds: string, d: int, gap: string, word: string, hs: string, h: int)
    requires Apart(ds, d, gap, word) && |word| <= 4 && IsField(hs, 2, h) && (|word| == 4 || Blanks(hs) > 0)
    ensures DaysPart(ds, d, gap, word, hs, h)
  {
  }

  lemma BlanksRead(f: Format, s: string, at: nat, got: Scanned) returns (gap: string, rest: string)
    ensures AllBlank(gap) && StopsAt(rest, Blank) && s == gap + rest
    ensures Scan(Space(f), s, at, got) == Scan(f, rest, at + |gap|, got)
  {
    gap, rest := s[..Blanks(s)], s[Blanks(s)..];
    BlanksRun(s);
    SpaceStep(f, s, Blanks(s), rest, at, got);
  }

  /** A number after a word that blanks have ended begins with blanks. */
  lemma BlanksStart(t: string, width: nat, n: int, rest: string, tail: string)
    requires rest == t + tail && StopsAt(rest, NonBlank) && IsField(t, width, n)
    ensures Blanks(t) > 0
  {
    FieldNotEmpty(t, width, n);
    assert rest[0] == t[0] && IsBlank(t[0]);
    RunStarts(t);
  }

  lemma RunStarts(s: string)
    requires s != "" && IsBlank(s[0])
    ensures Blanks(s) > 0
  {
  }
  lemma PartOfDays(ds: string, d: int, gap: string, word: string, hs: string, h: int, tail: string)
    requires DaysPart(ds, d, gap, word, hs, h)
    ensures Apart(ds, d, gap, word) && IsField(ds, 0, d) && |word| <= 4 && IsField(hs, 2, h)
    ensures |word| == 4 || StopsAt(hs + tail, NonBlank)
  {
    BlanksRun(hs);
    assert Blanks(hs) > 0 ==> (hs + tail)[0] == hs[0] == hs[..Blanks(hs)][0];
  }

  // ---- the fields ------------------------------------------------------------------------------------

  /** The parts of a text and the numbers they hold; without days the first three are empty. */
  datatype Parts = Parts(ds: string, d: int, gap: string, word: string, hs: string, h: int,
                         ms: string, m: int, ss: string, sec: int, fs: string, frac: int)
  {
    function Body(): string {
      if ds == "" then ClockText(hs, ms, ss, fs) else ds + (gap + (word + ClockText(hs, ms, ss, fs)))
    }

    predicate Fits() {
      && IsField(ms, 2, m) && IsField(ss, 2, sec) && FractionField(fs, frac)
      && if ds == "" then d == 0 && gap == "" && word == "" && IsField(hs, 0, h)
         else DaysPart(ds, d, gap, word, hs, h) && Lowered(word) in ["day", "days"] && h <= 23
    }

    function Read(): Fields {
      Fields(d, h, m, sec, frac, Places(fs))
    }
  }

  lemma DaysRecognised(u: string)
    ensures IsDaysWord(u) <==> u in ["day", "days"]
  {
  }

  lemma WithDaysRead(body: string) returns (p: Parts)
    requires var sc := Scan(DaysFormat(), body, 0, Nothing());
             5 <= sc.Matched() <= 6 && FieldsWithDays(body, sc).Some?
    ensures p.Fits() && body == p.Body() && FieldsOf(body) == Some(p.Read())
  {
    hide Scan, IsField, DaysPart, ClockTail, ClockRest, DaysFormat, Lowered;
    var sc := Scan(DaysFormat(), body, 0, Nothing());
    var ds, d, gap, word, hs, h, tail, at := DaysRead(body);
    DaysRecognised(Lowered(word));
    DaysShape();
    NoWords(ClockRest(), tail, at + |hs|, Scanned([d, h], [word], []));
    var ms, ss, fs, m, sec, frac := ClockRead(tail, at + |hs|, Scanned([d, h], [word], []));
    ScanClock(ms, ss, fs, m, sec, frac, at + |hs|, Scanned([d, h], [word], []));
    p := Parts(ds, d, gap, word, hs, h, ms, m, ss, sec, fs, frac);
    PartOfDays(ds, d, gap, word, hs, h, tail);
    FieldNotEmpty(ds, 0, d);
  }

  lemma WithoutDaysRead(body: string) returns (p: Parts)
    requires FieldsWithoutDays(body, Scan(ClockFormat(), body, 0, Nothing())).Some? && body != ""
    ensures p.Fits() && body == p.Body()
    ensures FieldsWithoutDays(body, Scan(ClockFormat(), body, 0, Nothing())) == Some(p.Read())
  {
    hide Scan, IsField, ClockTail, ClockRest, StopsAt;
    var sc := Scan(ClockFormat(), body, 0, Nothing());
    var hs, h, tail := FieldRead(ClockFormat(), body, 0, Nothing());
    assert [] + [h] == [h];
    DaysShape();
    NoWords(ClockRest(), tail, |hs|, Scanned([h], [], []));
    var ms, ss, fs, m, sec, frac := ClockRead(tail, |hs|, Scanned([h], [], []));
    ScanClock(ms, ss, fs, m, sec, frac, |hs|, Scanned([h], [], []));
    p := Parts("", 0, "", "", hs, h, ms, m, ss, sec, fs, frac);
  }

  // ---- a clock is not read as days -------------------------------------------------------------------

  lemma FieldHasNoColons(t: string, width: nat, n: int)
    requires IsField(t, width, n)
    ensures NoColons(t)
  {
    BlanksRun(t);
    var b := Blanks(t);
    forall i | 0 <= i < |t|
      ensures t[i] != ':'
    {
      if i < b {
        assert t[..b][i] == t[i];
      } else if i > b {
        assert t[b..][1..][i - b - 1] == t[i];
      } else {
        assert t[b..][0] == t[i];
      }
    }
  }

  lemma ColonsOfTail(ms: string, m: int, ss: string, sec: int, fs: string, frac: int)
    requires IsField(ms, 2, m) && IsField(ss, 2, sec) && FractionField(fs, frac)
    ensures Colons(ClockTail(ms, ss, fs)) == 2
  {
    FieldHasNoColons(ms, 2, m);
    FieldHasNoColons(ss, 2, sec);
    if fs != "" {
      FieldHasNoColons(fs, 6, frac);
    }
    hide IsField;
    var fraction := FractionText(fs);
    assert NoColons(fraction);
    NoColonsCounted(ms);
    NoColonsCounted(ss);
    NoColonsCounted(fraction);
    ColonsJoined(ss, fraction);
    ColonAhead(ss + fraction);
    ColonsJoined(ms, ":" + (ss + fraction));
    ColonAhead(ms + (":" + (ss + fraction)));
  }

  lemma ColonAhead(s: string)
    ensures Colons(":" + s) == 1 + Colons(s)
  {
    assert (":" + s)[1..] == s;
  }

  lemma ColonsInRest(s: string, k: nat)
    requires k <= |s|
    ensures Colons(s[k..]) <= Colons(s)
    ensures k > 0 && s[0] == ':' ==> Colons(s[k..]) < Colons(s)
  {
    assert s == s[..k] + s[k..];
    ColonsJoined(s[..k], s[k..]);
    if k > 0 {
      assert s[..k][0] == s[0];
    }
  }

  /** A clock needs two colons. */
  lemma OneColonLeft(rest: string, at: nat, got: Scanned)
    requires Colons(rest) <= 1
    ensures |Scan(Space(HoursRest()), rest, at, got).numbers| <= |got.numbers| + 2
  {
    hide Scan, Colons, ClockRest, IsField, Blanks, StopsAt;
    SpaceBeforeField(HoursRest(), rest, at, got);
    if Scan(HoursRest(), rest, at, got) != got {
      var hs, h, tail := FieldRead(HoursRest(), rest, at, got);
      ColonsJoined(hs, tail);
      OneColonInClock(tail, at + |hs|, got.(numbers := got.numbers + [h]));
    }
  }

  lemma OneColonInClock(tail: string, at: nat, got: Scanned)
    requires Colons(tail) <= 1
    ensures |Scan(ClockRest(), tail, at, got).numbers| <= |got.numbers| + 1
  {
    hide Scan, Colons, IsField, Blanks, StopsAt, SecondsRest, FractionRest;
    ClockShapes();
    if |Scan(ClockRest(), tail, at, got).numbers| >= |got.numbers| + 2 {
      var rest := LiteralRead(ClockRest(), tail, at, got);
      var ms, m, rear := MinutesRead(rest, at + 1, got);
      ColonAhead(rest);
      ColonsJoined(ms, ":" + rear);
      ColonAhead(rear);
    }
  }

  lemma NotReadAsDays(hs: string, h: int, tail: string)
    requires IsField(hs, 0, h) && tail != "" && tail[0] == ':' && Colons(tail) == 2
    ensures Scan(DaysFormat(), hs + tail, 0, Nothing()).Matched() <= 4
  {
    hide Scan, Colons, ClockRest, IsField, Blanks, StopsAt, AllBlank, Wordless, DaysFormat, HoursRest;
    DaysShape();
    ColonStops(tail);
    ScanField(DaysFormat(), hs, h, tail, 0, Nothing());
    var got := Scanned([] + [h], [], []);
    ScanBlanks(Space(Word(4, Space(HoursRest()))), "", tail, |hs|, got);
    NoDaysWord(tail, |hs|, got);
  }

  lemma ColonStops(tail: string)
    requires tail != "" && tail[0] == ':'
    ensures StopsAt(tail, Digit) && StopsAt(tail, Blank) && AllBlank("") && "" + tail == tail
  {
  }

  lemma NoDaysWord(tail: string, at: nat, got: Scanned)
    requires tail != "" && tail[0] == ':' && Colons(tail) == 2 && StopsAt(tail, Blank) && got.Matched() == 1
    ensures Scan(Word(4, Space(HoursRest())), tail, at, got).Matched() <= 4
  {
    hide Scan, Colons, IsField, Blanks, StopsAt, AllBlank, Wordless, HoursRest;
    var f := Word(4, Space(HoursRest()));
    if Scan(f, tail, at, got) != got {
      var word, rest := WordRead(f, tail, at, got);
      assert tail[|word|..] == rest;
      ColonsInRest(tail, |word|);
      OneColonLeft(rest, at + |word|, got.(words := got.words + [word]));
      HoursShape();
      NoWords(Space(HoursRest()), rest, at + |word|, got.(words := got.words + [word]));
    }
  }

  lemma HoursShape()
    ensures Wordless(Space(HoursRest()))
  {
  }

  // ---- exactly these texts ---------------------------------------------------------------------------

  lemma ClockTailStarts(ms: string, ss: string, fs: string)
    ensures var tail := ClockTail(ms, ss, fs);
            && tail != "" && tail[0] == ':' && StopsAt(tail, Digit)
            && |tail| == 2 + |ms| + |ss| + if fs == "" then 0 else 1 + |fs|
  {
  }

  lemma ClockScannedIs(e: nat, fs: string, m: int, sec: int, frac: int, numbers: seq<int>, words: seq<string>)
    ensures ClockScanned(e, fs, m, sec, frac, Scanned(numbers, words, [])) ==
            if fs == "" then Scanned(numbers + [m] + [sec], words, [e])
            else Scanned(numbers + [m] + [sec] + [frac], words, [e, e + 1 + |fs|])
  {
    assert [] + [e] == [e] && [e] + [e + 1 + |fs|] == [e, e + 1 + |fs|];
  }

  /** What follows from how far the scan got. */
  lemma DaysAtEnd(body: string, p: Parts, e: nat)
    requires |body| == e + (if p.fs == "" then 0 else 1 + |p.fs|) && (p.fs == "" ==> p.frac == 0)
    requires Scan(DaysFormat(), body, 0, Nothing()) ==
             ClockScanned(e, p.fs, p.m, p.sec, p.frac, Scanned([p.d, p.h], [p.word], []))
    requires Lowered(p.word) in ["day", "days"] && p.h <= 23
    ensures FieldsOf(body) == Some(p.Read())
  {
    hide Scan, ClockFormat, DaysFormat, Lowered, FieldsWithoutDays, ClockScanned;
    ClockScannedIs(e, p.fs, p.m, p.sec, p.frac, [p.d, p.h], [p.word]);
  }

  lemma ClockAtEnd(body: string, p: Parts, e: nat)
    requires |body| == e + (if p.fs == "" then 0 else 1 + |p.fs|) && (p.fs == "" ==> p.frac == 0)
    requires Scan(DaysFormat(), body, 0, Nothing()).Matched() <= 4 && p.d == 0
    requires Scan(ClockFormat(), body, 0, Nothing()) ==
             ClockScanned(e, p.fs, p.m, p.sec, p.frac, Scanned([p.h], [], []))
    ensures FieldsOf(body) == Some(p.Read())
  {
    hide Scan, ClockFormat, DaysFormat, FieldsWithDays, ClockScanned;
    ClockScannedIs(e, p.fs, p.m, p.sec, p.frac, [p.h], []);
  }

  lemma WithDaysYields(p: Parts, at: nat)
    requires p.Fits() && p.ds != "" && at == |p.ds| + |p.gap| + |p.word|
    ensures FieldsOf(p.Body()) == Some(p.Read())
  {
    hide Scan, IsField, DaysPart, ClockTail, ClockRest, DaysFormat, ClockFormat, Lowered, FieldsOf,
      ClockScanned, StopsAt;
    var tail := ClockTail(p.ms, p.ss, p.fs);
    ClockTailStarts(p.ms, p.ss, p.fs);
    DaysScanned(p.ds, p.d, p.gap, p.word, p.hs, p.h, tail, at);
    ScanClock(p.ms, p.ss, p.fs, p.m, p.sec, p.frac, at + |p.hs|, Scanned([p.d, p.h], [p.word], []));
    DaysAtEnd(p.Body(), p, at + |p.hs| + 2 + |p.ms| + |p.ss|);
  }

  lemma WithoutDaysYields(p: Parts)
    requires p.Fits() && p.ds == ""
    ensures FieldsOf(p.Body()) == Some(p.Read())
  {
    hide Scan, IsField, ClockTail, ClockRest, DaysFormat, Colons, StopsAt, FieldsOf, ClockScanned, Lowered;
    var tail := ClockTail(p.ms, p.ss, p.fs);
    ClockTailStarts(p.ms, p.ss, p.fs);
    ColonsOfTail(p.ms, p.m, p.ss, p.sec, p.fs, p.frac);
    NotReadAsDays(p.hs, p.h, tail);
    ScanField(ClockFormat(), p.hs, p.h, tail, 0, Nothing());
    assert [] + [p.h] == [p.h];
    ScanClock(p.ms, p.ss, p.fs, p.m, p.sec, p.frac, |p.hs|, Scanned([p.h], [], []));
    ClockAtEnd(p.Body(), p, |p.hs| + 2 + |p.ms| + |p.ss|);
  }

  lemma FieldsRead(body: string) returns (p: Parts)
    requires FieldsOf(body).Some?
    ensures p.Fits() && body == p.Body() && FieldsOf(body) == Some(p.Read())
  {
    EmptyHasNoFields();
    hide Scan, DaysFormat, ClockFormat, FieldsWithDays, FieldsWithoutDays;
    var sc := Scan(DaysFormat(), body, 0, Nothing());
    if 5 <= sc.Matched() <= 6 {
      p := WithDaysRead(body);
    } else {
      p := WithoutDaysRead(body);
    }
  }

  lemma EmptyHasNoFields()
    ensures FieldsOf("") == None
  {
  }

  lemma StartIs(s: string)
    ensures StartOffset(s) == if s != "" && s[0] == '-' then 1 else 0
  {
    RunIs(s, Hyphen, Limit(1, s), if s != "" && s[0] == '-' then 1 else 0);
    if s != "" && s[0] == '-' {
      MarkAtEnd(s[1..], 1, Nothing());
    }
  }

  /** The text is a sign, if negative, and parts in range; without a sign no number begins with one. */
  predicate Takes(s: string, negative: bool, p: Parts) {
    && p.Fits()
    && 0 <= p.d && 0 <= p.h && 0 <= p.m <= 59 && 0 <= p.sec <= 59 && 0 <= p.frac
    && if negative then s == "-" + p.Body() else s == p.Body() && s != "" && s[0] != '-'
  }

  function Worth(negative: bool, p: Parts): int {
    var ticks := 1000000 * (86400 * p.d + 3600 * p.h + 60 * p.m + p.sec) + p.frac * Tens(Places(p.fs));
    if negative then -ticks else ticks
  }

  lemma PartsWorth(p: Parts)
    ensures TicksOf(p.Read()) ==
            if 0 <= p.d && 0 <= p.h && 0 <= p.m <= 59 && 0 <= p.sec <= 59 && 0 <= p.frac
            then Some(Worth(false, p))
            else None
  {
    ScaledByTens(p.frac, Places(p.fs));
    hide Scaled, Tens, Places;
  }

  lemma FieldsYielded(p: Parts)
    requires p.Fits()
    ensures FieldsOf(p.Body()) == Some(p.Read())
  {
    if p.ds == "" {
      WithoutDaysYields(p);
    } else {
      WithDaysYields(p, |p.ds| + |p.gap| + |p.word|);
    }
  }

  lemma Taken(s: string, negative: bool, p: Parts)
    requires Takes(s, negative, p)
    ensures ComplexDatetime(s) == Some(Worth(negative, p))
  {
    hide FieldsOf, TicksOf, StartOffset, Tens, ClockText, DaysPart, IsField, FractionField, Lowered;
    StartIs(s);
    SignTaken(s, negative, p);
    PartsWorth(p);
    FieldsYielded(p);
  }

  lemma SignTaken(s: string, negative: bool, p: Parts)
    requires Takes(s, negative, p)
    ensures negative <==> s != "" && s[0] == '-'
    ensures s[if negative then 1 else 0..] == p.Body()
  {
    hide ClockText;
  }

  /** The complex format takes exactly these texts, and they are worth what their parts say. */
  lemma ComplexDatetimeExactly(s: string, v: int)
    ensures ComplexDatetime(s) == Some(v) <==> exists negative, p :: Takes(s, negative, p) && v == Worth(negative, p)
  {
    hide Takes, Worth, ComplexDatetime;
    if ComplexDatetime(s) == Some(v) {
      var negative, p := ComplexRead(s, v);
    }
    forall negative, p | Takes(s, negative, p)
      ensures ComplexDatetime(s) == Some(Worth(negative, p))
    {
      Taken(s, negative, p);
    }
  }

  lemma ComplexRead(s: string, v: int) returns (negative: bool, p: Parts)
    requires ComplexDatetime(s) == Some(v)
    ensures Takes(s, negative, p) && v == Worth(negative, p)
  {
    StartIs(s);
    negative := s != "" && s[0] == '-';
    hide FieldsOf, TicksOf, StartOffset, Tens, ClockText;
    var body := s[if negative then 1 else 0..];
    EmptyHasNoFields();
    p := FieldsRead(body);
    PartsWorth(p);
    BodyOfText(s, negative, body);
  }

  lemma BodyOfText(s: string, negative: bool, body: string)
    requires negative == (s != "" && s[0] == '-') && body == s[if negative then 1 else 0..]
    ensures s == if negative then "-" + body else body
  {
  }

  // ---- years and months --------------------------------------------------------------------------------

  /** The parts of a text of years and months, and the numbers they hold. */
  datatype YearsParts = YearsParts(ys: string, y: int, gap: string, yearsWord: string,
                                   ms: string, m: int, monthsGap: string, monthsWord: string)
  {
    function Body(): string {
      ys + (gap + (yearsWord + (ms + (monthsGap + monthsWord))))
    }

    predicate Fits() {
      && Apart(ys, y, gap, yearsWord) && |yearsWord| <= 5 && (|yearsWord| == 5 || Blanks(ms) > 0)
      && Apart(ms, m, monthsGap, monthsWord) && |monthsWord| <= 6
    }
  }

  function MonthsRest(): Format {
    Integer(0, Space(Word(6, Mark(End))))
  }

  lemma YearsShape()
    ensures YearsFormat() == Integer(0, Space(Word(5, Space(MonthsRest()))))
    ensures CountedWord(YearsFormat()) && CountedWord(MonthsRest())
  {
  }

  lemma YearsRead(body: string) returns (p: YearsParts, end: string, e: nat)
    requires Scan(YearsFormat(), body, 0, Nothing()).Matched() >= 4
    ensures p.Fits() && |body| == e + |end| && (end == "" ==> body == p.Body())
    ensures Scan(YearsFormat(), body, 0, Nothing()) == Scanned([p.y, p.m], [p.yearsWord, p.monthsWord], [e])
  {
    hide Scan, IsField, Blanks, StopsAt, Apart, AllBlank, NoBlanks, IsDigit;
    YearsShape();
    var ys, y, gap, yearsWord, rest, at := CountedWordRead(YearsFormat(), body, 0, Nothing());
    FirstNumberWord(y, yearsWord);
    var got := Scanned([y], [yearsWord], []);
    SpaceBeforeField(MonthsRest(), rest, at, got);
    var ms, m, monthsGap, monthsWord;
    ms, m, monthsGap, monthsWord, end, e := CountedWordRead(MonthsRest(), rest, at, got);
    assert [y] + [m] == [y, m] && [yearsWord] + [monthsWord] == [yearsWord, monthsWord];
    MarkAtEnd(end, e, Scanned([y, m], [yearsWord, monthsWord], []));
    if |yearsWord| != 5 {
      ApartField(ms, m, monthsGap, monthsWord);
      BlanksStart(ms, 0, m, rest, monthsGap + (monthsWord + end));
    }
    p := YearsParts(ys, y, gap, yearsWord, ms, m, monthsGap, monthsWord);
    assert end == "" ==> monthsWord + end == monthsWord;
  }

  lemma ApartField(ds: string, d: int, gap: string, word: string)
    requires Apart(ds, d, gap, word)
    ensures IsField(ds, 0, d)
  {
  }

  lemma MonthsStart(p: YearsParts)
    requires p.Fits()
    ensures |p.yearsWord| == 5 || StopsAt(p.ms + (p.monthsGap + p.monthsWord), NonBlank)
    ensures StopsAt("", NonBlank)
  {
    BlanksRun(p.ms);
    var rest := p.ms + (p.monthsGap + p.monthsWord);
    assert Blanks(p.ms) > 0 ==> rest[0] == p.ms[..Blanks(p.ms)][0];
  }

  lemma YearsScanned(p: YearsParts, at: nat, e: nat)
    requires p.Fits() && at == |p.ys| + |p.gap| + |p.yearsWord|
    requires e == at + |p.ms| + |p.monthsGap| + |p.monthsWord|
    ensures Scan(YearsFormat(), p.Body(), 0, Nothing()) == Scanned([p.y, p.m], [p.yearsWord, p.monthsWord], [e])
  {
    var rest := p.ms + (p.monthsGap + p.monthsWord);
    hide Scan, IsField, Blanks, StopsAt, Apart, AllBlank, NoBlanks, IsDigit, IsBlank;
    YearsShape();
    MonthsStart(p);
    ApartStops(p.ys, p.y, p.gap, p.yearsWord, rest);
    CountedWordScanned(YearsFormat(), p.ys, p.y, p.gap, p.yearsWord, rest, 0, at, Nothing());
    FirstNumberWord(p.y, p.yearsWord);
    var got := Scanned([p.y], [p.yearsWord], []);
    SpaceBeforeField(MonthsRest(), rest, at, got);
    assert p.monthsWord + "" == p.monthsWord;
    ApartStops(p.ms, p.m, p.monthsGap, p.monthsWord, "");
    CountedWordScanned(MonthsRest(), p.ms, p.m, p.monthsGap, p.monthsWord, "", at, e, got);
    assert [p.y] + [p.m] == [p.y, p.m] && [p.yearsWord] + [p.monthsWord] == [p.yearsWord, p.monthsWord];
    MarkAtEnd("", e, Scanned([p.y, p.m], [p.yearsWord, p.monthsWord], []));
  }

  predicate TakesYears(s: string, negative: bool, p: YearsParts) {
    && p.Fits() && 0 <= p.y && 0 <= p.m <= 11
    && Lowered(p.yearsWord) in ["year", "years", "y"]
    && Lowered(p.monthsWord) in ["month", "months", "mon", "mons"]
    && if negative then s == "-" + p.Body() else s == p.Body() && s != "" && s[0] != '-'
  }

  function MonthsWorth(negative: bool, p: YearsParts): int {
    if negative then -(12 * p.y + p.m) else 12 * p.y + p.m
  }

  lemma YearsRecognised(u: string, v: string)
    ensures IsYearsWord(u) <==> u in ["year", "years", "y"]
    ensures IsMonthsWord(v) <==> v in ["month", "months", "mon", "mons"]
  {
  }

  lemma YearsTaken(s: string, negative: bool, p: YearsParts)
    requires TakesYears(s, negative, p)
    ensures ComplexYearMonth(s) == Some(MonthsWorth(negative, p))
  {
    hide Scan, YearsFormat, StartOffset, Lowered, IsYearsWord, IsMonthsWord, Apart, Blanks;
    YearsRecognised(Lowered(p.yearsWord), Lowered(p.monthsWord));
    StartIs(s);
    var at := |p.ys| + |p.gap| + |p.yearsWord|;
    YearsScanned(p, at, at + |p.ms| + |p.monthsGap| + |p.monthsWord|);
    assert s[if negative then 1 else 0..] == p.Body();
  }

  lemma YearMonthRead(s: string, v: int) returns (negative: bool, p: YearsParts)
    requires ComplexYearMonth(s) == Some(v)
    ensures TakesYears(s, negative, p) && v == MonthsWorth(negative, p)
  {
    hide Scan, YearsFormat, StartOffset, Lowered, IsYearsWord, IsMonthsWord, Apart, Blanks;
    StartIs(s);
    negative := s != "" && s[0] == '-';
    var body := s[if negative then 1 else 0..];
    var end, e;
    p, end, e := YearsRead(body);
    YearsRecognised(Lowered(p.yearsWord), Lowered(p.monthsWord));
    BodyOfText(s, negative, body);
  }

  /** So it is for years and months. */
  lemma ComplexYearMonthExactly(s: string, v: int)
    ensures ComplexYearMonth(s) == Some(v) <==>
            exists negative, p :: TakesYears(s, negative, p) && v == MonthsWorth(negative, p)
  {
    hide TakesYears, MonthsWorth, ComplexYearMonth;
    if ComplexYearMonth(s) == Some(v) {
      var negative, p := YearMonthRead(s, v);
    }
    forall negative, p | TakesYears(s, negative, p)
      ensures ComplexYearMonth(s) == Some(MonthsWorth(negative, p))
    {
      YearsTaken(s, negative, p);
    }
  }
}
