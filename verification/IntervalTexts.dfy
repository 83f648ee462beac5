/** Well-formed interval texts, with any digits in their fields, and what the parsers make of them. */
module IntervalTexts {
  import opened Options
  import opened Decimal
  import opened Scanner
  import opened ColonCounts
  import opened IntervalParser
  import opened ComplexIntervals

  /** s is a numeral of one or two digits for n. */
  predicate ShortFor(s: string, n: int) {
    Denotes(s, n) && |s| <= 2
  }

  /** Up to six digits, possibly none, that read as n. */
  predicate FractionFor(s: string, n: int) {
    AllDigits(s) && |s| <= 6 && ValueOf(s) == n
  }

  /** What the clock formats take for the fraction, or nothing. */
  predicate FractionField(fs: string, frac: int) {
    if fs == "" then frac == 0 else IsField(fs, 6, frac)
  }

  lemma DigitsAreFields(s: string, width: nat, n: int)
    requires Denotes(s, n) && (width == 0 || |s| <= width)
    ensures IsField(s, width, n) && Blanks(s) == 0 && s != ""
  {
    RunIs(s, Blank, |s|, 0);
    assert s[0..] == s;
  }

  lemma FractionsAreFields(fs: string, frac: int)
    requires FractionFor(fs, frac)
    ensures FractionField(fs, frac)
  {
    if fs != "" {
      DigitsAreFields(fs, 6, frac);
    }
  }

  lemma ShortsAreFields(ms: string, ss: string, fs: string, m: int, sec: int, frac: int)
    requires ShortFor(ms, m) && ShortFor(ss, sec) && FractionFor(fs, frac)
    ensures IsField(ms, 2, m) && IsField(ss, 2, sec) && FractionField(fs, frac)
  {
    DigitsAreFields(ms, 2, m);
    DigitsAreFields(ss, 2, sec);
    FractionsAreFields(fs, frac);
  }

  predicate NoBlanks(s: string) {
    s != "" && forall i :: 0 <= i < |s| ==> !IsBlank(s[i])
  }

  function WithSign(negative: bool, body: string): string {
    if negative then "-" + body else body
  }

  function FractionText(fs: string): string {
    if fs == "" then "" else "." + fs
  }

  function ClockTail(ms: string, ss: string, fs: string): string {
    ":" + (ms + (":" + (ss + FractionText(fs))))
  }

  /** hours:minutes:seconds, with a fraction unless fs is empty. */
  function ClockText(hs: string, ms: string, ss: string, fs: string): string {
    hs + ClockTail(ms, ss, fs)
  }

  function DaysText(ds: string, word: string, clock: string): string {
    ds + (" " + (word + (" " + clock)))
  }

  function YearsText(ys: string, yearsWord: string, ms: string, monthsWord: string): string {
    ys + (" " + (yearsWord + (" " + (ms + (" " + monthsWord)))))
  }

  function Signed(negative: bool, magnitude: int): int {
    if negative then -magnitude else magnitude
  }

  function Places(fs: string): int {
    if fs == "" then 6 else |fs|
  }

  lemma FirstDigit(s: string, n: int)
    requires Denotes(s, n)
    ensures s != "" && !IsBlank(s[0]) && s[0] != '-' && s[0] != '\'' && n >= 0
  {
  }

  // ---- scanning a clock ---------------------------------------------------------------------------

  function ClockScanned(end: nat, fs: string, m: int, sec: int, frac: int, got: Scanned): Scanned {
    var numbers := got.numbers + [m] + [sec];
    if fs == "" then Scanned(numbers, got.words, got.marks + [end])
    else Scanned(numbers + [frac], got.words, got.marks + [end] + [end + 1 + |fs|])
  }

  lemma ScanFraction(fs: string, frac: int, at: nat, got: Scanned)
    requires FractionField(fs, frac)
    ensures Scan(Mark(Literal('.', Integer(6, Mark(End)))), FractionText(fs), at, got) ==
            if fs == "" then got.(marks := got.marks + [at])
            else Scanned(got.numbers + [frac], got.words, got.marks + [at] + [at + 1 + |fs|])
  {
    hide Scan, Numeral, Blanks;
    var f0 := Mark(Literal('.', Integer(6, Mark(End))));
    ScanMark(f0, FractionText(fs), at, got);
    var got1 := got.(marks := got.marks + [at]);
    var f := f0.next;
    if fs == "" {
      ScanFails(f, "", at, got1);
    } else {
      ScanLiteral(f, fs, at, got1);
      assert fs + "" == fs;
      ScanField(f.next, fs, frac, "", at + 1, got1);
      var got2 := got1.(numbers := got1.numbers + [frac]);
      ScanMark(f.next.next, "", at + 1 + |fs|, got2);
      ScanEnd("", at + 1 + |fs|, got2.(marks := got2.marks + [at + 1 + |fs|]));
    }
  }

  lemma ScanClock(ms: string, ss: string, fs: string, m: int, sec: int, frac: int, at: nat, got: Scanned)
    requires IsField(ms, 2, m) && IsField(ss, 2, sec) && FractionField(fs, frac)
    ensures Scan(ClockRest(), ClockTail(ms, ss, fs), at, got) ==
            ClockScanned(at + 2 + |ms| + |ss|, fs, m, sec, frac, got)
  {
    hide Scan, IsField;
    var f := ClockRest();
    var afterMinutes := ":" + (ss + FractionText(fs));
    ScanLiteral(f, ms + afterMinutes, at, got);
    ScanField(f.next, ms, m, afterMinutes, at + 1, got);
    var got1 := got.(numbers := got.numbers + [m]);
    ScanLiteral(f.next.next, ss + FractionText(fs), at + 1 + |ms|, got1);
    ScanField(f.next.next.next, ss, sec, FractionText(fs), at + 2 + |ms|, got1);
    ScanFraction(fs, frac, at + 2 + |ms| + |ss|, got1.(numbers := got1.numbers + [sec]));
  }

  /** A number, a blank, a word: how both complex formats begin. */
  lemma ScanNumberWord(f: Format, ds: string, n: int, word: string, rest: string, at: nat, got: Scanned)
    requires f.Integer? && f.width == 0 && f.next.Space? && f.next.next.Word?
    requires Denotes(ds, n) && NoBlanks(word) && |word| <= f.next.next.width
    requires |word| == f.next.next.width || StopsAt(rest, NonBlank)
    ensures Scan(f, ds + (" " + (word + rest)), at, got) ==
            Scan(f.next.next.next, rest, at + |ds| + 1 + |word|,
                 Scanned(got.numbers + [n], got.words + [word], got.marks))
  {
    hide Scan, Denotes;
    ScanDigits(f, ds, n, " " + (word + rest), at, got);
    var got1 := got.(numbers := got.numbers + [n]);
    ScanSpace(f.next, word + rest, at + |ds|, got1);
    ScanWord(f.next.next, word, rest, at + |ds| + 1, got1);
  }

  // ---- with days --------------------------------------------------------------------------------

  lemma ClockTailShape(ms: string, ss: string, fs: string)
    requires AllDigits(ms) && AllDigits(ss) && AllDigits(fs) && 1 <= |ms| <= 2 && 1 <= |ss|
    ensures var t := ClockTail(ms, ss, fs);
            && |t| >= 4 && t[0] == ':' && (forall i :: 0 <= i < |t| ==> !IsBlank(t[i]) && t[i] != '\'')
            && (forall i :: 4 <= i < |t| ==> t[i] != ':')
  {
  }

  lemma ClockShape(ms: string, ss: string, fs: string, m: int, sec: int, frac: int)
    requires ShortFor(ms, m) && ShortFor(ss, sec) && FractionFor(fs, frac)
    ensures ClockTail(ms, ss, fs) != "" && ClockTail(ms, ss, fs)[0] == ':'
    ensures |ClockTail(ms, ss, fs)| == 2 + |ms| + |ss| + if fs == "" then 0 else 1 + |fs|
  {
  }

  lemma ScanDays(ds: string, word: string, hs: string, ms: string, ss: string, fs: string,
                 d: int, h: int, m: int, sec: int, frac: int)
    requires Denotes(ds, d) && NoBlanks(word) && |word| <= 4
    requires ShortFor(hs, h) && ShortFor(ms, m) && ShortFor(ss, sec) && FractionFor(fs, frac)
    ensures var body := DaysText(ds, word, ClockText(hs, ms, ss, fs));
            Scan(DaysFormat(), body, 0, Nothing()) ==
            ClockScanned(if fs == "" then |body| else |body| - 1 - |fs|, fs, m, sec, frac, Scanned([d, h], [word], []))
  {
    hide Scan, Denotes, NoBlanks, ClockRest, ClockTail, ClockScanned, FractionFor;
    var clock, at := ClockText(hs, ms, ss, fs), |ds| + 1 + |word|;
    FirstDigit(hs, h);
    ClockShape(ms, ss, fs, m, sec, frac);
    assert clock[0] == hs[0];
    assert " " + clock == [' '] + clock;
    ScanNumberWord(DaysFormat(), ds, d, word, " " + clock, 0, Nothing());
    assert [] + [d] == [d] && [] + [word] == [word] && [d] + [h] == [d, h];
    var got := Scanned([d], [word], []);
    var f := Space(Integer(2, ClockRest()));
    ScanSpace(f, clock, at, got);
    ScanDigits(f.next, hs, h, ClockTail(ms, ss, fs), at + 1, got);
    ShortsAreFields(ms, ss, fs, m, sec, frac);
    ScanClock(ms, ss, fs, m, sec, frac, at + 1 + |hs|, Scanned([d, h], [word], []));
  }

  lemma FieldsInShortWordText(ds: string, word: string, hs: string, ms: string, ss: string, fs: string,
                         d: int, h: int, m: int, sec: int, frac: int)
    requires Denotes(ds, d) && NoBlanks(word) && |word| <= 4
    requires ShortFor(hs, h) && ShortFor(ms, m) && ShortFor(ss, sec) && FractionFor(fs, frac)
    ensures FieldsOf(DaysText(ds, word, ClockText(hs, ms, ss, fs))) ==
            if IsDaysWord(Lowered(word)) && h <= 23 then Some(Fields(d, h, m, sec, frac, Places(fs))) else None
  {
    hide Scan, Denotes, NoBlanks, DaysFormat, DaysText, ClockText, Lowered, IsDaysWord, ValueOf, AllDigits;
    ScanDays(ds, word, hs, ms, ss, fs, d, h, m, sec, frac);
    if fs == "" {
      NoDigits(fs, frac);
    }
  }

  lemma NoDigits(fs: string, frac: int)
    requires FractionFor(fs, frac) && fs == ""
    ensures frac == 0
  {
  }

  // ---- without days ------------------------------------------------------------------------------

  /** Once no colon remains, the format that expects days cannot match to its end. */
  lemma NoColonLeft(rest: string, at: nat, got: Scanned)
    requires NoColons(rest)
    ensures Scan(Space(Integer(2, ClockRest())), rest, at, got).Matched() <= got.Matched() + 1
  {
    assert ClockRest().Literal? && ClockRest().c == ':';
    hide Run, ReadNumber, ClockRest;
    var r := rest[Blanks(rest)..];
    var t := r[Blanks(r)..];
    var number := ReadNumber(t, Limit(2, t));
    var end := at + Blanks(rest) + Blanks(r) + number.taken;
    ScanFails(ClockRest(), t[number.taken..], end, got.(numbers := got.numbers + [number.number]));
  }

  /** Four characters into ":m:s" both colons are gone. */
  lemma ColonsAreEarly(ms: string, ss: string, fs: string, m: int, sec: int, frac: int)
    requires ShortFor(ms, m) && ShortFor(ss, sec) && FractionFor(fs, frac)
    ensures var t := ClockTail(ms, ss, fs);
            |t| >= 4 && t[0] == ':' && NoBlanks(t[..4]) && NoColons(t[4..])
  {
    ClockTailShape(ms, ss, fs);
    hide ClockTail;
  }

  lemma NotWithDays(hs: string, ms: string, ss: string, fs: string, h: int, m: int, sec: int, frac: int)
    requires Denotes(hs, h) && ShortFor(ms, m) && ShortFor(ss, sec) && FractionFor(fs, frac)
    ensures Scan(DaysFormat(), ClockText(hs, ms, ss, fs), 0, Nothing()).Matched() <= 3
  {
    hide Scan, Denotes, ClockRest, ClockTail, FractionFor, ShortFor, NoBlanks, NoColons;
    var t := ClockTail(ms, ss, fs);
    ColonsAreEarly(ms, ss, fs, m, sec, frac);
    var f := DaysFormat();
    ScanDigits(f, hs, h, t, 0, Nothing());
    var got := Scanned([] + [h], [], []);
    ScanSpace(f.next, t, |hs|, got);
    assert t == t[..4] + t[4..];
    FourNonBlanks(f.next.next, t[..4], t[4..], |hs|, got);
    NoColonLeft(t[4..], |hs| + 4, got.(words := [] + [t[..4]]));
  }

  lemma FourNonBlanks(f: Format, w: string, rest: string, at: nat, got: Scanned)
    requires f.Word? && f.width == 4 && NoBlanks(w) && |w| == 4
    ensures Scan(f, w + rest, at, got) == Scan(f.next, rest, at + 4, got.(words := got.words + [w]))
  {
    hide Scan;
    ScanWord(f, w, rest, at, got);
  }

  lemma ScanClockOnly(hs: string, ms: string, ss: string, fs: string, h: int, m: int, sec: int, frac: int)
    requires Denotes(hs, h) && ShortFor(ms, m) && ShortFor(ss, sec) && FractionFor(fs, frac)
    ensures var body := ClockText(hs, ms, ss, fs);
            Scan(ClockFormat(), body, 0, Nothing()) ==
            ClockScanned(if fs == "" then |body| else |body| - 1 - |fs|, fs, m, sec, frac, Scanned([h], [], []))
  {
    hide Scan, Denotes, ClockRest, ClockTail, ClockScanned, FractionFor;
    ClockShape(ms, ss, fs, m, sec, frac);
    ScanDigits(ClockFormat(), hs, h, ClockTail(ms, ss, fs), 0, Nothing());
    assert [] + [h] == [h];
    ShortsAreFields(ms, ss, fs, m, sec, frac);
    ScanClock(ms, ss, fs, m, sec, frac, |hs|, Scanned([h], [], []));
  }

  lemma FieldsInClockText(hs: string, ms: string, ss: string, fs: string, h: int, m: int, sec: int, frac: int)
    requires Denotes(hs, h) && ShortFor(ms, m) && ShortFor(ss, sec) && FractionFor(fs, frac)
    ensures FieldsOf(ClockText(hs, ms, ss, fs)) == Some(Fields(0, h, m, sec, frac, Places(fs)))
  {
    hide Scan, Denotes, DaysFormat, ClockFormat, ClockText, ValueOf, AllDigits;
    NotWithDays(hs, ms, ss, fs, h, m, sec, frac);
    ScanClockOnly(hs, ms, ss, fs, h, m, sec, frac);
    if fs == "" {
      NoDigits(fs, frac);
    }
  }

  // ---- words longer than the scan takes --------------------------------------------------------

  lemma ColonsInClock(hs: string, ms: string, ss: string, fs: string)
    ensures Colons(" " + ClockText(hs, ms, ss, fs)) >= 2
  {
    var inner := ss + FractionText(fs);
    assert ":" + inner == [':'] + inner && (":" + inner)[1..] == inner;
    assert Colons(":" + inner) >= 1;
    ColonsJoined(ms, ":" + inner);
    var t := ClockTail(ms, ss, fs);
    assert t[0] == ':' && t[1..] == ms + (":" + inner);
    ColonsJoined(hs, t);
    ColonsJoined(" ", ClockText(hs, ms, ss, fs));
  }

  /** A number, if there is one, is read from the word and not from what follows the blank. */
  lemma ScanNumberInWord(f: Format, u: string, rear: string, at: nat, got: Scanned) returns (k: nat, n: int)
    requires f.Integer? && NoBlanks(u)
    ensures k <= |u|
    ensures Scan(f, u + (" " + rear), at, got) ==
            if k == 0 then got
            else Scan(f.next, (u + (" " + rear))[k..], at + k, got.(numbers := got.numbers + [n]))
  {
    hide ReadNumber, Run, IsBlank, NoBlanks;
    var tail := u + (" " + rear);
    NumberInWord(u, rear, Limit(f.width, tail));
    assert tail[0..] == tail;
    var r := ReadNumber(tail, Limit(f.width, tail));
    k, n := r.taken, r.number;
  }

  lemma NumberInWord(u: string, rear: string, limit: nat)
    requires NoBlanks(u) && limit <= |u + (" " + rear)|
    ensures var tail := u + (" " + rear);
            Blanks(tail) == 0 && ReadNumber(tail, limit).taken <= |u|
  {
    hide ReadNumber, Run;
    var tail := u + (" " + rear);
    assert !IsBlank(tail[0]) && tail[|u|] == ' ';
    RunIs(tail, Blank, |tail|, 0);
    NumberTakes(tail, limit);
    NotPast(tail, |u|, ReadNumber(tail, limit).taken);
  }

  lemma NotPast(s: string, j: nat, k: nat)
    requires j < |s| && s[j] == ' ' && k <= |s| && forall i :: 0 <= i < k ==> !IsBlank(s[i])
    ensures k <= j
  {
  }

  /** Too few fields were read, or no mark is at the end. */
  predicate EndMissed(sc: Scanned, end: nat) {
    sc.Matched() <= 3 || forall k :: 0 <= k < |sc.marks| ==> sc.marks[k] != end
  }

  /** The rest of a long word, read as a number of hours, is followed by too many colons. */
  lemma AfterLongWord(u: string, hs: string, ms: string, ss: string, fs: string, tail: string, at: nat, got: Scanned)
    requires NoBlanks(u) && tail == u + (" " + ClockText(hs, ms, ss, fs)) && got.Matched() == 2 && got.marks == []
    ensures EndMissed(Scan(Integer(2, ClockRest()), tail, at, got), at + |tail|)
  {
    hide Scan, ClockRest, ClockText, NoBlanks, IsBlank;
    var k, n := ScanNumberInWord(Integer(2, ClockRest()), u, ClockText(hs, ms, ss, fs), at, got);
    if k != 0 {
      var rest, got2 := tail[k..], got.(numbers := got.numbers + [n]);
      if rest[0] == ':' {
        ColonsAfter(u, hs, ms, ss, fs, k);
        ThreeColons(rest, at + k, got2);
      } else {
        NoColonHere(rest, at + k, got2);
      }
    }
  }

  lemma NoColonHere(rest: string, at: nat, got: Scanned)
    requires rest != "" && rest[0] != ':'
    ensures Scan(ClockRest(), rest, at, got) == got
  {
    hide Scan;
    ScanFails(ClockRest(), rest, at, got);
  }

  lemma ThreeColons(rest: string, at: nat, got: Scanned)
    requires Colons(rest) >= 3 && got.marks == []
    ensures EndMissed(Scan(ClockRest(), rest, at, got), at + |rest|)
  {
    assert Numeric(ClockRest()) && ColonsIn(ClockRest()) == 2;
    hide Scan, ClockRest, Colons;
    ColonsBehindMarks(ClockRest(), rest, at, got);
    assert rest[..|rest|] == rest;
  }

  lemma ColonsAfter(u: string, hs: string, ms: string, ss: string, fs: string, k: nat)
    requires k <= |u|
    requires var rest := (u + (" " + ClockText(hs, ms, ss, fs)))[k..]; rest[0] == ':'
    ensures Colons((u + (" " + ClockText(hs, ms, ss, fs)))[k..]) >= 3
  {
    hide ClockText;
    var clock := ClockText(hs, ms, ss, fs);
    var rest := (u + (" " + clock))[k..];
    assert rest == u[k..] + (" " + clock);
    assert (" " + clock)[0] == ' ';
    assert k < |u| && u[k..][0] == ':';
    ColonsInClock(hs, ms, ss, fs);
    ColonsJoined(u[k..], " " + clock);
  }

  lemma FieldsInLongWordText(ds: string, word: string, hs: string, ms: string, ss: string, fs: string, d: int)
    requires Denotes(ds, d) && NoBlanks(word) && |word| > 4
    ensures FieldsOf(DaysText(ds, word, ClockText(hs, ms, ss, fs))) == None
  {
    hide Scan, Denotes, ClockRest, ClockText, IsBlank;
    var clock, at := ClockText(hs, ms, ss, fs), |ds| + 5;
    var body, u := DaysText(ds, word, clock), word[4..];
    var tail := u + (" " + clock);
    assert NoBlanks(word[..4]) && NoBlanks(u) && !IsBlank(tail[0]);
    hide NoBlanks;
    assert word == word[..4] + u;
    assert body == ds + (" " + (word[..4] + tail));
    ScanNumberWord(DaysFormat(), ds, d, word[..4], tail, 0, Nothing());
    assert [] + [d] == [d] && [] + [word[..4]] == [word[..4]];
    var got := Scanned([d], [word[..4]], []);
    ScanSpace(Space(Integer(2, ClockRest())), tail, at, got);
    AfterLongWord(u, hs, ms, ss, fs, tail, at, got);
    assert |body| == at + |tail|;
    NoClockAfterNumber(ds, d, word + (" " + clock));
  }

  /** A number followed by a blank is not the hours of a clock. */
  lemma NoClockAfterNumber(ds: string, d: int, rest: string)
    requires Denotes(ds, d)
    ensures Scan(ClockFormat(), ds + (" " + rest), 0, Nothing()).Matched() == 1
  {
    hide Scan, Denotes;
    ScanDigits(ClockFormat(), ds, d, " " + rest, 0, Nothing());
    ScanFails(ClockRest(), " " + rest, |ds|, Scanned([] + [d], [], []));
  }

  lemma FieldsInDaysText(ds: string, word: string, hs: string, ms: string, ss: string, fs: string,
                         d: int, h: int, m: int, sec: int, frac: int)
    requires Denotes(ds, d) && NoBlanks(word)
    requires ShortFor(hs, h) && ShortFor(ms, m) && ShortFor(ss, sec) && FractionFor(fs, frac)
    ensures FieldsOf(DaysText(ds, word, ClockText(hs, ms, ss, fs))) ==
            if IsDaysWord(Lowered(word)) && h <= 23 then Some(Fields(d, h, m, sec, frac, Places(fs))) else None
  {
    hide FieldsOf, Denotes, NoBlanks, ShortFor, FractionFor, DaysText, ClockText, Lowered;
    if |word| <= 4 {
      FieldsInShortWordText(ds, word, hs, ms, ss, fs, d, h, m, sec, frac);
    } else {
      FieldsInLongWordText(ds, word, hs, ms, ss, fs, d);
    }
  }

  /** What is left of a long word for years makes the scan end before the last blank. */
  lemma AfterLongYears(u: string, rear: string, j: nat, tail: string, at: nat, got: Scanned)
    requires NoBlanks(u) && got.Matched() == 2 && got.marks == [] && tail == u + (" " + rear)
    requires 0 < j < |rear| && rear[j] == ' ' && !IsBlank(rear[j - 1])
    ensures EndMissed(Scan(Integer(0, Space(Word(6, Mark(End)))), tail, at, got), at + |tail|)
  {
    hide Scan, NoBlanks, IsBlank, EndMissed;
    var k, n := ScanNumberInWord(Integer(0, Space(Word(6, Mark(End)))), u, rear, at, got);
    if k == 0 {
      FewFields(got, at + |tail|);
    } else {
      var s, last := tail[k..], |u| - k + 1 + j;
      assert s[last] == tail[|u| + 1 + j] == rear[j] && s[last - 1] == tail[|u| + j] == rear[j - 1];
      WordBeforeBlank(s, last, at + k, got.(numbers := got.numbers + [n]));
    }
  }

  lemma FewFields(sc: Scanned, end: nat)
    requires sc.Matched() <= 3
    ensures EndMissed(sc, end)
  {
  }

  lemma LastBlank(ms: string, monthsWord: string)
    requires NoBlanks(ms) && monthsWord != ""
    ensures var rear, j := ms + (" " + monthsWord), |ms|;
            0 < j < |rear| && rear[j] == ' ' && !IsBlank(rear[j - 1])
  {
    assert (ms + (" " + monthsWord))[|ms| - 1] == ms[|ms| - 1];
  }

  /** A word read before a blank ends there. */
  lemma WordBeforeBlank(s: string, last: nat, at: nat, got: Scanned)
    requires 0 < last < |s| && s[last] == ' ' && !IsBlank(s[last - 1]) && got.marks == [] && got.Matched() <= 3
    ensures EndMissed(Scan(Space(Word(6, Mark(End))), s, at, got), at + |s|)
  {
    hide Scan, Run, EndMissed, StopsAt;
    var b := Blanks(s);
    RunStops(s, Blank, |s|, last - 1);
    assert !IsBlank(s[b..][0]) && s[b..][last - b] == ' ';
    SpaceTaken(Space(Word(6, Mark(End))), s, at, got);
    OneWordBeforeBlank(s[b..], last - b, at + b, got);
  }

  lemma OneWordBeforeBlank(r: string, last: nat, at: nat, got: Scanned)
    requires last < |r| && r[last] == ' ' && !IsBlank(r[0]) && got.marks == [] && got.Matched() <= 3
    ensures EndMissed(Scan(Word(6, Mark(End)), r, at, got), at + |r|)
  {
    hide Scan, Run, Limit;
    RunIs(r, Blank, |r|, 0);
    assert r[0..] == r;
    var k := Run(r, NonBlank, Limit(6, r));
    RunStops(r, NonBlank, Limit(6, r), last);
    WordStep(6, Mark(End), r, at, got, r, k);
    hide IsBlank;
    if k != 0 {
      MarkAtEnd(r[k..], at + k, got.(words := got.words + [r[..k]]));
    }
  }

  lemma MarkAtEnd(s: string, at: nat, got: Scanned)
    ensures Scan(Mark(End), s, at, got) == got.(marks := got.marks + [at])
  {
  }

  lemma YearsInLongWordText(ys: string, yearsWord: string, ms: string, monthsWord: string, y: int)
    requires Denotes(ys, y) && NoBlanks(yearsWord) && |yearsWord| > 5 && NoBlanks(ms) && NoBlanks(monthsWord)
    ensures var body := YearsText(ys, yearsWord, ms, monthsWord);
            EndMissed(Scan(YearsFormat(), body, 0, Nothing()), |body|)
  {
    hide Scan, Denotes, IsBlank;
    var u, at := yearsWord[5..], |ys| + 6;
    var tail := u + (" " + (ms + (" " + monthsWord)));
    assert NoBlanks(yearsWord[..5]) && NoBlanks(u) && !IsBlank(tail[0]) && monthsWord != "";
    LastBlank(ms, monthsWord);
    hide NoBlanks;
    assert yearsWord == yearsWord[..5] + u;
    var body := YearsText(ys, yearsWord, ms, monthsWord);
    assert body == ys + (" " + (yearsWord[..5] + tail));
    ScanNumberWord(YearsFormat(), ys, y, yearsWord[..5], tail, 0, Nothing());
    var f := Space(Integer(0, Space(Word(6, Mark(End)))));
    assert [] + [y] == [y] && [] + [yearsWord[..5]] == [yearsWord[..5]];
    var got := Scanned([y], [yearsWord[..5]], []);
    ScanSpace(f, tail, at, got);
    AfterLongYears(u, ms + (" " + monthsWord), |ms|, tail, at, got);
    assert |body| == at + |tail|;
  }

  // ---- sign --------------------------------------------------------------------------------------

  lemma SignRead(negative: bool, body: string)
    requires body != "" && body[0] != '-'
    ensures var s := WithSign(negative, body);
            StartOffset(s) == (if negative then 1 else 0) && s[StartOffset(s)..] == body
  {
    var s := WithSign(negative, body);
    RunIs(s, Hyphen, Limit(1, s), if negative then 1 else 0);
    if negative {
      ScanMark(Mark(End), s[1..], 1, Nothing());
      ScanEnd(s[1..], 1, Scanned([], [], [1]));
    }
  }

  // ---- the complex formats -----------------------------------------------------------------------

  /** The ticks of fields in range, with frac read from the digits fs after the point. */
  function TicksIn(days: int, hours: int, minutes: int, seconds: int, frac: int, fs: string): int {
    (((days * 24 + hours) * 60 + minutes) * 60 + seconds) * TICKS_PER_SECOND + Scaled(frac, Places(fs))
  }

  /** "[-]D day[s] H:M:S[.F]": accepted exactly when the word is day or days in any case and the
      hours, minutes and seconds are in range; a shorter fraction counts as if padded with zeros. */
  lemma DaysTextParses(negative: bool, ds: string, word: string, hs: string, ms: string, ss: string, fs: string,
                       d: int, h: int, m: int, sec: int, frac: int)
    requires Denotes(ds, d) && NoBlanks(word)
    requires ShortFor(hs, h) && ShortFor(ms, m) && ShortFor(ss, sec) && FractionFor(fs, frac)
    ensures ComplexDatetime(WithSign(negative, DaysText(ds, word, ClockText(hs, ms, ss, fs)))) ==
            if IsDaysWord(Lowered(word)) && h <= 23 && m <= 59 && sec <= 59
            then Some(Signed(negative, TicksIn(d, h, m, sec, frac, fs)))
            else None
  {
    hide Denotes, FractionFor, ShortFor, NoBlanks, DaysText, ClockText, Lowered, IsDaysWord, FieldsOf, StartOffset,
      WithSign, Scaled, IsBlank;
    var body := DaysText(ds, word, ClockText(hs, ms, ss, fs));
    DaysStart(ds, word, ClockText(hs, ms, ss, fs), d);
    SignRead(negative, body);
    FieldsInDaysText(ds, word, hs, ms, ss, fs, d, h, m, sec, frac);
    FieldsNotNegative(ds, hs, ms, ss, fs, d, h, m, sec, frac);
  }

  lemma DaysStart(ds: string, word: string, clock: string, d: int)
    requires Denotes(ds, d)
    ensures DaysText(ds, word, clock) != "" && DaysText(ds, word, clock)[0] == ds[0] != '-' && ds[0] != '\''
  {
  }

  lemma ClockStart(hs: string, ms: string, ss: string, fs: string, h: int)
    requires Denotes(hs, h)
    ensures ClockText(hs, ms, ss, fs) != "" && ClockText(hs, ms, ss, fs)[0] == hs[0] != '-' && hs[0] != '\''
  {
  }

  lemma FieldsNotNegative(ds: string, hs: string, ms: string, ss: string, fs: string,
                          d: int, h: int, m: int, sec: int, frac: int)
    requires Denotes(ds, d) && (Denotes(hs, h) || ShortFor(hs, h))
    requires ShortFor(ms, m) && ShortFor(ss, sec) && FractionFor(fs, frac)
    ensures d >= 0 && h >= 0 && m >= 0 && sec >= 0 && frac >= 0
  {
  }

  /** "[-]H:M:S[.F]", with any number of hours. */
  lemma ClockTextParses(negative: bool, hs: string, ms: string, ss: string, fs: string,
                        h: int, m: int, sec: int, frac: int)
    requires Denotes(hs, h) && ShortFor(ms, m) && ShortFor(ss, sec) && FractionFor(fs, frac)
    ensures ComplexDatetime(WithSign(negative, ClockText(hs, ms, ss, fs))) ==
            if m <= 59 && sec <= 59 then Some(Signed(negative, TicksIn(0, h, m, sec, frac, fs))) else None
  {
    hide Denotes, FractionFor, ShortFor, ClockText, FieldsOf, StartOffset, WithSign, Scaled;
    var body := ClockText(hs, ms, ss, fs);
    ClockStart(hs, ms, ss, fs, h);
    SignRead(negative, body);
    FieldsInClockText(hs, ms, ss, fs, h, m, sec, frac);
    FieldsNotNegative(hs, hs, ms, ss, fs, h, h, m, sec, frac);
  }

  lemma ScanYears(ys: string, yearsWord: string, ms: string, monthsWord: string, y: int, m: int)
    requires Denotes(ys, y) && Denotes(ms, m)
    requires NoBlanks(yearsWord) && |yearsWord| <= 5 && NoBlanks(monthsWord) && |monthsWord| <= 6
    ensures var body := YearsText(ys, yearsWord, ms, monthsWord);
            Scan(YearsFormat(), body, 0, Nothing()) == Scanned([y, m], [yearsWord, monthsWord], [|body|])
  {
    hide Scan, Denotes, NoBlanks;
    var tail, at := ms + (" " + monthsWord), |ys| + 1 + |yearsWord|;
    FirstDigit(ms, m);
    assert tail[0] == ms[0];
    assert " " + tail == [' '] + tail;
    ScanNumberWord(YearsFormat(), ys, y, yearsWord, " " + tail, 0, Nothing());
    assert [] + [y] == [y] && [] + [yearsWord] == [yearsWord];
    var got := Scanned([y], [yearsWord], []);
    var f := Space(Integer(0, Space(Word(6, Mark(End)))));
    ScanSpace(f, tail, at, got);
    assert monthsWord + "" == monthsWord;
    ScanNumberWord(f.next, ms, m, monthsWord, "", at + 1, got);
    assert [y] + [m] == [y, m] && [yearsWord] + [monthsWord] == [yearsWord, monthsWord];
    var got2 := Scanned([y, m], [yearsWord, monthsWord], []);
    var n := at + 2 + |ms| + |monthsWord|;
    ScanMark(Mark(End), "", n, got2);
    assert [] + [n] == [n];
    ScanEnd("", n, got2.(marks := [n]));
  }

  lemma YearsStart(ys: string, yearsWord: string, ms: string, monthsWord: string, y: int, m: int)
    requires Denotes(ys, y) && Denotes(ms, m)
    ensures var body := YearsText(ys, yearsWord, ms, monthsWord); body != "" && body[0] != '-'
    ensures y >= 0 && m >= 0
  {
  }

  /** A word for months that is longer than the scan takes is not read to its end. */
  lemma MonthsInLongWordText(ys: string, yearsWord: string, ms: string, monthsWord: string, y: int, m: int)
    requires Denotes(ys, y) && Denotes(ms, m) && NoBlanks(yearsWord) && |yearsWord| <= 5
    requires NoBlanks(monthsWord) && |monthsWord| > 6
    ensures var body := YearsText(ys, yearsWord, ms, monthsWord);
            EndMissed(Scan(YearsFormat(), body, 0, Nothing()), |body|)
  {
    hide Scan, Denotes;
    var head, end := monthsWord[..6], monthsWord[6..];
    assert NoBlanks(head) && monthsWord == head + end;
    hide NoBlanks;
    var tail, at := ms + (" " + monthsWord), |ys| + 1 + |yearsWord|;
    FirstDigit(ms, m);
    assert tail[0] == ms[0] && tail == ms + (" " + (head + end));
    ScanNumberWord(YearsFormat(), ys, y, yearsWord, " " + tail, 0, Nothing());
    assert [] + [y] == [y] && [] + [yearsWord] == [yearsWord];
    var got := Scanned([y], [yearsWord], []);
    var f := Space(Integer(0, Space(Word(6, Mark(End)))));
    assert YearsFormat().next.next.next == f;
    assert " " + tail == [' '] + tail;
    ScanSpace(f, tail, at, got);
    ScanNumberWord(f.next, ms, m, head, end, at + 1, got);
    MarkAtEnd(end, at + 8 + |ms|, Scanned([y] + [m], [yearsWord] + [head], []));
  }

  /** "[-]Y year[s] M mon[s]" and the other spellings of the units, in any case: accepted exactly
      when both words are units and the months are in range. */
  lemma YearsTextParses(negative: bool, ys: string, yearsWord: string, ms: string, monthsWord: string, y: int, m: int)
    requires Denotes(ys, y) && Denotes(ms, m) && NoBlanks(yearsWord) && NoBlanks(monthsWord)
    ensures ComplexYearMonth(WithSign(negative, YearsText(ys, yearsWord, ms, monthsWord))) ==
            if IsYearsWord(Lowered(yearsWord)) && IsMonthsWord(Lowered(monthsWord)) && m <= 11
            then Some(Signed(negative, y * 12 + m))
            else None
  {
    hide Denotes, NoBlanks, Scan, Lowered, StartOffset, YearsFormat, YearsText, WithSign, IsBlank;
    var body := YearsText(ys, yearsWord, ms, monthsWord);
    YearsStart(ys, yearsWord, ms, monthsWord, y, m);
    SignRead(negative, body);
    if |yearsWord| <= 5 && |monthsWord| <= 6 {
      hide IsYearsWord, IsMonthsWord;
      ScanYears(ys, yearsWord, ms, monthsWord, y, m);
    } else {
      if |yearsWord| > 5 {
        DigitsHaveNoBlanks(ms, m);
        YearsInLongWordText(ys, yearsWord, ms, monthsWord, y);
      } else {
        MonthsInLongWordText(ys, yearsWord, ms, monthsWord, y, m);
      }
      UnitWordsAreShort(yearsWord, monthsWord);
      hide IsYearsWord, IsMonthsWord;
    }
  }

  lemma UnitWordsAreShort(yearsWord: string, monthsWord: string)
    ensures IsYearsWord(Lowered(yearsWord)) ==> |yearsWord| <= 5
    ensures IsMonthsWord(Lowered(monthsWord)) ==> |monthsWord| <= 6
  {
    hide Lowered;
  }

  lemma DigitsHaveNoBlanks(s: string, n: int)
    requires Denotes(s, n)
    ensures NoBlanks(s)
  {
  }
}
