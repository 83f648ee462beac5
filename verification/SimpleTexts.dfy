/** The simple interval format: exactly which texts it takes, and what it reads from them. */
module SimpleTexts {
  import opened Options
  import opened Decimal
  import opened Scanner
  import opened IntervalParser

  predicate UnitWord(w: string) {
    w != "" && forall i :: 0 <= i < |w| ==> In(w[i], Unit)
  }

  /** White space, with no unit that goes on as the number before it would. */
  predicate Separates(gap: string, units: string)
    requires UnitWord(units)
  {
    AllBlank(gap) && (gap != "" || !IsDigit(units[0]))
  }

  predicate PlainText(s: string, lead: string, numeral: string, gap: string, units: string) {
    UnitWord(units) && Separates(gap, units) && s == lead + (numeral + (gap + units))
  }

  predicate QuotedText(s: string, lead: string, numeral: string, gap: string, units: string) {
    UnitWord(units) && Separates(gap, units) && s == "'" + (lead + (numeral + (gap + (units + "'"))))
  }

  predicate QuotedCountText(s: string, lead: string, numeral: string, gap: string, units: string) {
    UnitWord(units) && AllBlank(gap) && s == "'" + (lead + (numeral + ("'" + (gap + units))))
  }

  /** "C U", "'C U'" or "'C' U", with any white space before the count and between the two. */
  predicate SimpleText(s: string, lead: string, numeral: string, gap: string, units: string) {
    && AllBlank(lead)
    && (|| PlainText(s, lead, numeral, gap, units)
        || QuotedText(s, lead, numeral, gap, units)
        || QuotedCountText(s, lead, numeral, gap, units))
  }

  // ---- what such texts yield ---------------------------------------------------------------------

  lemma UnitStart(units: string, rest: string)
    requires UnitWord(units)
    ensures units != "" && StopsAt(units + rest, Blank) && units[0] != '\''
  {
    assert In((units + rest)[0], Unit);
  }

  lemma GapStart(gap: string, units: string, rest: string)
    requires UnitWord(units) && Separates(gap, units)
    ensures StopsAt(gap + (units + rest), Digit) && AllBlank(gap)
  {
    assert (gap + (units + rest))[0] == if gap == "" then units[0] else gap[0];
  }

  lemma ScanUnitWord(f: Format, units: string, rest: string, at: nat, got: Scanned)
    requires f.Skip? && f.kind == Unit && f.width == 0 && UnitWord(units) && StopsAt(rest, Unit)
    ensures Scan(f, units + rest, at, got) == Scan(f.next, rest, at + |units|, got)
  {
    hide Scan;
    ScanSkip(f, units, rest, at, got);
  }

  /** The count: white space, then a number. */
  lemma ScanCount(f: Format, lead: string, numeral: string, n: int, rest: string, at: nat)
    requires f.Integer? && f.width == 0 && AllBlank(lead) && Numeral(numeral, n) && StopsAt(rest, Digit)
    ensures Scan(f, lead + (numeral + rest), at, Nothing()) ==
            Scan(f.next, rest, at + |lead| + |numeral|, Scanned([n], [], []))
  {
    hide Scan, AllBlank, Numeral, StopsAt;
    NumeralStart(numeral, n, "");
    assert numeral + "" == numeral;
    BlanksBefore(lead, numeral);
    assert (lead + numeral)[|lead|..] == numeral && lead + numeral + rest == lead + (numeral + rest);
    ScanField(f, lead + numeral, n, rest, at, Nothing());
    assert [] + [n] == [n];
  }

  /** After the count: white space, then the unit, then `rest`. */
  lemma ScanUnit(next: Format, gap: string, units: string, rest: string, at: nat, n: int)
    requires AllBlank(gap) && UnitWord(units) && StopsAt(rest, Unit)
    ensures var a, b := at + |gap|, at + |gap| + |units|;
            Scan(Space(Mark(Skip(Unit, 0, Mark(next)))), gap + (units + rest), at, Scanned([n], [], [])) ==
            Scan(next, rest, b, Scanned([n], [], [a, b]))
  {
    hide Scan, In, UnitWord, IsBlank, AllBlank, StopsAt;
    var s, got := units + rest, Scanned([n], [], []);
    UnitStart(units, rest);
    var f := Space(Mark(Skip(Unit, 0, Mark(next))));
    ScanBlanks(f, gap, s, at, got);
    var a := at + |gap|;
    ScanMark(f.next, s, a, got);
    var got1 := got.(marks := [] + [a]);
    ScanUnitWord(f.next.next, units, rest, a, got1);
    ScanMark(f.next.next.next, rest, a + |units|, got1);
    assert [] + [a] + [a + |units|] == [a, a + |units|];
  }

  /** The plain format on a count and a unit that ends where the text or a blank does. */
  lemma PlainScanned(lead: string, numeral: string, n: int, gap: string, units: string, rest: string, at: nat)
    requires AllBlank(lead) && Numeral(numeral, n) && UnitWord(units) && Separates(gap, units) && StopsAt(rest, Unit)
    requires at == |lead| + |numeral|
    ensures Scan(PlainFormat(), lead + (numeral + (gap + (units + rest))), 0, Nothing()) ==
            Scanned([n], [], [at + |gap|, at + |gap| + |units|])
  {
    hide *;
    GapStart(gap, units, rest);
    PlainSteps(lead, numeral, n, gap, units, rest, gap + (units + rest), at);
  }

  lemma PlainSteps(lead: string, numeral: string, n: int, gap: string, units: string, rest: string,
                   tail: string, at: nat)
    requires AllBlank(lead) && Numeral(numeral, n) && UnitWord(units) && AllBlank(gap) && StopsAt(rest, Unit)
    requires tail == gap + (units + rest) && StopsAt(tail, Digit) && at == |lead| + |numeral|
    ensures Scan(PlainFormat(), lead + (numeral + tail), 0, Nothing()) ==
            Scanned([n], [], [at + |gap|, at + |gap| + |units|])
  {
    hide *;
    PlainShape();
    ScanCount(PlainFormat(), lead, numeral, n, tail, 0);
    ScanUnit(End, gap, units, rest, at, n);
    ScanEnd(rest, at + |gap| + |units|, Scanned([n], [], [at + |gap|, at + |gap| + |units|]));
  }

  lemma PlainShape()
    ensures PlainFormat() == Integer(0, Space(Mark(Skip(Unit, 0, Mark(End)))))
    ensures Wordless(PlainFormat())
  {
  }

  lemma FieldsFrom(f: Format, last: nat, s: string, n: int, marks: seq<nat>, units: string)
    requires 1 <= last < |marks| && marks[last] == |s| > 0 && marks[0] <= marks[1] <= |s|
    requires Scan(f, s, 0, Nothing()) == Scanned([n], [], marks) && s[marks[0]..marks[1]] == units
    ensures FieldsBy(f, last, s) == Some((n, Lowered(units)))
  {
    hide Scan, Lowered;
  }

  lemma NotQuoted(s: string)
    requires s != "" && s[0] != '\''
    ensures SimpleFields(s) == FieldsBy(PlainFormat(), 1, s)
  {
    hide PlainFormat;
    ScanFails(QuotedFormat(), s, 0, Nothing());
    ScanFails(QuotedCountFormat(), s, 0, Nothing());
    hide Scan;
  }

  lemma TextStart(lead: string, numeral: string, n: int, rest: string)
    requires AllBlank(lead) && Numeral(numeral, n)
    ensures var s := lead + (numeral + rest); s != "" && s[0] != '\''
  {
    NumeralStart(numeral, n, rest);
    hide Numeral;
    assert lead != "" ==> IsBlank(lead[0]);
  }

  /** "C U", the unit in any case; also "CU" when the unit does not begin with a digit. */
  lemma PlainFields(lead: string, numeral: string, n: int, gap: string, units: string)
    requires AllBlank(lead) && Numeral(numeral, n) && UnitWord(units) && Separates(gap, units)
    ensures SimpleFields(lead + (numeral + (gap + units))) == Some((n, Lowered(units)))
  {
    hide Scan, UnitWord, Lowered, SimpleFields, Numeral, AllBlank, PlainFormat, Separates;
    assert units + "" == units;
    PlainScanned(lead, numeral, n, gap, units, "", |lead| + |numeral|);
    TextStart(lead, numeral, n, gap + units);
    NotQuoted(lead + (numeral + (gap + units)));
    UnitsLast(lead, numeral, gap, units);
    var start := |lead| + |numeral| + |gap|;
    FieldsFrom(PlainFormat(), 1, lead + (numeral + (gap + units)), n, [start, start + |units|], units);
  }

  lemma UnitsLast(a: string, b: string, c: string, units: string)
    ensures var s, start := a + (b + (c + units)), |a| + |b| + |c|;
            |s| == start + |units| && s[start..start + |units|] == units
  {
    assert a + (b + (c + units)) == a + b + c + units;
  }

  /** Nothing may follow the unit. */
  lemma PlainRejects(lead: string, numeral: string, n: int, gap: string, units: string, rest: string)
    requires AllBlank(lead) && Numeral(numeral, n) && UnitWord(units) && Separates(gap, units)
    requires rest != "" && StopsAt(rest, Unit)
    ensures SimpleFields(lead + (numeral + (gap + (units + rest)))) == None
  {
    hide Scan, UnitWord, Lowered, SimpleFields, Numeral, AllBlank, PlainFormat, Separates, StopsAt;
    PlainScanned(lead, numeral, n, gap, units, rest, |lead| + |numeral|);
    TextStart(lead, numeral, n, gap + (units + rest));
    NotQuoted(lead + (numeral + (gap + (units + rest))));
  }

  /** "'C U'" */
  lemma QuotedFields(lead: string, numeral: string, n: int, gap: string, units: string)
    requires AllBlank(lead) && Numeral(numeral, n) && UnitWord(units) && Separates(gap, units)
    ensures SimpleFields("'" + (lead + (numeral + (gap + (units + "'"))))) == Some((n, Lowered(units)))
  {
    hide Scan, UnitWord, Lowered, Numeral, AllBlank, QuotedFormat, QuotedCountFormat, PlainFormat, Separates, FieldsBy;
    QuotedScanned(lead, numeral, n, gap, units, 1 + |lead| + |numeral|);
    var s, start := "'" + (lead + (numeral + (gap + (units + "'")))), 1 + |lead| + |numeral| + |gap|;
    UnitsBeforeQuote(lead, numeral, gap, units);
    FieldsFrom(QuotedFormat(), 2, s, n, [start, start + |units|, start + |units| + 1], units);
  }

  lemma UnitsBeforeQuote(lead: string, numeral: string, gap: string, units: string)
    ensures var s, start := "'" + (lead + (numeral + (gap + (units + "'")))), 1 + |lead| + |numeral| + |gap|;
            |s| == start + |units| + 1 && s[start..start + |units|] == units
  {
    var s, before := "'" + (lead + (numeral + (gap + (units + "'")))), "'" + lead + numeral + gap;
    assert s == before + (units + "'");
  }

  lemma QuotedScanned(lead: string, numeral: string, n: int, gap: string, units: string, at: nat)
    requires AllBlank(lead) && Numeral(numeral, n) && UnitWord(units) && Separates(gap, units)
    requires at == 1 + |lead| + |numeral|
    ensures Scan(QuotedFormat(), "'" + (lead + (numeral + (gap + (units + "'")))), 0, Nothing()) ==
            Scanned([n], [], [at + |gap|, at + |gap| + |units|, at + |gap| + |units| + 1])
  {
    hide *;
    QuoteEndsUnit();
    GapStart(gap, units, "'");
    QuotedSteps(lead, numeral, n, gap, units, gap + (units + "'"), at);
  }

  lemma QuotedSteps(lead: string, numeral: string, n: int, gap: string, units: string, tail: string, at: nat)
    requires AllBlank(lead) && Numeral(numeral, n) && UnitWord(units) && AllBlank(gap) && StopsAt("'", Unit)
    requires tail == gap + (units + "'") && StopsAt(tail, Digit) && at == 1 + |lead| + |numeral|
    ensures Scan(QuotedFormat(), "'" + (lead + (numeral + tail)), 0, Nothing()) ==
            Scanned([n], [], [at + |gap|, at + |gap| + |units|, at + |gap| + |units| + 1])
  {
    hide *;
    QuotedShape();
    OpeningQuote(QuotedFormat(), lead + (numeral + tail));
    ScanCount(QuotedFormat().next, lead, numeral, n, tail, 1);
    ScanUnit(Literal('\'', Mark(End)), gap, units, "'", at, n);
    ClosingQuote(n, at + |gap|, at + |gap| + |units|);
  }

  lemma QuotedShape()
    ensures QuotedFormat() == Literal('\'', Integer(0, Space(Mark(Skip(Unit, 0, Mark(Literal('\'', Mark(End))))))))
    ensures Wordless(QuotedFormat())
  {
  }

  lemma OpeningQuote(f: Format, body: string)
    requires f.Literal? && f.c == '\''
    ensures Scan(f, "'" + body, 0, Nothing()) == Scan(f.next, body, 1, Nothing())
  {
    hide Scan;
    ScanLiteral(f, body, 0, Nothing());
  }

  lemma QuoteEndsUnit()
    ensures StopsAt("'", Unit)
  {
  }

  lemma ClosingQuote(n: int, a: nat, b: nat)
    ensures Scan(Literal('\'', Mark(End)), "'", b, Scanned([n], [], [a, b])) == Scanned([n], [], [a, b, b + 1])
  {
    hide Scan;
    var f, got := Literal('\'', Mark(End)), Scanned([n], [], [a, b]);
    assert "'" == [f.c] + "";
    ScanLiteral(f, "", b, got);
    ScanMark(f.next, "", b + 1, got);
    assert [a, b] + [b + 1] == [a, b, b + 1];
    ScanEnd("", b + 1, Scanned([n], [], [a, b, b + 1]));
  }

  /** "'C' U" */
  lemma QuotedCountFields(lead: string, numeral: string, n: int, gap: string, units: string)
    requires AllBlank(lead) && Numeral(numeral, n) && UnitWord(units) && AllBlank(gap)
    ensures SimpleFields("'" + (lead + (numeral + ("'" + (gap + units))))) == Some((n, Lowered(units)))
  {
    hide Scan, UnitWord, Lowered, Numeral, AllBlank, QuotedFormat, QuotedCountFormat, PlainFormat, FieldsBy;
    QuotedCountScanned(lead, numeral, n, gap, units, 1 + |lead| + |numeral|);
    FullyQuotedFails(lead, numeral, n, gap + units);
    UnitsAfter(lead, numeral, gap, units);
    var s, start := "'" + (lead + (numeral + ("'" + (gap + units)))), 2 + |lead| + |numeral| + |gap|;
    FieldsFrom(QuotedCountFormat(), 1, s, n, [start, start + |units|], units);
  }

  lemma UnitsAfter(lead: string, numeral: string, gap: string, units: string)
    ensures var s, start := "'" + (lead + (numeral + ("'" + (gap + units)))), 2 + |lead| + |numeral| + |gap|;
            |s| == start + |units| && s[start..start + |units|] == units
  {
    var s, before := "'" + (lead + (numeral + ("'" + (gap + units)))), "'" + lead + numeral + "'" + gap;
    assert s == before + units;
  }

  lemma QuotedCountScanned(lead: string, numeral: string, n: int, gap: string, units: string, at: nat)
    requires AllBlank(lead) && Numeral(numeral, n) && UnitWord(units) && AllBlank(gap)
    requires at == 1 + |lead| + |numeral|
    ensures Scan(QuotedCountFormat(), "'" + (lead + (numeral + ("'" + (gap + units)))), 0, Nothing()) ==
            Scanned([n], [], [at + 1 + |gap|, at + 1 + |gap| + |units|])
  {
    hide *;
    QuoteIsNoDigit(gap + units);
    QuotedCountSteps(lead, numeral, n, gap, units, "'" + (gap + units), at);
  }

  lemma QuotedCountSteps(lead: string, numeral: string, n: int, gap: string, units: string, tail: string, at: nat)
    requires AllBlank(lead) && Numeral(numeral, n) && UnitWord(units) && AllBlank(gap)
    requires tail == "'" + (gap + units) && StopsAt(tail, Digit) && at == 1 + |lead| + |numeral|
    ensures Scan(QuotedCountFormat(), "'" + (lead + (numeral + tail)), 0, Nothing()) ==
            Scanned([n], [], [at + 1 + |gap|, at + 1 + |gap| + |units|])
  {
    hide *;
    QuotedCountShape();
    OpeningQuote(QuotedCountFormat(), lead + (numeral + tail));
    ScanCount(QuotedCountFormat().next, lead, numeral, n, tail, 1);
    ScanQuote(Literal('\'', Space(Mark(Skip(Unit, 0, Mark(End))))), gap + units, at, n);
    UnitAtEnd(gap, units, at + 1, n);
  }

  lemma QuotedCountShape()
    ensures QuotedCountFormat() == Literal('\'', Integer(0, Literal('\'', Space(Mark(Skip(Unit, 0, Mark(End)))))))
    ensures Wordless(QuotedCountFormat())
  {
  }

  lemma ScanQuote(f: Format, rest: string, at: nat, n: int)
    requires f.Literal? && f.c == '\''
    ensures Scan(f, "'" + rest, at, Scanned([n], [], [])) == Scan(f.next, rest, at + 1, Scanned([n], [], []))
  {
    hide Scan;
    ScanLiteral(f, rest, at, Scanned([n], [], []));
  }

  lemma UnitAtEnd(gap: string, units: string, at: nat, n: int)
    requires AllBlank(gap) && UnitWord(units)
    ensures Scan(Space(Mark(Skip(Unit, 0, Mark(End)))), gap + units, at, Scanned([n], [], [])) ==
            Scanned([n], [], [at + |gap|, at + |gap| + |units|])
  {
    assert StopsAt("", Unit);
    hide *;
    assert units + "" == units;
    ScanUnit(End, gap, units, "", at, n);
    ScanEnd("", at + |gap| + |units|, Scanned([n], [], [at + |gap|, at + |gap| + |units|]));
  }

  lemma QuoteIsNoDigit(rest: string)
    ensures StopsAt("'" + rest, Digit) && StopsAt("'" + rest, Unit) && StopsAt("'" + rest, Blank)
  {
  }

  /** A quote right after the count does not match the format with the unit inside the quotes. */
  lemma FullyQuotedFails(lead: string, numeral: string, n: int, rest: string)
    requires AllBlank(lead) && Numeral(numeral, n)
    ensures FieldsBy(QuotedFormat(), 2, "'" + (lead + (numeral + ("'" + rest)))) == None
  {
    hide Scan, Numeral, AllBlank, StopsAt;
    var f, tail, at := QuotedFormat(), "'" + rest, 1 + |lead| + |numeral|;
    QuoteIsNoDigit(rest);
    OpeningQuote(f, lead + (numeral + tail));
    ScanCount(f.next, lead, numeral, n, tail, 1);
    var got := Scanned([n], [], []);
    ScanSpace(f.next.next, tail, at, got);
    ScanMark(f.next.next.next, tail, at, got);
    NoUnit(f.next.next.next.next, tail, at, got.(marks := [] + [at]));
  }

  lemma NoUnit(f: Format, s: string, at: nat, got: Scanned)
    requires f.Skip? && f.kind == Unit && StopsAt(s, Unit)
    ensures Scan(f, s, at, got) == got
  {
  }

  // ---- which texts yield anything ------------------------------------------------------------------

  /** A count was read: the text begins with white space and a numeral. */
  lemma CountRead(f: Format, s: string, at: nat) returns (lead: string, numeral: string, n: int, rest: string)
    requires f.Integer? && f.width == 0 && Scan(f, s, at, Nothing()).numbers != []
    ensures AllBlank(lead) && Numeral(numeral, n) && s == lead + (numeral + rest) && StopsAt(rest, Digit)
    ensures Scan(f, s, at, Nothing()) == Scan(f.next, rest, at + |lead| + |numeral|, Scanned([n], [], []))
  {
    hide Scan, Blanks, AllBlank, Numeral, StopsAt;
    var t;
    t, n, rest := FieldRead(f, s, at, Nothing());
    BlanksRun(t);
    lead, numeral := t[..Blanks(t)], t[Blanks(t)..];
    assert [] + [n] == [n];
    assert numeral != "" by {
      NumeralStart(numeral, n, "");
    }
    assert t == lead + numeral;
  }

  /** A unit was read: white space, the unit, and whatever follows. */
  lemma UnitRead(next: Format, s: string, at: nat, n: int) returns (gap: string, units: string, rest: string)
    requires |Scan(Space(Mark(Skip(Unit, 0, Mark(next)))), s, at, Scanned([n], [], [])).marks| >= 2
    ensures AllBlank(gap) && UnitWord(units) && s == gap + (units + rest)
    ensures Scan(Space(Mark(Skip(Unit, 0, Mark(next)))), s, at, Scanned([n], [], [])) ==
            Scan(next, rest, at + |gap| + |units|, Scanned([n], [], [at + |gap|, at + |gap| + |units|]))
  {
    gap := s[..Blanks(s)];
    var t := s[Blanks(s)..];
    BlanksRun(s);
    UnitRun(t);
    var k := Run(t, Unit, |t|);
    units, rest := t[..k], t[k..];
    hide *;
    SplitTwice(s, |gap|, k);
    if k == 0 {
      NoUnitRead(next, gap, t, at, n);
    } else {
      ScanUnit(next, gap, units, rest, at, n);
    }
  }

  lemma SplitTwice(s: string, i: nat, k: nat)
    requires i <= |s| && k <= |s| - i
    ensures s == s[..i] + s[i..] && s == s[..i] + (s[i..][..k] + s[i..][k..]) && |s[..i]| == i
  {
  }

  lemma UnitRun(t: string)
    ensures var k := Run(t, Unit, |t|);
            if k == 0 then StopsAt(t, Unit) else UnitWord(t[..k]) && StopsAt(t[k..], Unit)
  {
  }

  lemma NoUnitRead(next: Format, gap: string, t: string, at: nat, n: int)
    requires AllBlank(gap) && StopsAt(t, Blank) && StopsAt(t, Unit)
    ensures |Scan(Space(Mark(Skip(Unit, 0, Mark(next)))), gap + t, at, Scanned([n], [], [])).marks| == 1
  {
    hide Scan, AllBlank, StopsAt;
    var f, got := Space(Mark(Skip(Unit, 0, Mark(next)))), Scanned([n], [], []);
    ScanBlanks(f, gap, t, at, got);
    ScanMark(f.next, t, at + |gap|, got);
    NoUnit(f.next.next, t, at + |gap|, got.(marks := got.marks + [at + |gap|]));
  }

  lemma ReadBy(f: Format, last: nat, s: string, n: int, u: string)
    requires last >= 1 && FieldsBy(f, last, s) == Some((n, u)) && Wordless(f)
    ensures var sc := Scan(f, s, 0, Nothing());
            && |sc.marks| > last && sc.marks[last] == |s| && sc.numbers == [n]
            && sc.marks[0] <= sc.marks[1] <= |s| && u == Lowered(s[sc.marks[0]..sc.marks[1]])
  {
    MarksAscend(f, s, 0, Nothing());
    NoWords(f, s, 0, Nothing());
    hide Scan, Lowered;
  }

  lemma PlainRead(s: string, n: int, u: string) returns (lead: string, numeral: string, gap: string, units: string)
    requires FieldsBy(PlainFormat(), 1, s) == Some((n, u))
    ensures AllBlank(lead) && Numeral(numeral, n) && AllBlank(gap) && UnitWord(units) && u == Lowered(units)
    ensures s == lead + (numeral + (gap + units)) && StopsAt(gap + units, Digit)
  {
    hide *;
    PlainShape();
    ReadBy(PlainFormat(), 1, s, n, u);
    var end, i, at;
    lead, numeral, gap, units, end, i, at := PlainParts(s);
    NothingLeft(s, lead, numeral, gap, units, end, at);
  }

  lemma PlainParts(s: string)
    returns (lead: string, numeral: string, gap: string, units: string, end: string, n: int, at: nat)
    requires |Scan(PlainFormat(), s, 0, Nothing()).marks| >= 2 && Scan(PlainFormat(), s, 0, Nothing()).numbers != []
    ensures AllBlank(lead) && Numeral(numeral, n) && AllBlank(gap) && UnitWord(units) && at == |lead| + |numeral|
    ensures s == lead + (numeral + (gap + (units + end))) && StopsAt(gap + (units + end), Digit)
    ensures Scan(PlainFormat(), s, 0, Nothing()) == Scanned([n], [], [at + |gap|, at + |gap| + |units|])
  {
    hide *;
    PlainShape();
    var rest;
    lead, numeral, n, rest := CountRead(PlainFormat(), s, 0);
    at := |lead| + |numeral|;
    gap, units, end := UnitRead(End, rest, at, n);
    ScanEnd(end, at + |gap| + |units|, Scanned([n], [], [at + |gap|, at + |gap| + |units|]));
  }

  lemma NothingLeft(s: string, lead: string, numeral: string, gap: string, units: string, end: string, at: nat)
    requires s == lead + (numeral + (gap + (units + end))) && at == |lead| + |numeral|
    requires |s| == at + |gap| + |units|
    ensures end == "" && units + end == units && s[at + |gap|..at + |gap| + |units|] == units
  {
    assert s == lead + numeral + gap + (units + end);
  }

  /** A quote was read. */
  lemma QuoteRead(f: Format, s: string, at: nat, got: Scanned)
    requires f.Literal? && f.c == '\'' && Scan(f, s, at, got) != got
    ensures s != "" && s == "'" + s[1..] && Scan(f, s, at, got) == Scan(f.next, s[1..], at + 1, got)
  {
  }

  lemma QuotedRead(s: string, n: int, u: string) returns (lead: string, numeral: string, gap: string, units: string)
    requires FieldsBy(QuotedFormat(), 2, s) == Some((n, u))
    ensures AllBlank(lead) && Numeral(numeral, n) && AllBlank(gap) && UnitWord(units) && u == Lowered(units)
    ensures s == "'" + (lead + (numeral + (gap + (units + "'")))) && StopsAt(gap + (units + "'"), Digit)
  {
    hide *;
    QuotedShape();
    ReadBy(QuotedFormat(), 2, s, n, u);
    var end, i, at;
    lead, numeral, gap, units, end, i, at := QuotedParts(s);
    NothingLeftQuoted(s, lead, numeral, gap, units, end, at);
  }

  lemma QuotedParts(s: string)
    returns (lead: string, numeral: string, gap: string, units: string, end: string, n: int, at: nat)
    requires |Scan(QuotedFormat(), s, 0, Nothing()).marks| >= 3 && Scan(QuotedFormat(), s, 0, Nothing()).numbers != []
    ensures AllBlank(lead) && Numeral(numeral, n) && AllBlank(gap) && UnitWord(units) && at == 1 + |lead| + |numeral|
    ensures s == "'" + (lead + (numeral + (gap + (units + ("'" + end)))))
    ensures StopsAt(gap + (units + ("'" + end)), Digit)
    ensures Scan(QuotedFormat(), s, 0, Nothing()) ==
            Scanned([n], [], [at + |gap|, at + |gap| + |units|, at + |gap| + |units| + 1])
  {
    NothingRead();
    hide *;
    QuotedShape();
    QuoteRead(QuotedFormat(), s, 0, Nothing());
    var rest, rear;
    lead, numeral, n, rest := CountRead(QuotedFormat().next, s[1..], 1);
    at := 1 + |lead| + |numeral|;
    var close := Literal('\'', Mark(End));
    gap, units, rear := UnitRead(close, rest, at, n);
    var b := at + |gap| + |units|;
    QuoteRead(close, rear, b, Scanned([n], [], [at + |gap|, b]));
    end := rear[1..];
    MarkRead(end, n, at + |gap|, b);
  }

  lemma NothingRead()
    ensures Nothing().numbers == [] && Nothing().words == [] && Nothing().marks == []
  {
  }

  lemma MarkRead(end: string, n: int, a: nat, b: nat)
    ensures Scan(Mark(End), end, b + 1, Scanned([n], [], [a, b])) == Scanned([n], [], [a, b, b + 1])
  {
    assert [a, b] + [b + 1] == [a, b, b + 1];
  }

  lemma NothingLeftQuoted(s: string, lead: string, numeral: string, gap: string, units: string, end: string, at: nat)
    requires s == "'" + (lead + (numeral + (gap + (units + ("'" + end))))) && at == 1 + |lead| + |numeral|
    requires |s| == at + |gap| + |units| + 1
    ensures end == "" && "'" + end == "'" && s[at + |gap|..at + |gap| + |units|] == units
  {
    assert s == "'" + lead + numeral + gap + (units + ("'" + end));
  }

  lemma QuotedCountRead(s: string, n: int, u: string)
    returns (lead: string, numeral: string, gap: string, units: string)
    requires FieldsBy(QuotedCountFormat(), 1, s) == Some((n, u))
    ensures AllBlank(lead) && Numeral(numeral, n) && AllBlank(gap) && UnitWord(units) && u == Lowered(units)
    ensures s == "'" + (lead + (numeral + ("'" + (gap + units))))
  {
    hide *;
    QuotedCountShape();
    ReadBy(QuotedCountFormat(), 1, s, n, u);
    var end, i, at;
    lead, numeral, gap, units, end, i, at := QuotedCountParts(s);
    NothingLeftAfterCount(s, lead, numeral, gap, units, end, at);
  }

  lemma QuotedCountParts(s: string)
    returns (lead: string, numeral: string, gap: string, units: string, end: string, n: int, at: nat)
    requires |Scan(QuotedCountFormat(), s, 0, Nothing()).marks| >= 2
    requires Scan(QuotedCountFormat(), s, 0, Nothing()).numbers != []
    ensures AllBlank(lead) && Numeral(numeral, n) && AllBlank(gap) && UnitWord(units) && at == 1 + |lead| + |numeral|
    ensures s == "'" + (lead + (numeral + ("'" + (gap + (units + end)))))
    ensures Scan(QuotedCountFormat(), s, 0, Nothing()) ==
            Scanned([n], [], [at + 1 + |gap|, at + 1 + |gap| + |units|])
  {
    NothingRead();
    hide *;
    QuotedCountShape();
    QuoteRead(QuotedCountFormat(), s, 0, Nothing());
    var rest;
    lead, numeral, n, rest := CountRead(QuotedCountFormat().next, s[1..], 1);
    at := 1 + |lead| + |numeral|;
    QuoteRead(QuotedCountFormat().next.next, rest, at, Scanned([n], [], []));
    gap, units, end := UnitRead(End, rest[1..], at + 1, n);
    var b := at + 1 + |gap| + |units|;
    ScanEnd(end, b, Scanned([n], [], [at + 1 + |gap|, b]));
  }

  lemma NothingLeftAfterCount(s: string, lead: string, numeral: string, gap: string, units: string, end: string,
                              at: nat)
    requires s == "'" + (lead + (numeral + ("'" + (gap + (units + end))))) && at == 1 + |lead| + |numeral|
    requires |s| == at + 1 + |gap| + |units|
    ensures end == "" && units + end == units && s[at + 1 + |gap|..at + 1 + |gap| + |units|] == units
  {
    assert s == "'" + lead + numeral + "'" + gap + (units + end);
  }

  lemma GapSeparates(gap: string, units: string, rest: string)
    requires AllBlank(gap) && UnitWord(units) && StopsAt(gap + (units + rest), Digit)
    ensures Separates(gap, units)
  {
    assert (gap + (units + rest))[0] == if gap == "" then units[0] else gap[0];
  }

  /** The simple format takes exactly the three quotings, and yields the count and the lowered unit. */
  lemma SimpleFieldsExactly(s: string, n: int, u: string)
    ensures SimpleFields(s) == Some((n, u)) <==>
            exists lead, numeral, gap, units ::
              SimpleText(s, lead, numeral, gap, units) && Numeral(numeral, n) && u == Lowered(units)
  {
    hide Numeral, Lowered, SimpleText, SimpleFields;
    if SimpleFields(s) == Some((n, u)) {
      var lead, numeral, gap, units := SimpleRead(s, n, u);
    }
    forall lead, numeral, gap, units |
      SimpleText(s, lead, numeral, gap, units) && Numeral(numeral, n) && u == Lowered(units)
      ensures SimpleFields(s) == Some((n, u))
    {
      SimpleYields(s, lead, numeral, n, gap, units);
    }
  }

  lemma SimpleYields(s: string, lead: string, numeral: string, n: int, gap: string, units: string)
    requires SimpleText(s, lead, numeral, gap, units) && Numeral(numeral, n)
    ensures SimpleFields(s) == Some((n, Lowered(units)))
  {
    hide Numeral, Lowered, SimpleFields, UnitWord, AllBlank;
    if PlainText(s, lead, numeral, gap, units) {
      PlainFields(lead, numeral, n, gap, units);
    } else if QuotedText(s, lead, numeral, gap, units) {
      QuotedFields(lead, numeral, n, gap, units);
    } else {
      QuotedCountFields(lead, numeral, n, gap, units);
    }
  }

  lemma SimpleRead(s: string, n: int, u: string) returns (lead: string, numeral: string, gap: string, units: string)
    requires SimpleFields(s) == Some((n, u))
    ensures SimpleText(s, lead, numeral, gap, units) && Numeral(numeral, n) && u == Lowered(units)
  {
    hide Numeral, Lowered, FieldsBy, UnitWord, AllBlank, StopsAt, Separates, QuotedFormat, QuotedCountFormat,
      PlainFormat;
    if FieldsBy(QuotedFormat(), 2, s).Some? {
      lead, numeral, gap, units := QuotedRead(s, n, u);
      GapSeparates(gap, units, "'");
    } else if FieldsBy(QuotedCountFormat(), 1, s).Some? {
      lead, numeral, gap, units := QuotedCountRead(s, n, u);
    } else {
      lead, numeral, gap, units := PlainRead(s, n, u);
      assert units + "" == units;
      GapSeparates(gap, units, "");
    }
  }
}
