/** The sscanf() directives that types/IntervalParser.cpp uses, after section 7.21.6.2 of ISO C11. */
module Scanner {
  import opened Decimal

  predicate IsBlank(c: char) {
    c == ' ' || c == '\t' || c == '\n' || c == '\U{B}' || c == '\U{C}' || c == '\r'
  }

  /** The sets of characters that directives run over. */
  datatype Kind = Blank | NonBlank | Digit | Hyphen | Unit

  predicate In(c: char, kind: Kind) {
    match kind
    case Blank => IsBlank(c)
    case NonBlank => !IsBlank(c)
    case Digit => IsDigit(c)
    case Hyphen => c == '-'
    case Unit => c != '\'' && !IsBlank(c)
  }

  /** A format: directives in order. A width of 0 means that no width is given. */
  datatype Format =
    | End
    | Space(next: Format)                              // white space
    | Literal(c: char, next: Format)                   // an ordinary character
    | Integer(width: nat, next: Format)                // %d, %2d, %ld
    | Word(width: nat, next: Format)                   // %4s
    | Skip(kind: Kind, width: nat, next: Format)     // %*[...] and %*1[...]
    | Mark(next: Format)                               // %n

  /** What was assigned, in order: integers, words, and the positions reported by %n. */
  datatype Scanned = Scanned(numbers: seq<int>, words: seq<string>, marks: seq<nat>) {
    // sscanf's result; where sscanf returns EOF this is 0, and no caller tells them apart
    function Matched(): nat {
      |numbers| + |words|
    }
  }

  /** How many of the first characters of s, up to limit, are of the kind. */
  function Run(s: string, kind: Kind, limit: nat): (k: nat)
    ensures k <= |s| && k <= limit
    ensures forall i :: 0 <= i < k ==> In(s[i], kind)
    ensures k == |s| || k == limit || !In(s[k], kind)
  {
    if s == "" || limit == 0 || !In(s[0], kind) then 0 else 1 + Run(s[1..], kind, limit - 1)
  }

  function Limit(width: nat, s: string): (limit: nat)
    ensures limit <= |s|
  {
    if width == 0 || |s| < width then |s| else width
  }

  function Blanks(s: string): (k: nat)
    ensures k <= |s|
  {
    Run(s, Blank, |s|)
  }

  /** A number read and the characters it took; none if there was no number. */
  datatype Reading = Reading(number: int, taken: nat)

  /** strtol on the first characters of t, at most `limit` of them. */
  function ReadNumber(t: string, limit: nat): (r: Reading)
    requires limit <= |t|
    ensures r.taken <= limit
  {
    var sign: nat := if limit > 0 && (t[0] == '-' || t[0] == '+') then 1 else 0;
    var k := Run(t[sign..], Digit, limit - sign);
    if k == 0 then Reading(0, 0)
    else
      var magnitude: int := ValueOf(t[sign..sign + k]);
      Reading(if sign == 1 && t[0] == '-' then -magnitude else magnitude, sign + k)
  }

  function Scan(f: Format, s: string, at: nat, got: Scanned): Scanned {
    match f
    case End => got
    case Space(next) => Scan(next, s[Blanks(s)..], at + Blanks(s), got)
    case Literal(c, next) => if s == "" || s[0] != c then got else Scan(next, s[1..], at + 1, got)
    case Integer(width, next) =>
      var t := s[Blanks(s)..];
      var r := ReadNumber(t, Limit(width, t));
      if r.taken == 0 then got
      else Scan(next, t[r.taken..], at + Blanks(s) + r.taken, got.(numbers := got.numbers + [r.number]))
    case Word(width, next) =>
      var t := s[Blanks(s)..];
      var k := Run(t, NonBlank, Limit(width, t));
      if k == 0 then got
      else Scan(next, t[k..], at + Blanks(s) + k, got.(words := got.words + [t[..k]]))
    case Skip(kind, width, next) =>
      var k := Run(s, kind, Limit(width, s));
      if k == 0 then got else Scan(next, s[k..], at + k, got)
    case Mark(next) => Scan(next, s, at, got.(marks := got.marks + [at]))
  }

  function Nothing(): Scanned {
    Scanned([], [], [])
  }

  // ---- one directive -----------------------------------------------------------------------------

  lemma SpaceTaken(f: Format, s: string, at: nat, got: Scanned)
    requires f.Space?
    ensures Scan(f, s, at, got) == Scan(f.next, s[Blanks(s)..], at + Blanks(s), got)
  {
    hide Blanks;
  }

  lemma SpaceStep(f: Format, s: string, b: nat, t: string, at: nat, got: Scanned)
    requires b == Blanks(s) && t == s[b..]
    ensures Scan(Space(f), s, at, got) == Scan(f, t, at + b, got) && Blanks(t) == 0
  {
    SpaceTaken(Space(f), s, at, got);
    BlanksRun(s);
    hide Scan;
    RunIs(t, Blank, |t|, 0);
  }

  lemma IntegerStep(f: Format, s: string, b: nat, t: string, at: nat, got: Scanned)
    requires f.Integer? && b == Blanks(s) && t == s[b..]
    ensures var r := ReadNumber(t, Limit(f.width, t));
            Scan(f, s, at, got) ==
            if r.taken == 0 then got
            else Scan(f.next, t[r.taken..], at + b + r.taken, got.(numbers := got.numbers + [r.number]))
  {
    hide Run, ReadNumber, Limit, Blanks;
  }

  /** One step of a word directive. */
  lemma WordStep(width: nat, next: Format, u: string, at: nat, got: Scanned, v: string, k: nat)
    requires v == u[Blanks(u)..] && k == Run(v, NonBlank, Limit(width, v))
    ensures Scan(Word(width, next), u, at, got) ==
            if k == 0 then got else Scan(next, v[k..], at + Blanks(u) + k, got.(words := got.words + [v[..k]]))
  {
    hide Run, Limit, Blanks;
  }

  lemma SkipStep(f: Format, s: string, at: nat, got: Scanned, k: nat)
    requires f.Skip? && k == Run(s, f.kind, Limit(f.width, s))
    ensures Scan(f, s, at, got) == if k == 0 then got else Scan(f.next, s[k..], at + k, got)
  {
    hide Run, Limit;
  }

  lemma LiteralStep(f: Format, s: string, at: nat, got: Scanned)
    requires f.Literal?
    ensures Scan(f, s, at, got) == if s == "" || s[0] != f.c then got else Scan(f.next, s[1..], at + 1, got)
  {
  }

  // ---- reading one field ---------------------------------------------------------------------

  lemma {:induction false} RunIs(s: string, kind: Kind, limit: nat, k: nat)
    requires k <= |s| && k <= limit && forall i :: 0 <= i < k ==> In(s[i], kind)
    requires k == limit || k == |s| || !In(s[k], kind)
    ensures Run(s, kind, limit) == k
  {
    if k > 0 {
      assert In(s[0], kind);
      RunIs(s[1..], kind, limit - 1, k - 1);
    }
  }

  lemma ScanMark(f: Format, rest: string, at: nat, got: Scanned)
    requires f.Mark?
    ensures Scan(f, rest, at, got) == Scan(f.next, rest, at, got.(marks := got.marks + [at]))
  {
  }

  lemma ScanEnd(rest: string, at: nat, got: Scanned)
    ensures Scan(End, rest, at, got) == got
  {
  }

  /** An ordinary character that is not there ends the scan. */
  lemma ScanFails(f: Format, rest: string, at: nat, got: Scanned)
    requires f.Literal? && (rest == "" || rest[0] != f.c)
    ensures Scan(f, rest, at, got) == got
  {
  }

  /** A character that is not of the kind ends the run. */
  lemma {:induction false} RunStops(s: string, kind: Kind, limit: nat, j: nat)
    requires j < |s| && !In(s[j], kind)
    ensures Run(s, kind, limit) <= j
  {
    if j > 0 && limit > 0 {
      RunStops(s[1..], kind, limit - 1, j - 1);
    }
  }

  predicate StopsAt(rest: string, kind: Kind) {
    rest == "" || !In(rest[0], kind)
  }

  /** s is a numeral for n. */
  predicate Denotes(s: string, n: int) {
    s != "" && AllDigits(s) && ValueOf(s) == n
  }

  /** %d on digits. */
  lemma ScanDigits(f: Format, ds: string, n: int, rest: string, at: nat, got: Scanned)
    requires f.Integer? && Denotes(ds, n) && (f.width == 0 || |ds| <= f.width)
    requires |ds| == f.width || StopsAt(rest, Digit)
    ensures Scan(f, ds + rest, at, got) == Scan(f.next, rest, at + |ds|, got.(numbers := got.numbers + [n]))
  {
    ReadDigits(ds, n, rest, Limit(f.width, ds + rest));
    hide ValueOf, ReadNumber, Run, AllDigits, IsBlank, IsDigit, StopsAt;
    assert (ds + rest)[0..] == ds + rest && (ds + rest)[|ds|..] == rest;
  }

  lemma ReadDigits(ds: string, n: int, rest: string, limit: nat)
    requires Denotes(ds, n) && |ds| <= limit <= |ds + rest| && (|ds| == limit || StopsAt(rest, Digit))
    ensures ReadNumber(ds + rest, limit) == Reading(n, |ds|) && Blanks(ds + rest) == 0
  {
    hide ValueOf;
    var s := ds + rest;
    assert IsDigit(s[0]);
    RunIs(s, Blank, |s|, 0);
    RunIs(s, Digit, limit, |ds|);
    assert s[0..] == s && s[0..0 + |ds|] == ds;
  }

  predicate AllBlank(s: string) {
    forall i :: 0 <= i < |s| ==> IsBlank(s[i])
  }

  /** s is n in digits, with an optional sign. */
  predicate Numeral(s: string, n: int) {
    || Denotes(s, n)
    || (s != "" && s[0] == '-' && Denotes(s[1..], -n))
    || (s != "" && s[0] == '+' && Denotes(s[1..], n))
  }

  /** t is what %d takes to read n: white space, then a numeral of at most `width` characters. */
  predicate IsField(t: string, width: nat, n: int) {
    Numeral(t[Blanks(t)..], n) && (width == 0 || |t| - Blanks(t) <= width)
  }

  /** %d takes white space, an optional sign and the digits after it, as far as the width goes. */
  lemma ScanField(f: Format, t: string, n: int, rest: string, at: nat, got: Scanned)
    requires f.Integer? && IsField(t, f.width, n)
    requires |t| - Blanks(t) == f.width || StopsAt(rest, Digit)
    ensures Scan(f, t + rest, at, got) == Scan(f.next, rest, at + |t|, got.(numbers := got.numbers + [n]))
  {
    FieldBefore(t, f.width, n, rest);
    hide ReadNumber, Run, AllBlank, Numeral, IsBlank, StopsAt, Limit;
    assert (t + rest)[Blanks(t)..][|t| - Blanks(t)..] == rest;
  }

  lemma FieldBefore(t: string, width: nat, n: int, rest: string)
    requires IsField(t, width, n) && (|t| - Blanks(t) == width || StopsAt(rest, Digit))
    ensures var u := (t + rest)[Blanks(t)..];
            Blanks(t + rest) == Blanks(t) && ReadNumber(u, Limit(width, u)) == Reading(n, |t| - Blanks(t))
  {
    var lead, numeral := t[..Blanks(t)], t[Blanks(t)..];
    hide ReadNumber, Run, AllBlank, Numeral, IsBlank, StopsAt, Blanks;
    BlanksRun(t);
    NumeralStart(numeral, n, rest);
    BlanksBefore(lead, numeral + rest);
    SplitAt(t, rest, Blanks(t));
    hide Limit;
    FieldLimit(width, numeral, rest);
    ReadNumeral(numeral, n, rest, Limit(width, numeral + rest));
  }

  lemma FieldLimit(width: nat, numeral: string, rest: string)
    requires numeral != "" && (width == 0 || |numeral| <= width)
    requires |numeral| == width || StopsAt(rest, Digit)
    ensures var limit := Limit(width, numeral + rest);
            |numeral| <= limit && (|numeral| == limit || StopsAt(rest, Digit))
  {
  }

  lemma SplitAt(t: string, rest: string, b: nat)
    requires b <= |t|
    ensures t + rest == t[..b] + (t[b..] + rest) && (t + rest)[b..] == t[b..] + rest && |t[b..]| == |t| - b
  {
  }

  /** A number was read: the text begins with a field. */
  lemma FieldRead(f: Format, s: string, at: nat, got: Scanned) returns (t: string, n: int, rest: string)
    requires f.Integer? && Scan(f, s, at, got) != got
    ensures IsField(t, f.width, n) && s == t + rest
    ensures |t| - Blanks(t) == f.width || StopsAt(rest, Digit)
    ensures Scan(f, s, at, got) == Scan(f.next, rest, at + |t|, got.(numbers := got.numbers + [n]))
  {
    hide *;
    var b := Blanks(s);
    var u := s[b..];
    var r := ReadNumber(u, Limit(f.width, u));
    IntegerStep(f, s, b, u, at, got);
    FieldCut(f.width, s, b, u, r);
    t, n, rest := s[..b + r.taken], r.number, u[r.taken..];
  }

  lemma FieldCut(width: nat, s: string, b: nat, u: string, r: Reading)
    requires b == Blanks(s) && u == s[b..] && r == ReadNumber(u, Limit(width, u)) && r.taken != 0
    ensures var t := s[..b + r.taken];
            && IsField(t, width, r.number) && s == t + u[r.taken..] && |t| == b + r.taken
            && (|t| - Blanks(t) == width || StopsAt(u[r.taken..], Digit))
  {
    hide ReadNumber, Run, IsBlank, AllBlank, Numeral, StopsAt, Limit, Blanks;
    NumberRead(u, Limit(width, u));
    FieldTaken(s, b, r.taken, r.number);
    TakenWithin(width, u, r.taken);
    if r.taken == |u| {
      NothingStops();
    }
  }

  lemma NothingStops()
    ensures StopsAt("", Digit)
  {
  }

  lemma TakenWithin(width: nat, u: string, k: nat)
    requires k <= Limit(width, u)
    ensures width == 0 || k <= width
    ensures k == Limit(width, u) ==> k == width || k == |u|
  {
  }

  lemma FieldTaken(s: string, b: nat, k: nat, n: int)
    requires b == Blanks(s) && 0 < k <= |s| - b && Numeral(s[b..][..k], n)
    ensures var t := s[..b + k]; Blanks(t) == b && t[Blanks(t)..] == s[b..][..k]
  {
    var numeral := s[b..][..k];
    BlanksRun(s);
    NumeralStart(numeral, n, "");
    assert s[..b + k] == s[..b] + numeral && numeral + "" == numeral;
    BlanksBefore(s[..b], numeral);
  }

  lemma BlanksRun(s: string)
    ensures AllBlank(s[..Blanks(s)]) && StopsAt(s[Blanks(s)..], Blank)
  {
    forall i | 0 <= i < Blanks(s)
      ensures IsBlank(s[i])
    {
      assert In(s[i], Blank);
    }
  }

  lemma NumberRead(t: string, limit: nat)
    requires limit <= |t|
    ensures var r := ReadNumber(t, limit);
            r.taken != 0 ==> Numeral(t[..r.taken], r.number) && (r.taken == limit || StopsAt(t[r.taken..], Digit))
  {
    hide ValueOf;
    var r := ReadNumber(t, limit);
    if r.taken != 0 {
      var sign: nat := if t[0] == '-' || t[0] == '+' then 1 else 0;
      var k := Run(t[sign..], Digit, limit - sign);
      var ds := t[sign..sign + k];
      assert forall i :: 0 <= i < k ==> In(t[sign..][i], Digit);
      assert forall i :: 0 <= i < k ==> ds[i] == t[sign..][i];
      assert t[..r.taken][sign..] == ds;
      assert r.taken < |t| ==> t[r.taken] == t[sign..][k];
    }
  }

  lemma NumeralStart(numeral: string, n: int, rest: string)
    requires Numeral(numeral, n)
    ensures numeral != "" && !IsBlank(numeral[0]) && numeral[0] != '\'' && StopsAt(numeral + rest, Blank)
  {
    hide ValueOf;
  }

  lemma BlanksBefore(lead: string, rest: string)
    requires AllBlank(lead) && StopsAt(rest, Blank)
    ensures Blanks(lead + rest) == |lead|
  {
    RunIs(lead + rest, Blank, |lead + rest|, |lead|);
  }

  lemma ReadNumeral(numeral: string, n: int, rest: string, limit: nat)
    requires Numeral(numeral, n) && |numeral| <= limit <= |numeral + rest|
    requires |numeral| == limit || StopsAt(rest, Digit)
    ensures ReadNumber(numeral + rest, limit) == Reading(n, |numeral|)
  {
    hide ValueOf;
    var s := numeral + rest;
    if Denotes(numeral, n) {
      ReadDigits(numeral, n, rest, limit);
    } else {
      var ds := numeral[1..];
      assert s[1..] == ds + rest;
      RunIs(ds + rest, Digit, limit - 1, |ds|);
      assert s[1..1 + |ds|] == ds;
    }
  }

  lemma ScanLiteral(f: Format, rest: string, at: nat, got: Scanned)
    requires f.Literal?
    ensures Scan(f, [f.c] + rest, at, got) == Scan(f.next, rest, at + 1, got)
  {
    assert ([f.c] + rest)[1..] == rest;
  }

  /** One blank, or none, as white space. */
  lemma ScanSpace(f: Format, rest: string, at: nat, got: Scanned)
    requires f.Space? && StopsAt(rest, Blank)
    ensures Scan(f, rest, at, got) == Scan(f.next, rest, at, got)
    ensures Scan(f, " " + rest, at, got) == Scan(f.next, rest, at + 1, got)
  {
    var s := " " + rest;
    RunIs(rest, Blank, |rest|, 0);
    RunIs(s, Blank, |s|, 1);
    assert rest[0..] == rest && s[1..] == rest;
  }

  /** White space takes any number of blanks. */
  lemma ScanBlanks(f: Format, gap: string, rest: string, at: nat, got: Scanned)
    requires f.Space? && AllBlank(gap) && StopsAt(rest, Blank)
    ensures Scan(f, gap + rest, at, got) == Scan(f.next, rest, at + |gap|, got)
  {
    BlanksBefore(gap, rest);
    assert (gap + rest)[|gap|..] == rest;
  }

  lemma ScanWord(f: Format, w: string, rest: string, at: nat, got: Scanned)
    requires f.Word? && w != "" && |w| <= f.width && forall i :: 0 <= i < |w| ==> !IsBlank(w[i])
    requires |w| == f.width || StopsAt(rest, NonBlank)
    ensures Scan(f, w + rest, at, got) == Scan(f.next, rest, at + |w|, got.(words := got.words + [w]))
  {
    var s := w + rest;
    assert !IsBlank(s[0]);
    RunIs(s, Blank, |s|, 0);
    assert s[0..] == s;
    RunIs(s, NonBlank, Limit(f.width, s), |w|);
    assert s[..|w|] == w && s[|w|..] == rest;
  }

  lemma ScanSkip(f: Format, w: string, rest: string, at: nat, got: Scanned)
    requires f.Skip? && f.width == 0 && w != "" && forall i :: 0 <= i < |w| ==> In(w[i], f.kind)
    requires StopsAt(rest, f.kind)
    ensures Scan(f, w + rest, at, got) == Scan(f.next, rest, at + |w|, got)
  {
    var s := w + rest;
    RunIs(s, f.kind, |s|, |w|);
    assert s[|w|..] == rest;
  }

  // ---- positions ---------------------------------------------------------------------------------

  /** Positions reported never go back, and stay within what was read. */
  predicate Ascending(marks: seq<nat>, end: nat) {
    && (forall i, j :: 0 <= i < j < |marks| ==> marks[i] <= marks[j])
    && (forall i :: 0 <= i < |marks| ==> marks[i] <= end)
  }

  lemma {:induction false} MarksAscend(f: Format, s: string, at: nat, got: Scanned)
    requires Ascending(got.marks, at)
    ensures Ascending(Scan(f, s, at, got).marks, at + |s|)
    decreases f
  {
    hide Scan, ReadNumber, Run, Limit, Blanks;
    match f
    case End => ScanEnd(s, at, got);
    case Space(next) =>
      SpaceTaken(f, s, at, got);
      MarksAscend(next, s[Blanks(s)..], at + Blanks(s), got);
    case Literal(c, next) =>
      LiteralStep(f, s, at, got);
      if s != "" && s[0] == c {
        MarksAscend(next, s[1..], at + 1, got);
      }
    case Integer(width, next) =>
      var t := s[Blanks(s)..];
      IntegerStep(f, s, Blanks(s), t, at, got);
      var r := ReadNumber(t, Limit(width, t));
      if r.taken != 0 {
        MarksAscend(next, t[r.taken..], at + Blanks(s) + r.taken, got.(numbers := got.numbers + [r.number]));
      }
    case Word(width, next) =>
      var t := s[Blanks(s)..];
      var k := Run(t, NonBlank, Limit(width, t));
      WordStep(width, next, s, at, got, t, k);
      if k != 0 {
        MarksAscend(next, t[k..], at + Blanks(s) + k, got.(words := got.words + [t[..k]]));
      }
    case Skip(kind, width, next) =>
      var k := Run(s, kind, Limit(width, s));
      SkipStep(f, s, at, got, k);
      if k != 0 {
        MarksAscend(next, s[k..], at + k, got);
      }
    case Mark(next) =>
      ScanMark(f, s, at, got);
      MarksAscend(next, s, at, got.(marks := got.marks + [at]));
  }

  // ---- words ---------------------------------------------------------------------------------------

  predicate Wordless(f: Format) {
    match f
    case End => true
    case Word(_, _) => false
    case Space(next) => Wordless(next)
    case Literal(_, next) => Wordless(next)
    case Integer(_, next) => Wordless(next)
    case Skip(_, _, next) => Wordless(next)
    case Mark(next) => Wordless(next)
  }

  lemma {:induction false} NoWords(f: Format, s: string, at: nat, got: Scanned)
    requires Wordless(f)
    ensures Scan(f, s, at, got).words == got.words
    decreases f
  {
    hide Scan, ReadNumber, Run, Limit, Blanks;
    match f
    case End => ScanEnd(s, at, got);
    case Space(next) =>
      SpaceTaken(f, s, at, got);
      NoWords(next, s[Blanks(s)..], at + Blanks(s), got);
    case Literal(c, next) =>
      LiteralStep(f, s, at, got);
      if s != "" && s[0] == c {
        NoWords(next, s[1..], at + 1, got);
      }
    case Integer(width, next) =>
      var t := s[Blanks(s)..];
      IntegerStep(f, s, Blanks(s), t, at, got);
      var r := ReadNumber(t, Limit(width, t));
      if r.taken != 0 {
        NoWords(next, t[r.taken..], at + Blanks(s) + r.taken, got.(numbers := got.numbers + [r.number]));
      }
    case Skip(kind, width, next) =>
      var k := Run(s, kind, Limit(width, s));
      SkipStep(f, s, at, got, k);
      if k != 0 {
        NoWords(next, s[k..], at + k, got);
      }
    case Mark(next) =>
      ScanMark(f, s, at, got);
      NoWords(next, s, at, got.(marks := got.marks + [at]));
  }
}
