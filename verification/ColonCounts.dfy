/** How far a format of numbers and colons can get: past as many colons as it names. */
module ColonCounts {
  import opened Decimal
  import opened Scanner

  predicate NoColons(s: string) {
    forall i :: 0 <= i < |s| ==> s[i] != ':'
  }

  function Colons(s: string): nat {
    if s == "" then 0 else (if s[0] == ':' then 1 else 0) + Colons(s[1..])
  }

  lemma {:induction false} ColonsJoined(a: string, b: string)
    ensures Colons(a + b) == Colons(a) + Colons(b)
  {
    if a == "" {
      assert a + b == b;
    } else {
      assert (a + b)[1..] == a[1..] + b;
      ColonsJoined(a[1..], b);
    }
  }

  lemma {:induction false} NoColonsCounted(s: string)
    requires NoColons(s)
    ensures Colons(s) == 0
  {
    if s != "" {
      NoColonsCounted(s[1..]);
    }
  }

  /** Formats of numbers and ordinary characters. */
  predicate Numeric(f: Format) {
    match f
    case End => true
    case Space(next) => Numeric(next)
    case Literal(_, next) => Numeric(next)
    case Integer(_, next) => Numeric(next)
    case Word(_, _) => false
    case Skip(_, _, _) => false
    case Mark(next) => Numeric(next)
  }

  function ColonsIn(f: Format): nat
    requires Numeric(f)
  {
    match f
    case End => 0
    case Literal(c, next) => (if c == ':' then 1 else 0) + ColonsIn(next)
    case _ => ColonsIn(f.next)
  }

  lemma NumberTakes(t: string, limit: nat)
    requires limit <= |t|
    ensures var k := ReadNumber(t, limit).taken; forall i :: 0 <= i < k ==> !IsBlank(t[i]) && t[i] != ':'
  {
    var sign: nat := if limit > 0 && (t[0] == '-' || t[0] == '+') then 1 else 0;
    var k := Run(t[sign..], Digit, limit - sign);
    assert forall i :: sign <= i < sign + k ==> t[i] == t[sign..][i - sign] && In(t[sign..][i - sign], Digit);
  }

  /** A mark past the j characters just read is a mark past them and past some that follow. */
  predicate MarksFollow(marks: seq<nat>, had: nat, s: string, at: nat, most: nat) {
    |marks| >= had &&
    forall k :: had <= k < |marks| ==> at <= marks[k] <= at + |s| && Colons(s[..marks[k] - at]) <= most
  }

  lemma MarksPass(marks: seq<nat>, had: nat, s: string, j: nat, at: nat, most: nat, more: nat)
    requires j <= |s| && MarksFollow(marks, had, s[j..], at + j, most) && Colons(s[..j]) <= more
    ensures MarksFollow(marks, had, s, at, most + more)
  {
    forall k | had <= k < |marks|
      ensures at <= marks[k] <= at + |s| && Colons(s[..marks[k] - at]) <= most + more
    {
      var q := marks[k] - (at + j);
      assert s[..marks[k] - at] == s[..j] + s[j..][..q];
      ColonsJoined(s[..j], s[j..][..q]);
    }
  }

  /** A numeric format gets past as many colons as it names. */
  lemma {:induction false} ColonsBehindMarks(f: Format, s: string, at: nat, got: Scanned)
    requires Numeric(f)
    ensures MarksFollow(Scan(f, s, at, got).marks, |got.marks|, s, at, ColonsIn(f))
    decreases f
  {
    hide Run, ReadNumber, MarksFollow;
    match f
    case End => NoNewMark(got.marks, s, at);
    case Space(next) =>
      var b := Blanks(s);
      BlanksTake(s);
      ColonsBehindMarks(next, s[b..], at + b, got);
      MarksPass(Scan(f, s, at, got).marks, |got.marks|, s, b, at, ColonsIn(next), 0);
    case Literal(c, next) =>
      if s == "" || s[0] != c {
        NoNewMark(got.marks, s, at);
        MoreAllowed(got.marks, |got.marks|, s, at, 0, ColonsIn(f));
      } else {
        ColonsBehindMarks(next, s[1..], at + 1, got);
        assert s[..1] == [c] && s[..1][1..] == "";
        MarksPass(Scan(f, s, at, got).marks, |got.marks|, s, 1, at, ColonsIn(next), if c == ':' then 1 else 0);
      }
    case Integer(width, next) =>
      var b := Blanks(s);
      var t := s[b..];
      var r := ReadNumber(t, Limit(width, t));
      if r.taken == 0 {
        NoNewMark(got.marks, s, at);
        MoreAllowed(got.marks, |got.marks|, s, at, 0, ColonsIn(f));
      } else {
        BlanksTake(s);
        NumberTaken(t, Limit(width, t));
        ColonsBehindMarks(next, t[r.taken..], at + b + r.taken, got.(numbers := got.numbers + [r.number]));
        MarksPass(Scan(f, s, at, got).marks, |got.marks|, t, r.taken, at + b, ColonsIn(next), 0);
        MarksPass(Scan(f, s, at, got).marks, |got.marks|, s, b, at, ColonsIn(next), 0);
      }
    case Mark(next) =>
      ColonsBehindMarks(next, s, at, got.(marks := got.marks + [at]));
      MarksKept(next, s, at, got.(marks := got.marks + [at]));
      MarkHere(Scan(f, s, at, got).marks, got.marks, s, at, ColonsIn(next));
  }

  lemma NoNewMark(marks: seq<nat>, s: string, at: nat)
    ensures MarksFollow(marks, |marks|, s, at, 0)
  {
  }

  lemma MoreAllowed(marks: seq<nat>, had: nat, s: string, at: nat, most: nat, more: nat)
    requires MarksFollow(marks, had, s, at, most) && most <= more
    ensures MarksFollow(marks, had, s, at, more)
  {
  }

  lemma BlanksTake(s: string)
    ensures Colons(s[..Blanks(s)]) == 0
  {
    NoColonsCounted(s[..Blanks(s)]);
  }

  lemma NumberTaken(t: string, limit: nat)
    requires limit <= |t|
    ensures Colons(t[..ReadNumber(t, limit).taken]) == 0
  {
    NumberTakes(t, limit);
    NoColonsCounted(t[..ReadNumber(t, limit).taken]);
  }

  /** Marks already reported stay. */
  lemma {:induction false} MarksKept(f: Format, s: string, at: nat, got: Scanned)
    requires Numeric(f)
    ensures got.marks <= Scan(f, s, at, got).marks
    decreases f
  {
    hide Run, ReadNumber;
    match f
    case End =>
    case Space(next) => MarksKept(next, s[Blanks(s)..], at + Blanks(s), got);
    case Literal(c, next) =>
      if s != "" && s[0] == c {
        MarksKept(next, s[1..], at + 1, got);
      }
    case Integer(width, next) =>
      var t := s[Blanks(s)..];
      var r := ReadNumber(t, Limit(width, t));
      if r.taken != 0 {
        MarksKept(next, t[r.taken..], at + Blanks(s) + r.taken, got.(numbers := got.numbers + [r.number]));
      }
    case Mark(next) => MarksKept(next, s, at, got.(marks := got.marks + [at]));
  }

  lemma MarkHere(marks: seq<nat>, had: seq<nat>, s: string, at: nat, most: nat)
    requires MarksFollow(marks, |had| + 1, s, at, most) && (had + [at] <= marks)
    ensures MarksFollow(marks, |had|, s, at, most)
  {
    assert marks[|had|] == at;
    assert s[..0] == "";
  }
}
