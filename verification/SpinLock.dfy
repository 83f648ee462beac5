/** threading/SpinSharedMutex.hpp as a step system: one atomic 32-bit word, any number of
    threads below 2^31, and one program counter for each thread. */
module SpinLock {

  const WRITE_BIT: nat := 0x8000_0000
  const WORD_RANGE: nat := 0x1_0000_0000

  /** Where a thread is inside lock(), unlock(), lockShared() or unlockShared(). */
  datatype LockPc =
    | Out         // holds nothing, in no call
    | WriteTry    // about to fetch_or the write bit
    | WriteWait   // has set the write bit, waits for the readers to leave
    | Exclusive
    | ReadTry     // about to increment the reader count
    | ReadUndo    // found the write bit set, about to take its increment back
    | ReadSpin    // waits for the write bit to clear
    | Shared

  datatype Lock = Lock(word: nat, pc: map<nat, LockPc>)

  predicate WriteBitSet(word: nat) {
    word >= WRITE_BIT
  }

  // state_.fetch_or(kWriteBit)
  function SetWriteBit(word: nat): nat {
    if WriteBitSet(word) then word else word + WRITE_BIT
  }

  // state_.fetch_and(~kWriteBit)
  function ClearWriteBit(word: nat): nat {
    if WriteBitSet(word) then word - WRITE_BIT else word
  }

  // state_.fetch_add(1) and state_.fetch_sub(1) on an unsigned 32-bit word
  function Increment(word: nat): nat {
    (word + 1) % WORD_RANGE
  }

  function Decrement(word: nat): nat {
    (word + WORD_RANGE - 1) % WORD_RANGE
  }

  function Moved(s: Lock, t: nat, word: nat, c: LockPc): Lock {
    Lock(word, s.pc[t := c])
  }

  /** The next state when thread t takes its one atomic step; outside any call, and when it
      holds the lock, t chooses what to do, which `c` names. */
  predicate StepBy(s: Lock, s': Lock, t: nat, c: LockPc) {
    t in s.pc &&
    match s.pc[t]
    case Out => (c == WriteTry || c == ReadTry) && s' == Moved(s, t, s.word, c)
    case WriteTry =>
      && s' == Moved(s, t, SetWriteBit(s.word), c)
      && c == if WriteBitSet(s.word) then WriteTry else if s.word == 0 then Exclusive else WriteWait
    case WriteWait => s' == Moved(s, t, s.word, c) && c == if s.word == WRITE_BIT then Exclusive else WriteWait
    case Exclusive => c == Out && s' == Moved(s, t, ClearWriteBit(s.word), Out)
    case ReadTry =>
      s' == Moved(s, t, Increment(s.word), c) && c == if WriteBitSet(s.word) then ReadUndo else Shared
    case ReadUndo =>
      s' == Moved(s, t, Decrement(s.word), c) && c == if WriteBitSet(s.word) then ReadSpin else ReadTry
    case ReadSpin => s' == Moved(s, t, s.word, c) && c == if WriteBitSet(s.word) then ReadSpin else ReadTry
    case Shared => c == Out && s' == Moved(s, t, Decrement(s.word), Out)
  }

  ghost predicate Step(s: Lock, s': Lock) {
    exists t, c :: StepBy(s, s', t, c)
  }

  predicate Initial(s: Lock) {
    s.word == 0 && |s.pc| < WRITE_BIT && forall t | t in s.pc :: s.pc[t] == Out
  }

  // ---- what every step keeps -----------------------------------------------------------

  function Threads(pc: map<nat, LockPc>, kinds: set<LockPc>): set<nat> {
    set t | t in pc && pc[t] in kinds
  }

  /** Threads between setting and clearing the write bit. */
  function Writers(pc: map<nat, LockPc>): set<nat> {
    Threads(pc, {WriteWait, Exclusive})
  }

  /** Threads whose increment of the reader count stands. */
  function Counted(pc: map<nat, LockPc>): set<nat> {
    Threads(pc, {Shared, ReadUndo})
  }

  ghost predicate Invariant(s: Lock) {
    && |s.pc| < WRITE_BIT
    && s.word == |Counted(s.pc)| + (if Writers(s.pc) == {} then 0 else WRITE_BIT)
    && (forall t, u | t in Writers(s.pc) && u in Writers(s.pc) :: t == u)
    && (forall t, u | t in s.pc && u in s.pc && s.pc[t] == Exclusive :: s.pc[u] != Shared)
  }

  lemma ThreadsMoved(pc: map<nat, LockPc>, t: nat, c: LockPc, kinds: set<LockPc>)
    requires t in pc
    ensures Threads(pc[t := c], kinds) == if c in kinds then Threads(pc, kinds) + {t} else Threads(pc, kinds) - {t}
  {
  }

  lemma ThreadsAreFew(pc: map<nat, LockPc>, kinds: set<LockPc>)
    ensures |Threads(pc, kinds)| <= |pc|
  {
    SubsetSize(Threads(pc, kinds), pc.Keys);
  }

  lemma {:induction false} SubsetSize(a: set<nat>, b: set<nat>)
    requires a <= b
    ensures |a| <= |b|
  {
    if a != {} {
      var x :| x in a;
      SubsetSize(a - {x}, b - {x});
    }
  }

  /** A counted thread that is not alone leaves room below 2^31 for one more. */
  lemma CountedLeavesRoom(pc: map<nat, LockPc>, t: nat)
    requires t in pc && t !in Counted(pc)
    ensures |Counted(pc)| + 1 <= |pc|
  {
    SubsetSize(Counted(pc) + {t}, pc.Keys);
  }

  lemma InitialHolds(s: Lock)
    requires Initial(s)
    ensures Invariant(s)
  {
    assert Counted(s.pc) == {} && Writers(s.pc) == {};
  }

  lemma StepKeepsWriters(s: Lock, s': Lock, t: nat, c: LockPc)
    requires Invariant(s) && StepBy(s, s', t, c)
    ensures forall t, u | t in Writers(s'.pc) && u in Writers(s'.pc) :: t == u
    ensures Writers(s'.pc) == {} <==>
            if c in {WriteWait, Exclusive} then false else Writers(s.pc) == {} || Writers(s.pc) == {t}
    ensures Writers(s.pc) != {} <==> WriteBitSet(s.word)
  {
    hide Threads, Counted;
    ThreadsAreFew(s.pc, {Shared, ReadUndo});
    assert Counted(s.pc) == Threads(s.pc, {Shared, ReadUndo}) by {
      CountedIs(s.pc);
    }
    ThreadsMoved(s.pc, t, c, {WriteWait, Exclusive});
    WritersAre(s.pc, t);
  }

  lemma CountedIs(pc: map<nat, LockPc>)
    ensures Counted(pc) == Threads(pc, {Shared, ReadUndo})
  {
  }

  lemma WritersAre(pc: map<nat, LockPc>, t: nat)
    requires t in pc
    ensures t in Writers(pc) <==> pc[t] == WriteWait || pc[t] == Exclusive
    ensures t in Counted(pc) <==> pc[t] == Shared || pc[t] == ReadUndo
  {
  }

  /** How the count changes when one thread moves. */
  lemma CountChanges(pc: map<nat, LockPc>, t: nat, c: LockPc)
    requires t in pc
    ensures |Counted(pc[t := c])| ==
            |Counted(pc)| + (if c in {Shared, ReadUndo} then 1 else 0) - (if pc[t] in {Shared, ReadUndo} then 1 else 0)
  {
    ThreadsMoved(pc, t, c, {Shared, ReadUndo});
    WritersAre(pc, t);
    CountedIs(pc);
    CountedIs(pc[t := c]);
    hide Threads, Counted, Writers;
    SetSizes(Counted(pc), t);
  }

  lemma SetSizes(a: set<nat>, t: nat)
    ensures |a + {t}| == |a| + if t in a then 0 else 1
    ensures |a - {t}| == |a| - if t in a then 1 else 0
  {
    if t in a {
      assert a + {t} == a;
    } else {
      assert a - {t} == a;
    }
  }

  lemma StepKeepsWord(s: Lock, s': Lock, t: nat, c: LockPc)
    requires Invariant(s) && StepBy(s, s', t, c)
    ensures s'.word == |Counted(s'.pc)| + (if Writers(s'.pc) == {} then 0 else WRITE_BIT)
  {
    hide Threads, Writers, Counted;
    StepKeepsWriters(s, s', t, c);
    WritersAre(s.pc, t);
    CountChanges(s.pc, t, c);
    ThreadsAreFew(s.pc, {Shared, ReadUndo});
    CountedIs(s.pc);
    if t !in Counted(s.pc) {
      CountedLeavesRoom(s.pc, t);
    }
    if t in Writers(s.pc) {
      WriterIsAlone(s, t);
    }
  }

  lemma WriterIsAlone(s: Lock, t: nat)
    requires Invariant(s) && t in Writers(s.pc)
    ensures Writers(s.pc) == {t}
  {
  }

  lemma StepKeepsExclusion(s: Lock, s': Lock, t: nat, c: LockPc)
    requires Invariant(s) && StepBy(s, s', t, c)
    ensures forall t, u | t in s'.pc && u in s'.pc && s'.pc[t] == Exclusive :: s'.pc[u] != Shared
  {
    StepKeepsWriters(s, s', t, c);
    WritersAre(s.pc, t);
    forall u | u in s.pc
      ensures s.pc[u] == Exclusive ==> Writers(s.pc) != {}
      ensures s.pc[u] == Shared ==> Counted(s.pc) != {}
    {
      WritersAre(s.pc, u);
    }
    hide Threads, Writers, Counted;
  }

  lemma StepKeeps(s: Lock, s': Lock, t: nat, c: LockPc)
    requires Invariant(s) && StepBy(s, s', t, c)
    ensures Invariant(s') && s'.pc.Keys == s.pc.Keys
  {
    StepKeepsWriters(s, s', t, c);
    StepKeepsWord(s, s', t, c);
    StepKeepsExclusion(s, s', t, c);
    assert s'.pc == s.pc[t := c];
    assert s'.pc.Keys == s.pc.Keys;
    assert |s'.pc| == |s'.pc.Keys|;
  }

  // ---- safety of every run ---------------------------------------------------------------

  /** A run of the lock: a sequence of states, each a step of some thread from the one before. */
  ghost predicate Run(r: seq<Lock>) {
    && |r| > 0 && Initial(r[0])
    && forall i | 0 <= i < |r| - 1 :: Step(r[i], r[i + 1])
  }

  lemma {:induction false} RunKeeps(r: seq<Lock>, i: nat)
    requires Run(r) && i < |r|
    ensures Invariant(r[i]) && r[i].pc.Keys == r[0].pc.Keys
  {
    if i == 0 {
      InitialHolds(r[0]);
    } else {
      RunKeeps(r, i - 1);
      assert Step(r[i - 1], r[i - 1 + 1]);
      var t, c :| StepBy(r[i - 1], r[i], t, c);
      StepKeeps(r[i - 1], r[i], t, c);
    }
  }

  /** Mutual exclusion in every reachable state: an exclusive holder is the only exclusive
      holder, and nobody shares with it. */
  lemma MutualExclusion(r: seq<Lock>, i: nat, t: nat, u: nat)
    requires Run(r) && i < |r| && t in r[i].pc && u in r[i].pc && t != u
    requires r[i].pc[t] == Exclusive
    ensures r[i].pc[u] != Exclusive && r[i].pc[u] != Shared
  {
    RunKeeps(r, i);
    assert t in Writers(r[i].pc);
    assert u in Writers(r[i].pc) <==> r[i].pc[u] in {WriteWait, Exclusive};
  }

  /** The word never overflows: its low 31 bits count the shared holders and the readers that
      have yet to undo, and the top bit says that a writer is active or pending. */
  lemma WordCounts(r: seq<Lock>, i: nat)
    requires Run(r) && i < |r|
    ensures r[i].word < WORD_RANGE
    ensures r[i].word % WRITE_BIT == |Threads(r[i].pc, {Shared, ReadUndo})|
    ensures WriteBitSet(r[i].word) <==> exists t :: t in r[i].pc && r[i].pc[t] in {WriteWait, Exclusive}
  {
    RunKeeps(r, i);
    ThreadsAreFew(r[i].pc, {Shared, ReadUndo});
    if WriteBitSet(r[i].word) {
      var t :| t in Writers(r[i].pc);
    }
    if t :| t in r[i].pc && r[i].pc[t] in {WriteWait, Exclusive} {
      assert t in Writers(r[i].pc);
    }
  }

  /** A pending writer keeps new readers out: nobody enters shared mode while the bit is set. */
  lemma NoEntryPastWriter(r: seq<Lock>, i: nat, t: nat)
    requires Run(r) && i + 1 < |r| && t in r[i].pc && t in r[i + 1].pc
    requires r[i].pc[t] != Shared && r[i + 1].pc[t] == Shared
    ensures !WriteBitSet(r[i].word)
    ensures forall u | u in r[i].pc :: r[i].pc[u] != WriteWait && r[i].pc[u] != Exclusive
  {
    assert Step(r[i], r[i + 1]);
    var v, c :| StepBy(r[i], r[i + 1], v, c);
    assert v == t;
    RunKeeps(r, i);
    forall u | u in r[i].pc
      ensures r[i].pc[u] != WriteWait && r[i].pc[u] != Exclusive
    {
      assert u in Writers(r[i].pc) <==> r[i].pc[u] in {WriteWait, Exclusive};
    }
  }

  // ---- what every step answers -------------------------------------------------------------

  predicate Nobody(pc: map<nat, LockPc>, a: LockPc, b: LockPc) {
    forall u | u in pc :: pc[u] != a && pc[u] != b
  }

  /** The word as the threads see it. */
  lemma WordTells(s: Lock)
    requires Invariant(s)
    ensures WriteBitSet(s.word) <==> !Nobody(s.pc, WriteWait, Exclusive)
    ensures s.word == 0 <==> Nobody(s.pc, WriteWait, Exclusive) && Nobody(s.pc, Shared, ReadUndo)
    ensures WriteBitSet(s.word) ==> (s.word == WRITE_BIT <==> Nobody(s.pc, Shared, ReadUndo))
  {
    ThreadsAreFew(s.pc, {Shared, ReadUndo});
    forall u | u in s.pc
      ensures u in Writers(s.pc) <==> s.pc[u] == WriteWait || s.pc[u] == Exclusive
      ensures u in Counted(s.pc) <==> s.pc[u] == Shared || s.pc[u] == ReadUndo
    {
      WritersAre(s.pc, u);
    }
    assert Nobody(s.pc, WriteWait, Exclusive) <==> Writers(s.pc) == {};
    assert Nobody(s.pc, Shared, ReadUndo) <==> Counted(s.pc) == {};
  }

  /** Every thread always has a step, outside any call towards either lock. */
  lemma StepExists(s: Lock, t: nat)
    requires t in s.pc
    ensures exists s', c :: StepBy(s, s', t, c)
    ensures s.pc[t] == Out ==> exists s', s'' :: StepBy(s, s', t, WriteTry) && StepBy(s, s'', t, ReadTry)
  {
    var set0, c := SetWriteBit(s.word), s.pc[t];
    match c
    case Out =>
      assert StepBy(s, Moved(s, t, s.word, WriteTry), t, WriteTry);
      assert StepBy(s, Moved(s, t, s.word, ReadTry), t, ReadTry);
    case WriteTry =>
      var d := if WriteBitSet(s.word) then WriteTry else if s.word == 0 then Exclusive else WriteWait;
      assert StepBy(s, Moved(s, t, set0, d), t, d);
    case WriteWait =>
      var d := if s.word == WRITE_BIT then Exclusive else WriteWait;
      assert StepBy(s, Moved(s, t, s.word, d), t, d);
    case Exclusive => assert StepBy(s, Moved(s, t, ClearWriteBit(s.word), Out), t, Out);
    case ReadTry =>
      var d := if WriteBitSet(s.word) then ReadUndo else Shared;
      assert StepBy(s, Moved(s, t, Increment(s.word), d), t, d);
    case ReadUndo =>
      var d := if WriteBitSet(s.word) then ReadSpin else ReadTry;
      assert StepBy(s, Moved(s, t, Decrement(s.word), d), t, d);
    case ReadSpin =>
      var d := if WriteBitSet(s.word) then ReadSpin else ReadTry;
      assert StepBy(s, Moved(s, t, s.word, d), t, d);
    case Shared => assert StepBy(s, Moved(s, t, Decrement(s.word), Out), t, Out);
  }

  /** In every reachable state, where a step of a thread takes it, told by what the others do: who
      is let in, who has to wait, and who leaves. */
  lemma StepAnswers(r: seq<Lock>, i: nat, s': Lock, t: nat, c: LockPc)
    requires Run(r) && i < |r| && StepBy(r[i], s', t, c)
    ensures s'.pc == r[i].pc[t := c]
    ensures var pc := r[i].pc;
            var writers := set u | u in pc && (pc[u] == WriteWait || pc[u] == Exclusive);
            var readers := set u | u in pc && (pc[u] == Shared || pc[u] == ReadUndo);
            match pc[t]
            case Out => c == WriteTry || c == ReadTry
            case WriteTry =>
              if writers != {} then c == WriteTry
              else if readers == {} then c == Exclusive
              else c == WriteWait
            case WriteWait => c == if readers == {} then Exclusive else WriteWait
            case Exclusive => c == Out
            case ReadTry => c == if writers == {} then Shared else ReadUndo
            case ReadUndo => c == if writers == {} then ReadTry else ReadSpin
            case ReadSpin => c == if writers == {} then ReadTry else ReadSpin
            case Shared => c == Out
  {
    RunKeeps(r, i);
    WordTells(r[i]);
    NobodyIsEmpty(r[i].pc, WriteWait, Exclusive);
    NobodyIsEmpty(r[i].pc, Shared, ReadUndo);
    hide Nobody, Invariant;
    if r[i].pc[t] == WriteWait {
      assert !Nobody(r[i].pc, WriteWait, Exclusive) by {
        Somebody(r[i].pc, t);
      }
    }
  }

  lemma NobodyIsEmpty(pc: map<nat, LockPc>, a: LockPc, b: LockPc)
    ensures Nobody(pc, a, b) <==> (set u | u in pc && (pc[u] == a || pc[u] == b)) == {}
  {
    var there := set u | u in pc && (pc[u] == a || pc[u] == b);
    assert forall u :: u in there <==> u in pc && (pc[u] == a || pc[u] == b);
  }

  lemma Somebody(pc: map<nat, LockPc>, t: nat)
    requires t in pc && pc[t] == WriteWait
    ensures !Nobody(pc, WriteWait, Exclusive)
  {
  }

  /** A run can start with any threads below 2^31, and go on with a step of any thread. */
  lemma RunsStart(threads: set<nat>) returns (s: Lock)
    requires |threads| < WRITE_BIT
    ensures Run([s]) && s.pc.Keys == threads
  {
    s := Lock(0, map t | t in threads :: Out);
    assert s.pc.Keys == threads && |s.pc| == |s.pc.Keys|;
  }

  lemma RunsGoOn(r: seq<Lock>, t: nat) returns (s': Lock, c: LockPc)
    requires Run(r) && t in r[|r| - 1].pc
    ensures StepBy(r[|r| - 1], s', t, c) && Run(r + [s'])
  {
    var last := r[|r| - 1];
    StepExists(last, t);
    s', c :| StepBy(last, s', t, c);
    var longer := r + [s'];
    hide StepBy;
    forall i | 0 <= i < |longer| - 1
      ensures Step(longer[i], longer[i + 1])
    {
      if i < |r| - 1 {
        assert Step(r[i], r[i + 1]);
      } else {
        assert Step(last, s');
      }
    }
  }
}
