/** Concurrent insert() calls on one Bloom filter, any number by each thread, interleaved at
    single reads and writes: a call looks at its bits under the shared lock, then loads and
    stores bytes, as two separate steps, under the exclusive lock. */
module BloomInterleaving {
  import opened SpinLock
  import opened Bloom

  datatype Loaded = Nothing | Byte(value: bv8)

  /** Where a thread is in a call; `Idle` is outside any. */
  datatype Phase =
    | Idle
    | Looking(seen: seq<bool>)
    | Setting(seen: seq<bool>, next: nat, loaded: Loaded)

  /** `key` is that of the call the thread is in; `returned` those of the calls that have returned. */
  datatype Thread = Thread(key: Key, lock: LockPc, phase: Phase, returned: seq<Key>) {
    predicate Asks(k: Key) {
      k in returned || (phase != Idle && k == key)
    }
  }

  datatype System = System(word: nat, threads: map<nat, Thread>, bytes: seq<bv8>)

  function LockOf(s: System): Lock {
    Lock(s.word, map t | t in s.threads :: s.threads[t].lock)
  }

  /** What a thread does next with the lock, and the phase it is in afterwards. */
  predicate LockAllowed(h: Hashing, th: Thread, c: LockPc, phase: Phase) {
    match th.phase
    case Looking(seen) =>
      if th.lock == Out then c == ReadTry && phase == th.phase
      else if th.lock == Shared then |seen| == h.count && phase == Setting(seen, 0, Nothing)
      else phase == th.phase
    case Setting(seen, next, loaded) =>
      if th.lock == Out then c == WriteTry && phase == th.phase
      else if th.lock == Exclusive then next == h.count && loaded == Nothing && phase == Idle
      else phase == th.phase
    case Idle => false
  }

  /** The thread after a step on the lock; leaving the exclusive section ends the call. */
  function After(th: Thread, c: LockPc, phase: Phase): Thread {
    Thread(th.key, c, phase, if phase == Idle then th.returned + [th.key] else th.returned)
  }

  predicate LockStep(h: Hashing, s: System, s': System, t: nat, c: LockPc, phase: Phase) {
    && t in s.threads
    && StepBy(LockOf(s), LockOf(s'), t, c)
    && LockAllowed(h, s.threads[t], c, phase)
    && s' == System(s'.word, s.threads[t := After(s.threads[t], c, phase)], s.bytes)
  }

  /** A step on the filter itself: one look at a bit, one skip, one load or one store. */
  predicate FilterStep(h: Hashing, s: System, s': System, t: nat)
    requires |s.bytes| > 0
  {
    t in s.threads &&
    var th := s.threads[t];
    match th.phase
    case Looking(seen) =>
      && th.lock == Shared && |seen| < h.count
      && var p := Position(h, |s.bytes|, th.key, |seen|);
         s' == s.(threads := s.threads[t := th.(phase := Looking(seen + [IsSet(s.bytes, p)]))])
    case Setting(seen, next, loaded) =>
      && th.lock == Exclusive && next < h.count && next < |seen|
      && var p := Position(h, |s.bytes|, th.key, next);
         if loaded.Byte? then
           s' == System(s.word, s.threads[t := th.(phase := Setting(seen, next + 1, Nothing))],
                        s.bytes[p / 8 := loaded.value | Mask(p % 8)])
         else if seen[next] then
           s' == s.(threads := s.threads[t := th.(phase := Setting(seen, next + 1, Nothing))])
         else
           s' == s.(threads := s.threads[t := th.(phase := Setting(seen, next, Byte(s.bytes[p / 8])))])
    case Idle => false
  }

  /** A thread outside any call begins one with a key of its choice. */
  predicate BeginStep(s: System, s': System, t: nat, key: Key) {
    && t in s.threads && s.threads[t].phase == Idle
    && s' == s.(threads := s.threads[t := s.threads[t].(key := key, phase := Looking([]))])
  }

  ghost predicate StepOf(h: Hashing, s: System, s': System, t: nat)
    requires |s.bytes| > 0
  {
    || (exists c, phase :: LockStep(h, s, s', t, c, phase))
    || FilterStep(h, s, s', t)
    || (exists key :: BeginStep(s, s', t, key))
  }

  ghost predicate Start(s: System) {
    && |s.bytes| > 0 && Initial(LockOf(s))
    && forall t | t in s.threads :: s.threads[t].phase == Idle && s.threads[t].returned == []
  }

  // ---- what every step keeps ---------------------------------------------------------

  /** Each thread knows only what stays true: the keys of its calls that have returned are
      contained, bits it saw or set are set, and a byte it has loaded is still the byte in the
      array. */
  ghost predicate ThreadOk(h: Hashing, bytes: seq<bv8>, th: Thread)
    requires |bytes| > 0
  {
    (forall k | k in th.returned :: Contained(h, bytes, k)) && CallOk(h, bytes, th)
  }

  ghost predicate CallOk(h: Hashing, bytes: seq<bv8>, th: Thread)
    requires |bytes| > 0
  {
    match th.phase
    case Looking(seen) =>
      && th.lock in {Out, ReadTry, ReadUndo, ReadSpin, Shared}
      && |seen| <= h.count
      && (forall i | 0 <= i < |seen| :: seen[i] ==> IsSet(bytes, Position(h, |bytes|, th.key, i)))
    case Setting(seen, next, loaded) =>
      && th.lock in {Out, WriteTry, WriteWait, Exclusive}
      && |seen| == h.count && next <= h.count
      && (forall i | 0 <= i < h.count :: seen[i] ==> IsSet(bytes, Position(h, |bytes|, th.key, i)))
      && (forall i | 0 <= i < next :: IsSet(bytes, Position(h, |bytes|, th.key, i)))
      && (loaded.Byte? ==>
            th.lock == Exclusive && next < h.count && loaded.value == bytes[Position(h, |bytes|, th.key, next) / 8])
    case Idle => th.lock == Out
  }

  /** No bit is lost. */
  ghost predicate Grows(a: seq<bv8>, b: seq<bv8>) {
    |a| == |b| && forall q: nat | q < 8 * |a| && IsSet(a, q) :: IsSet(b, q)
  }

  /** No bit appears that was not set at the start and is not asked for by some call. */
  ghost predicate Justified(h: Hashing, origin: seq<bv8>, s: System)
    requires |s.bytes| == |origin| > 0
  {
    forall q: nat | q < 8 * |origin| && IsSet(s.bytes, q) ::
      IsSet(origin, q) || Asked(h, |origin|, s, q)
  }

  ghost predicate SystemInvariant(h: Hashing, origin: seq<bv8>, s: System) {
    && |s.bytes| == |origin| > 0
    && Invariant(LockOf(s))
    && (forall t | t in s.threads :: ThreadOk(h, s.bytes, s.threads[t]))
    && Grows(origin, s.bytes)
    && Justified(h, origin, s)
  }

  lemma GrowsTransitively(a: seq<bv8>, b: seq<bv8>, c: seq<bv8>)
    requires Grows(a, b) && Grows(b, c)
    ensures Grows(a, c)
  {
  }

  lemma StartHolds(h: Hashing, s: System)
    requires Start(s)
    ensures SystemInvariant(h, s.bytes, s)
  {
    InitialHolds(LockOf(s));
    forall t | t in s.threads
      ensures ThreadOk(h, s.bytes, s.threads[t])
    {
      assert LockOf(s).pc[t] == Out;
    }
  }

  /** A thread keeps its knowledge while the array only grows and its loaded byte stays. */
  lemma ThreadStaysOk(h: Hashing, a: seq<bv8>, b: seq<bv8>, th: Thread)
    requires |a| > 0 && ThreadOk(h, a, th) && Grows(a, b)
    requires th.phase.Setting? && th.phase.loaded.Byte? ==> a == b
    ensures ThreadOk(h, b, th)
  {
    if a != b {
      hide IsSet, Position;
    }
  }

  /** The same threads, and every key asked for is still asked for. */
  ghost predicate KeepsAsking(s: System, s': System) {
    && s.threads.Keys == s'.threads.Keys
    && forall t, k | t in s.threads && s.threads[t].Asks(k) :: s'.threads[t].Asks(k)
  }

  /** Positions of the keys that calls returned or under way insert. */
  ghost predicate Asked(h: Hashing, size: nat, s: System, q: nat)
    requires size > 0
  {
    exists t, k :: t in s.threads && s.threads[t].Asks(k) && Touches(h, size, k, h.count, q)
  }

  lemma AskedStays(h: Hashing, size: nat, s: System, s': System, q: nat)
    requires size > 0 && KeepsAsking(s, s') && Asked(h, size, s, q)
    ensures Asked(h, size, s', q)
  {
    hide Touches;
    var t, k :| t in s.threads && s.threads[t].Asks(k) && Touches(h, size, k, h.count, q);
    assert s'.threads[t].Asks(k);
  }

  lemma LockStepThread(h: Hashing, s: System, t: nat, c: LockPc, phase: Phase, s': System)
    requires |s.bytes| > 0 && LockStep(h, s, s', t, c, phase) && ThreadOk(h, s.bytes, s.threads[t])
    ensures ThreadOk(h, s.bytes, After(s.threads[t], c, phase))
  {
    assert LockOf(s).pc[t] == s.threads[t].lock;
    hide IsSet, Position, LockOf;
  }

  lemma LockStepShape(h: Hashing, s: System, s': System, t: nat, c: LockPc, phase: Phase)
    requires LockStep(h, s, s', t, c, phase)
    ensures s'.bytes == s.bytes && KeepsAsking(s, s')
    ensures s'.threads == s.threads[t := After(s.threads[t], c, phase)]
  {
    hide StepBy, LockAllowed, LockOf;
  }

  lemma JustifiedStays(h: Hashing, origin: seq<bv8>, s: System, s': System)
    requires |s.bytes| == |origin| > 0 && Justified(h, origin, s) && KeepsAsking(s, s') && s'.bytes == s.bytes
    ensures Justified(h, origin, s')
  {
    hide IsSet, Touches, KeepsAsking, Asked;
    forall q: nat | q < 8 * |origin| && IsSet(s'.bytes, q)
      ensures IsSet(origin, q) || Asked(h, |origin|, s', q)
    {
      if !IsSet(origin, q) {
        AskedStays(h, |origin|, s, s', q);
      }
    }
  }

  lemma LockStepKeeps(h: Hashing, origin: seq<bv8>, s: System, s': System, t: nat, c: LockPc, phase: Phase)
    requires SystemInvariant(h, origin, s) && LockStep(h, s, s', t, c, phase)
    ensures SystemInvariant(h, origin, s') && KeepsAsking(s, s')
  {
    StepKeeps(LockOf(s), LockOf(s'), t, c);
    LockStepThread(h, s, t, c, phase, s');
    LockStepShape(h, s, s', t, c, phase);
    JustifiedStays(h, origin, s, s');
    hide Invariant, Justified, ThreadOk, Grows, LockStep, LockOf, KeepsAsking;
  }

  // ---- steps on the filter -------------------------------------------------------------

  /** A filter step leaves the lock alone. */
  lemma FilterStepLock(h: Hashing, s: System, s': System, t: nat)
    requires |s.bytes| > 0 && FilterStep(h, s, s', t)
    ensures LockOf(s') == LockOf(s) && KeepsAsking(s, s') && |s'.bytes| == |s.bytes|
  {
    hide IsSet, Position, Mask;
    assert forall u | u in s.threads :: s'.threads[u].lock == s.threads[u].lock;
    assert s'.threads.Keys == s.threads.Keys;
    assert LockOf(s').pc == LockOf(s).pc;
  }

  /** The store writes back the current byte with one more bit, so the array gains that bit and
      loses none: the lock keeps the byte unchanged between the load and the store. */
  lemma FilterStepBytes(h: Hashing, s: System, s': System, t: nat)
    requires |s.bytes| > 0 && FilterStep(h, s, s', t) && ThreadOk(h, s.bytes, s.threads[t])
    ensures s'.bytes == s.bytes ||
            (s.threads[t].phase.Setting? && s.threads[t].phase.loaded.Byte? && s.threads[t].phase.next < h.count &&
             s'.bytes == WithBit(s.bytes, Position(h, |s.bytes|, s.threads[t].key, s.threads[t].phase.next)))
  {
    hide IsSet, Mask;
  }

  lemma FilterStepGrows(h: Hashing, s: System, s': System, t: nat)
    requires |s.bytes| > 0 && FilterStep(h, s, s', t) && ThreadOk(h, s.bytes, s.threads[t])
    ensures Grows(s.bytes, s'.bytes)
    ensures forall q: nat | q < 8 * |s.bytes| && IsSet(s'.bytes, q) ::
              IsSet(s.bytes, q) || Touches(h, |s.bytes|, s.threads[t].key, h.count, q)
  {
    FilterStepBytes(h, s, s', t);
    FilterStepLock(h, s, s', t);
    hide FilterStep, ThreadOk, IsSet, WithBit, LockOf;
    if s'.bytes != s.bytes {
      var p := Position(h, |s.bytes|, s.threads[t].key, s.threads[t].phase.next);
      forall q: nat | q < 8 * |s.bytes|
        ensures IsSet(s'.bytes, q) <==> IsSet(s.bytes, q) || p == q
      {
        WithBitSets(s.bytes, p, q);
      }
    }
  }

  lemma FilterStepThread(h: Hashing, s: System, s': System, t: nat)
    requires |s.bytes| > 0 && FilterStep(h, s, s', t) && ThreadOk(h, s.bytes, s.threads[t])
    ensures ThreadOk(h, s'.bytes, s'.threads[t])
  {
    FilterStepGrows(h, s, s', t);
    FilterStepBytes(h, s, s', t);
    hide IsSet, Position, Mask, WithBit, Touches;
    var th := s.threads[t];
    if th.phase.Setting? && th.phase.next < h.count {
      var p := Position(h, |s.bytes|, th.key, th.phase.next);
      WithBitSets(s.bytes, p, p);
    }
  }

  /** Two threads cannot both be in the exclusive section. */
  lemma OneSetter(s: System, t: nat, u: nat)
    requires Invariant(LockOf(s)) && t in s.threads && u in s.threads
    requires s.threads[t].lock == Exclusive && s.threads[u].lock == Exclusive
    ensures t == u
  {
    assert t in Writers(LockOf(s).pc) && u in Writers(LockOf(s).pc);
  }

  lemma FilterStepOthers(h: Hashing, origin: seq<bv8>, s: System, s': System, t: nat, u: nat)
    requires SystemInvariant(h, origin, s) && FilterStep(h, s, s', t) && u in s.threads && u != t
    ensures u in s'.threads && s'.threads[u] == s.threads[u] && ThreadOk(h, s'.bytes, s'.threads[u])
  {
    var th, tu := s.threads[t], s.threads[u];
    FilterStepGrows(h, s, s', t);
    FilterStepBytes(h, s, s', t);
    if tu.phase.Setting? && tu.phase.loaded.Byte? && s'.bytes != s.bytes {
      OneSetter(s, t, u);
    }
    ThreadStaysOk(h, s.bytes, s'.bytes, tu);
  }

  lemma FilterStepJustified(h: Hashing, origin: seq<bv8>, s: System, s': System, t: nat)
    requires |s.bytes| == |origin| > 0 && Justified(h, origin, s)
    requires FilterStep(h, s, s', t) && ThreadOk(h, s.bytes, s.threads[t])
    ensures |s'.bytes| == |origin| && Justified(h, origin, s')
  {
    FilterStepLock(h, s, s', t);
    FilterStepGrows(h, s, s', t);
    assert s.threads[t].Asks(s.threads[t].key) by {
      assert s.threads[t].phase != Idle;
    }
    hide FilterStep, ThreadOk, IsSet, Position, LockOf, Touches, Grows, KeepsAsking;
    forall q: nat | q < 8 * |origin| && IsSet(s'.bytes, q)
      ensures IsSet(origin, q) || Asked(h, |origin|, s', q)
    {
      if IsSet(s.bytes, q) {
        if !IsSet(origin, q) {
          AskedStays(h, |origin|, s, s', q);
        }
      } else {
        assert Asked(h, |origin|, s, q);
        AskedStays(h, |origin|, s, s', q);
      }
    }
  }

  lemma FilterStepKeeps(h: Hashing, origin: seq<bv8>, s: System, s': System, t: nat)
    requires SystemInvariant(h, origin, s) && FilterStep(h, s, s', t)
    ensures SystemInvariant(h, origin, s') && KeepsAsking(s, s')
  {
    FilterStepLock(h, s, s', t);
    FilterStepThread(h, s, s', t);
    FilterStepGrows(h, s, s', t);
    FilterStepJustified(h, origin, s, s', t);
    GrowsTransitively(origin, s.bytes, s'.bytes);
    forall u | u in s'.threads
      ensures ThreadOk(h, s'.bytes, s'.threads[u])
    {
      if u != t {
        FilterStepOthers(h, origin, s, s', t, u);
      }
    }
    hide FilterStep, ThreadOk, IsSet, Position, LockOf, Invariant, Touches, Grows, Justified;
  }

  // ---- beginning a call -----------------------------------------------------------------------

  lemma BeginStepShape(s: System, s': System, t: nat, key: Key)
    requires BeginStep(s, s', t, key)
    ensures s'.bytes == s.bytes && KeepsAsking(s, s') && LockOf(s') == LockOf(s)
    ensures s'.threads == s.threads[t := s.threads[t].(key := key, phase := Looking([]))]
  {
    assert forall u | u in s.threads :: s'.threads[u].lock == s.threads[u].lock;
    assert s'.threads.Keys == s.threads.Keys;
    assert LockOf(s').pc == LockOf(s).pc;
  }

  lemma BeginStepThread(h: Hashing, s: System, t: nat, key: Key)
    requires |s.bytes| > 0 && t in s.threads && s.threads[t].phase == Idle && ThreadOk(h, s.bytes, s.threads[t])
    ensures ThreadOk(h, s.bytes, s.threads[t].(key := key, phase := Looking([])))
  {
    hide Contained, IsSet;
  }

  lemma BeginStepKeeps(h: Hashing, origin: seq<bv8>, s: System, s': System, t: nat, key: Key)
    requires SystemInvariant(h, origin, s) && BeginStep(s, s', t, key)
    ensures SystemInvariant(h, origin, s') && KeepsAsking(s, s') && s'.bytes == s.bytes
  {
    BeginStepShape(s, s', t, key);
    BeginStepThread(h, s, t, key);
    JustifiedStays(h, origin, s, s');
    hide Invariant, Justified, ThreadOk, Grows, BeginStep, LockOf, KeepsAsking;
  }

  // ---- every run ---------------------------------------------------------------------------

  /** An interleaving of the threads: each state is some thread's step from the one before. */
  ghost predicate Execution(h: Hashing, r: seq<System>) {
    && |r| > 0 && Start(r[0])
    && (forall i | 0 <= i < |r| :: |r[i].bytes| == |r[0].bytes|)
    && (forall i {:trigger NextAt(h, r, i)} :: NextAt(h, r, i))
  }

  ghost predicate NextAt(h: Hashing, r: seq<System>, i: int) {
    0 <= i && i + 1 < |r| ==> Next(h, r[i], r[i + 1])
  }

  ghost predicate Next(h: Hashing, s: System, s': System) {
    |s.bytes| > 0 && exists t :: StepOf(h, s, s', t)
  }

  lemma StepKeepsSystem(h: Hashing, origin: seq<bv8>, s: System, s': System, t: nat)
    requires SystemInvariant(h, origin, s) && StepOf(h, s, s', t)
    ensures SystemInvariant(h, origin, s') && KeepsAsking(s, s') && Grows(s.bytes, s'.bytes)
  {
    if FilterStep(h, s, s', t) {
      FilterStepKeeps(h, origin, s, s', t);
      FilterStepGrows(h, s, s', t);
    } else if key :| BeginStep(s, s', t, key) {
      BeginStepKeeps(h, origin, s, s', t, key);
    } else {
      var c, phase :| LockStep(h, s, s', t, c, phase);
      LockStepKeeps(h, origin, s, s', t, c, phase);
      LockStepShape(h, s, s', t, c, phase);
    }
  }

  lemma NextKeeps(h: Hashing, origin: seq<bv8>, s: System, s': System)
    requires SystemInvariant(h, origin, s) && Next(h, s, s')
    ensures SystemInvariant(h, origin, s') && Grows(s.bytes, s'.bytes)
  {
    hide SystemInvariant, StepOf, KeepsAsking, Grows;
    assert |s.bytes| > 0;
    var t :| StepOf(h, s, s', t);
    StepKeepsSystem(h, origin, s, s', t);
  }

  /** The invariant holds in every state of every interleaving. */
  lemma {:induction false} InvariantReached(h: Hashing, r: seq<System>, i: nat)
    requires Execution(h, r) && i < |r|
    ensures SystemInvariant(h, r[0].bytes, r[i])
  {
    hide SystemInvariant, Next, Start;
    if i == 0 {
      StartHolds(h, r[0]);
    } else {
      InvariantReached(h, r, i - 1);
      assert NextAt(h, r, i - 1);
      NextKeeps(h, r[0].bytes, r[i - 1], r[i]);
    }
  }

  lemma GrowsReflexively(a: seq<bv8>)
    ensures Grows(a, a)
  {
  }

  /** No step of any thread ever clears a bit. */
  lemma {:induction false} ExecutionGrows(h: Hashing, r: seq<System>, i: nat, j: nat)
    requires Execution(h, r) && i <= j < |r|
    ensures Grows(r[i].bytes, r[j].bytes)
    decreases j - i
  {
    hide SystemInvariant, Next, Start, Grows;
    if i == j {
      GrowsReflexively(r[i].bytes);
    } else {
      ExecutionGrows(h, r, i, j - 1);
      InvariantReached(h, r, j - 1);
      assert NextAt(h, r, j - 1);
      NextKeeps(h, r[0].bytes, r[j - 1], r[j]);
      GrowsTransitively(r[i].bytes, r[j - 1].bytes, r[j].bytes);
    }
  }

  /** Once an insertion has returned, its key is contained in every later state. */
  lemma ContainedForever(h: Hashing, r: seq<System>, i: nat, j: nat, t: nat, key: Key)
    requires Execution(h, r) && i <= j < |r|
    requires t in r[i].threads && key in r[i].threads[t].returned
    ensures Contained(h, r[j].bytes, key)
    ensures forall n: nat, q: nat |
              n < h.count && q < 8 * |r[j].bytes| && h.hash(key, n) % (8 * |r[j].bytes|) == q :: IsSet(r[j].bytes, q)
  {
    InvariantReached(h, r, i);
    ExecutionGrows(h, r, i, j);
    assert ThreadOk(h, r[i].bytes, r[i].threads[t]);
    assert Contained(h, r[i].bytes, key);
    hide Execution, SystemInvariant, ThreadOk, IsSet;
    ContainedHashes(h, r[j].bytes, key);
  }

  /** The same for a membership test that takes no lock and reads its bytes one after the other
      while others insert: whenever each read happens, it finds its bit. */
  lemma EveryLaterReadFindsItsBit(h: Hashing, r: seq<System>, i: nat, t: nat, key: Key, when: seq<nat>)
    requires Execution(h, r) && i < |r| && t in r[i].threads && key in r[i].threads[t].returned
    requires |when| == h.count && forall n | 0 <= n < h.count :: i <= when[n] < |r|
    ensures forall n | 0 <= n < h.count ::
              IsSet(r[when[n]].bytes, Position(h, |r[when[n]].bytes|, key, n))
  {
    forall n | 0 <= n < h.count
      ensures IsSet(r[when[n]].bytes, Position(h, |r[when[n]].bytes|, key, n))
    {
      ContainedForever(h, r, i, when[n], t, key);
    }
  }

  /** When no call is under way, the array is what insertUnSafe leaves when it is called with
      the keys of all calls that have returned, one after the other, in any order. */
  lemma SameAsSequential(h: Hashing, r: seq<System>, i: nat, keys: seq<Key>)
    requires Execution(h, r) && i < |r|
    requires forall t | t in r[i].threads :: r[i].threads[t].phase == Idle
    requires forall key :: key in keys <==> exists t :: t in r[i].threads && key in r[i].threads[t].returned
    ensures r[i].bytes == InsertedAll(h, r[0].bytes, keys)
  {
    InvariantReached(h, r, i);
    var s, origin := r[i], r[0].bytes;
    var sequential := InsertedAll(h, origin, keys);
    hide Execution, Invariant, LockOf, IsSet, Touches, InsertedAll;
    forall q: nat | q < 8 * |origin|
      ensures IsSet(s.bytes, q) == IsSet(sequential, q)
    {
      InsertedAllSets(h, origin, keys, q);
      if IsSet(sequential, q) && !IsSet(origin, q) {
        var key :| key in keys && Touches(h, |origin|, key, h.count, q);
        var t :| t in s.threads && key in s.threads[t].returned;
        ReturnedHasItsBits(h, s, t, key, q);
      }
      if IsSet(s.bytes, q) && !IsSet(origin, q) {
        assert Asked(h, |origin|, s, q);
        var t, key :| t in s.threads && s.threads[t].Asks(key) && Touches(h, |origin|, key, h.count, q);
        assert key in keys;
      }
    }
    BytesAreTheirBits(s.bytes, sequential);
  }

  /** Bit by bit: with no call under way, a bit is set when it was at the start, or when a hash
      function of a returned key names it. */
  lemma QuietBits(h: Hashing, r: seq<System>, i: nat, keys: seq<Key>, q: nat)
    requires Execution(h, r) && i < |r| && q < 8 * |r[0].bytes|
    requires forall t | t in r[i].threads :: r[i].threads[t].phase == Idle
    requires forall key :: key in keys <==> exists t :: t in r[i].threads && key in r[i].threads[t].returned
    ensures |r[i].bytes| == |r[0].bytes| > 0
    ensures IsSet(r[i].bytes, q) <==>
            || IsSet(r[0].bytes, q)
            || exists key, n: nat :: key in keys && n < h.count && h.hash(key, n) % (8 * |r[0].bytes|) == q
  {
    SameAsSequential(h, r, i, keys);
    InvariantReached(h, r, i);
    hide Execution, SystemInvariant, IsSet, Touches, InsertedAll;
    var size := |r[0].bytes|;
    InsertedAllSets(h, r[0].bytes, keys, q);
    if key :| key in keys && Touches(h, size, key, h.count, q) {
      TouchesHashes(h, size, key, h.count, q);
    }
    if key, n: nat :| key in keys && n < h.count && h.hash(key, n) % (8 * size) == q {
      TouchesHashes(h, size, key, h.count, q);
    }
  }

  lemma ReturnedHasItsBits(h: Hashing, s: System, t: nat, key: Key, q: nat)
    requires |s.bytes| > 0 && t in s.threads && ThreadOk(h, s.bytes, s.threads[t]) && key in s.threads[t].returned
    requires q < 8 * |s.bytes| && Touches(h, |s.bytes|, key, h.count, q)
    ensures IsSet(s.bytes, q)
  {
    assert Contained(h, s.bytes, key);
    var i :| 0 <= i < h.count && Position(h, |s.bytes|, key, i) == q;
  }

  // ---- a call that is left alone -----------------------------------------------------------------

  /** Steps of one thread only. */
  ghost predicate Solo(h: Hashing, t: nat, r: seq<System>) {
    |r| > 0 && forall i {:trigger SoloAt(h, t, r, i)} :: SoloAt(h, t, r, i)
  }

  ghost predicate SoloAt(h: Hashing, t: nat, r: seq<System>, i: int) {
    0 <= i && i + 1 < |r| ==> |r[i].bytes| > 0 && StepOf(h, r[i], r[i + 1], t)
  }

  lemma SoloExtends(h: Hashing, t: nat, r: seq<System>, s': System)
    requires Solo(h, t, r) && |r[|r| - 1].bytes| > 0 && StepOf(h, r[|r| - 1], s', t)
    ensures Solo(h, t, r + [s'])
  {
    hide StepOf;
    var longer := r + [s'];
    forall i
      ensures SoloAt(h, t, longer, i)
    {
      assert SoloAt(h, t, r, i);
    }
  }

  /** The system s with another word, another state of thread t, and other bytes. */
  function With(s: System, t: nat, word: nat, th: Thread, bytes: seq<bv8>): System {
    System(word, s.threads[t := th], bytes)
  }

  lemma LockOfWith(s: System, t: nat, word: nat, th: Thread, bytes: seq<bv8>, after: nat, th': Thread)
    requires t in s.threads
    ensures var pc := LockOf(With(s, t, word, th, bytes)).pc;
            && t in pc && pc[t] == th.lock
            && LockOf(With(s, t, word, th, bytes)) == Lock(word, pc)
            && LockOf(With(s, t, after, th', bytes)) == Lock(after, pc[t := th'.lock])
  {
    var pc := LockOf(With(s, t, word, th, bytes)).pc;
    assert LockOf(With(s, t, after, th', bytes)).pc == pc[t := th'.lock];
  }

  lemma WithTwice(s: System, t: nat, word: nat, th: Thread, bytes: seq<bv8>, after: nat, th': Thread)
    requires t in s.threads
    ensures var a := With(s, t, word, th, bytes);
            && t in a.threads && a.threads[t] == th
            && With(s, t, after, th', bytes) == System(after, a.threads[t := th'], bytes)
  {
  }

  lemma LockMoves(h: Hashing, s: System, t: nat, word: nat, th: Thread, bytes: seq<bv8>,
                  c: LockPc, phase: Phase, after: nat)
    requires t in s.threads && |bytes| > 0 && LockAllowed(h, th, c, phase)
    requires forall pc: map<nat, LockPc> | t in pc && pc[t] == th.lock ::
               StepBy(Lock(word, pc), Lock(after, pc[t := c]), t, c)
    ensures StepOf(h, With(s, t, word, th, bytes), With(s, t, after, After(th, c, phase), bytes), t)
  {
    hide StepBy, LockOf, LockAllowed, With;
    var th' := After(th, c, phase);
    LockOfWith(s, t, word, th, bytes, after, th');
    WithTwice(s, t, word, th, bytes, after, th');
    assert LockStep(h, With(s, t, word, th, bytes), With(s, t, after, th', bytes), t, c, phase) by {
      WithBytes(s, t, word, th, bytes);
    }
  }

  lemma WithBytes(s: System, t: nat, word: nat, th: Thread, bytes: seq<bv8>)
    ensures With(s, t, word, th, bytes).bytes == bytes && With(s, t, word, th, bytes).word == word
  {
  }

  /** One more step of thread t on the lock. */
  lemma TakesLockStep(h: Hashing, s: System, t: nat, r: seq<System>, word: nat, th: Thread, bytes: seq<bv8>,
                      c: LockPc, phase: Phase, after: nat) returns (longer: seq<System>)
    requires Solo(h, t, r) && r[|r| - 1] == With(s, t, word, th, bytes)
    requires t in s.threads && |bytes| > 0 && LockAllowed(h, th, c, phase)
    requires forall pc: map<nat, LockPc> | t in pc && pc[t] == th.lock ::
               StepBy(Lock(word, pc), Lock(after, pc[t := c]), t, c)
    ensures Solo(h, t, longer) && longer[0] == r[0]
    ensures longer[|longer| - 1] == With(s, t, after, After(th, c, phase), bytes)
  {
    hide Solo, StepOf, LockAllowed, StepBy, After;
    longer := r + [With(s, t, after, After(th, c, phase), bytes)];
    LockMoves(h, s, t, word, th, bytes, c, phase, after);
    SoloExtends(h, t, r, longer[|r|]);
    assert longer[0] == r[0] by {
      SoloIsNotEmpty(h, t, r);
    }
  }

  lemma SoloIsNotEmpty(h: Hashing, t: nat, r: seq<System>)
    requires Solo(h, t, r)
    ensures |r| > 0
  {
  }

  /** What a call sees when nobody else sets bits. */
  function Seen(h: Hashing, bytes: seq<bv8>, key: Key, n: nat): (seen: seq<bool>)
    requires |bytes| > 0
    ensures |seen| == n
  {
    seq(n, i requires 0 <= i < n => IsSet(bytes, Position(h, |bytes|, key, i)))
  }

  lemma LooksOnce(h: Hashing, s: System, t: nat, word: nat, key: Key, returned: seq<Key>, bytes: seq<bv8>, n: nat)
    requires t in s.threads && |bytes| > 0 && n < h.count
    ensures var a := With(s, t, word, Thread(key, Shared, Looking(Seen(h, bytes, key, n)), returned), bytes);
            var b := With(s, t, word, Thread(key, Shared, Looking(Seen(h, bytes, key, n + 1)), returned), bytes);
            StepOf(h, a, b, t)
  {
    assert Seen(h, bytes, key, n + 1) == Seen(h, bytes, key, n) + [IsSet(bytes, Position(h, |bytes|, key, n))];
    hide Seen, IsSet, Position;
  }

  lemma {:induction false} LooksAlone(h: Hashing, s: System, t: nat, r: seq<System>, word: nat, key: Key,
                                      returned: seq<Key>, bytes: seq<bv8>, n: nat) returns (longer: seq<System>)
    requires Solo(h, t, r) && t in s.threads && |bytes| > 0 && n <= h.count
    requires r[|r| - 1] == With(s, t, word, Thread(key, Shared, Looking(Seen(h, bytes, key, n)), returned), bytes)
    ensures Solo(h, t, longer) && longer[0] == r[0]
    ensures longer[|longer| - 1] ==
            With(s, t, word, Thread(key, Shared, Looking(Seen(h, bytes, key, h.count)), returned), bytes)
    decreases h.count - n
  {
    hide Solo, StepOf, Seen;
    if n == h.count {
      longer := r;
    } else {
      LooksOnce(h, s, t, word, key, returned, bytes, n);
      SoloIsNotEmpty(h, t, r);
      var next := With(s, t, word, Thread(key, Shared, Looking(Seen(h, bytes, key, n + 1)), returned), bytes);
      SoloExtends(h, t, r, next);
      longer := LooksAlone(h, s, t, r + [next], word, key, returned, bytes, n + 1);
    }
  }

  function SettingThread(key: Key, returned: seq<Key>, seen: seq<bool>, n: nat, loaded: Loaded): Thread {
    Thread(key, Exclusive, Setting(seen, n, loaded), returned)
  }

  /** A bit that was seen is skipped. */
  lemma Skips(h: Hashing, s: System, t: nat, word: nat, key: Key, returned: seq<Key>, before: seq<bv8>, n: nat)
    requires t in s.threads && |before| > 0 && n < h.count && Seen(h, before, key, h.count)[n]
    ensures var seen, bytes := Seen(h, before, key, h.count), Inserted(h, before, key, n);
            && Inserted(h, before, key, n + 1) == bytes
            && StepOf(h, With(s, t, word, SettingThread(key, returned, seen, n, Nothing), bytes),
                      With(s, t, word, SettingThread(key, returned, seen, n + 1, Nothing), bytes), t)
  {
    var bytes, p := Inserted(h, before, key, n), Position(h, |before|, key, n);
    hide IsSet, Position, WithBit;
    InsertedSets(h, before, key, n, p);
    AlreadySet(bytes, p);
  }

  /** A bit that was not seen is set, by a load and a store. */
  lemma LoadsAndStores(h: Hashing, s: System, t: nat, word: nat, key: Key, returned: seq<Key>, seen: seq<bool>,
                       bytes: seq<bv8>, n: nat, value: bv8)
    requires t in s.threads && |bytes| > 0 && n < h.count == |seen| && !seen[n]
    requires value == bytes[Position(h, |bytes|, key, n) / 8]
    ensures StepOf(h, With(s, t, word, SettingThread(key, returned, seen, n, Nothing), bytes),
                   With(s, t, word, SettingThread(key, returned, seen, n, Byte(value)), bytes), t)
    ensures StepOf(h, With(s, t, word, SettingThread(key, returned, seen, n, Byte(value)), bytes),
                   With(s, t, word, SettingThread(key, returned, seen, n + 1, Nothing),
                        WithBit(bytes, Position(h, |bytes|, key, n))), t)
  {
    hide IsSet, Position, Mask;
  }

  /** Thread t about to treat hash function n, with the bytes as the functions before it left them. */
  function AtHash(h: Hashing, s: System, t: nat, word: nat, key: Key, returned: seq<Key>, before: seq<bv8>,
                  n: nat): System
    requires |before| > 0
  {
    With(s, t, word, SettingThread(key, returned, Seen(h, before, key, h.count), n, Nothing),
         Inserted(h, before, key, n))
  }

  lemma SetsOnce(h: Hashing, s: System, t: nat, r: seq<System>, word: nat, key: Key, returned: seq<Key>,
                 before: seq<bv8>, n: nat) returns (longer: seq<System>)
    requires Solo(h, t, r) && t in s.threads && |before| > 0 && n < h.count
    requires r[|r| - 1] == AtHash(h, s, t, word, key, returned, before, n)
    ensures Solo(h, t, longer) && longer[0] == r[0]
    ensures longer[|longer| - 1] == AtHash(h, s, t, word, key, returned, before, n + 1)
  {
    var seen, bytes := Seen(h, before, key, h.count), Inserted(h, before, key, n);
    assert Inserted(h, before, key, n + 1) == WithBit(bytes, Position(h, |bytes|, key, n));
    hide Solo, StepOf, Seen, Inserted, WithBit, Position, SettingThread;
    SoloIsNotEmpty(h, t, r);
    var next := AtHash(h, s, t, word, key, returned, before, n + 1);
    if seen[n] {
      Skips(h, s, t, word, key, returned, before, n);
      longer := r + [next];
      SoloExtends(h, t, r, next);
    } else {
      var value := bytes[Position(h, |bytes|, key, n) / 8];
      LoadsAndStores(h, s, t, word, key, returned, seen, bytes, n, value);
      longer := SoloTwice(h, t, r, With(s, t, word, SettingThread(key, returned, seen, n, Byte(value)), bytes), next);
    }
  }

  lemma SoloTwice(h: Hashing, t: nat, r: seq<System>, middle: System, next: System) returns (longer: seq<System>)
    requires Solo(h, t, r) && |r[|r| - 1].bytes| > 0 && |middle.bytes| > 0
    requires StepOf(h, r[|r| - 1], middle, t) && StepOf(h, middle, next, t)
    ensures Solo(h, t, longer) && longer[0] == r[0] && longer[|longer| - 1] == next
  {
    hide Solo, StepOf;
    SoloIsNotEmpty(h, t, r);
    SoloExtends(h, t, r, middle);
    SoloExtends(h, t, r + [middle], next);
    longer := r + [middle] + [next];
  }

  lemma {:induction false} SetsAlone(h: Hashing, s: System, t: nat, r: seq<System>, word: nat, key: Key,
                                     returned: seq<Key>, before: seq<bv8>, n: nat) returns (longer: seq<System>)
    requires Solo(h, t, r) && t in s.threads && |before| > 0 && n <= h.count
    requires r[|r| - 1] == AtHash(h, s, t, word, key, returned, before, n)
    ensures Solo(h, t, longer) && longer[0] == r[0]
    ensures longer[|longer| - 1] == AtHash(h, s, t, word, key, returned, before, h.count)
    decreases h.count - n
  {
    hide Solo, AtHash;
    if n == h.count {
      longer := r;
    } else {
      longer := SetsOnce(h, s, t, r, word, key, returned, before, n);
      longer := SetsAlone(h, s, t, longer, word, key, returned, before, n + 1);
    }
  }

  /** Alone, a call begins and enters shared mode on a free lock. */
  lemma BeginsAlone(h: Hashing, s: System, t: nat, key: Key, returned: seq<Key>) returns (r: seq<System>)
    requires t in s.threads && |s.bytes| > 0 && s.word == 0
    requires s.threads[t].phase == Idle && s.threads[t].lock == Out && s.threads[t].returned == returned
    ensures Solo(h, t, r) && r[0] == s
    ensures r[|r| - 1] == With(s, t, 1, Thread(key, Shared, Looking([]), returned), s.bytes)
  {
    var b := s.bytes;
    var begun := With(s, t, 0, Thread(key, Out, Looking([]), returned), b);
    assert BeginStep(s, begun, t, key);
    assert Solo(h, t, [s]);
    SoloExtends(h, t, [s], begun);
    r := [s] + [begun];
    hide Solo, StepOf;
    r := TakesLockStep(h, s, t, r, 0, Thread(key, Out, Looking([]), returned), b, ReadTry, Looking([]), 0);
    r := TakesLockStep(h, s, t, r, 0, Thread(key, ReadTry, Looking([]), returned), b, Shared, Looking([]), 1);
  }

  /** Having seen all its bits it leaves shared mode and enters exclusive mode. */
  lemma TurnsAlone(h: Hashing, s: System, t: nat, r: seq<System>, key: Key, returned: seq<Key>, seen: seq<bool>,
                   b: seq<bv8>) returns (longer: seq<System>)
    requires Solo(h, t, r) && t in s.threads && |b| > 0 && |seen| == h.count
    requires r[|r| - 1] == With(s, t, 1, Thread(key, Shared, Looking(seen), returned), b)
    ensures Solo(h, t, longer) && longer[0] == r[0]
    ensures longer[|longer| - 1] == With(s, t, WRITE_BIT, SettingThread(key, returned, seen, 0, Nothing), b)
  {
    hide Solo, StepOf;
    var setting := Setting(seen, 0, Nothing);
    longer := TakesLockStep(h, s, t, r, 1, Thread(key, Shared, Looking(seen), returned), b, Out, setting, 0);
    longer := TakesLockStep(h, s, t, longer, 0, Thread(key, Out, setting, returned), b, WriteTry, setting, 0);
    longer := TakesLockStep(h, s, t, longer, 0, Thread(key, WriteTry, setting, returned), b, Exclusive, setting,
                            WRITE_BIT);
  }

  /** A call that no other thread interrupts, on a free lock, returns and has inserted its key. */
  lemma CallAlone(h: Hashing, s: System, t: nat, key: Key) returns (r: seq<System>)
    requires t in s.threads && |s.bytes| > 0 && s.word == 0
    requires s.threads[t].phase == Idle && s.threads[t].lock == Out
    ensures Solo(h, t, r) && r[0] == s
    ensures var th := Thread(key, Out, Idle, s.threads[t].returned + [key]);
            r[|r| - 1] == System(0, s.threads[t := th], Inserted(h, s.bytes, key, h.count))
  {
    var returned, b := s.threads[t].returned, s.bytes;
    assert Seen(h, b, key, 0) == [] && Inserted(h, b, key, 0) == b;
    hide Solo, StepOf, Seen, Inserted, StepBy;
    r := BeginsAlone(h, s, t, key, returned);
    r := LooksAlone(h, s, t, r, 1, key, returned, b, 0);
    var seen := Seen(h, b, key, h.count);
    r := TurnsAlone(h, s, t, r, key, returned, seen, b);
    r := SetsAlone(h, s, t, r, WRITE_BIT, key, returned, b, 0);
    r := EndsAlone(h, s, t, r, key, returned, seen, Inserted(h, b, key, h.count));
  }

  lemma EndsAlone(h: Hashing, s: System, t: nat, r: seq<System>, key: Key, returned: seq<Key>, seen: seq<bool>,
                  b: seq<bv8>) returns (longer: seq<System>)
    requires Solo(h, t, r) && t in s.threads && |b| > 0
    requires r[|r| - 1] == With(s, t, WRITE_BIT, SettingThread(key, returned, seen, h.count, Nothing), b)
    ensures Solo(h, t, longer) && longer[0] == r[0]
    ensures longer[|longer| - 1] == With(s, t, 0, Thread(key, Out, Idle, returned + [key]), b)
  {
    hide Solo, StepOf;
    var th := SettingThread(key, returned, seen, h.count, Nothing);
    longer := TakesLockStep(h, s, t, r, WRITE_BIT, th, b, Out, Idle, 0);
  }

  /** With no call under way nobody is at the lock. */
  lemma QuietMeansFree(h: Hashing, origin: seq<bv8>, s: System)
    requires SystemInvariant(h, origin, s) && forall t | t in s.threads :: s.threads[t].phase == Idle
    ensures s.word == 0 && forall t | t in s.threads :: s.threads[t].lock == Out
  {
    forall t | t in s.threads
      ensures s.threads[t].lock == Out
    {
      assert ThreadOk(h, s.bytes, s.threads[t]);
    }
    WordTells(LockOf(s));
    hide Invariant, ThreadOk;
  }

  /** From every reachable state without a call under way, a call by one thread can run to its
      return, and has then set the bits that its hash functions name and no other. */
  lemma CallReturns(h: Hashing, r: seq<System>, i: nat, t: nat, key: Key) returns (solo: seq<System>)
    requires Execution(h, r) && i < |r| && t in r[i].threads
    requires forall u | u in r[i].threads :: r[i].threads[u].phase == Idle
    ensures Solo(h, t, solo) && solo[0] == r[i]
    ensures var s', returned := solo[|solo| - 1], r[i].threads[t].returned + [key];
            && s'.threads == r[i].threads[t := Thread(key, Out, Idle, returned)]
            && |s'.bytes| == |r[i].bytes| > 0
            && forall q: nat | q < 8 * |s'.bytes| ::
                 IsSet(s'.bytes, q) <==>
                 IsSet(r[i].bytes, q) || exists n: nat :: n < h.count && h.hash(key, n) % (8 * |s'.bytes|) == q
  {
    InvariantReached(h, r, i);
    hide Execution, SystemInvariant, IsSet, Inserted, Solo;
    QuietMeansFree(h, r[0].bytes, r[i]);
    solo := CallAlone(h, r[i], t, key);
    InsertedHashes(h, r[i].bytes, key);
  }
}
