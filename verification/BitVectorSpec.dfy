/** What a packed bit vector means: the boolean sequence stored in its words, the padding
    invariant of its last word, and the sequence-level meaning of every operation. */
module BitVectorSpec {
  import opened Words

  /** The largest size_t. */
  const SIZE_MAX: nat := 0xFFFF_FFFF_FFFF_FFFF

  /** Words needed for n bits. */
  function WordCount(n: nat): nat {
    n / 64 + if n % 64 != 0 then 1 else 0
  }

  /** Bit p of a run of words, false outside it. */
  predicate At(ws: seq<Word>, p: int) {
    0 <= p < 64 * |ws| && ws[p / 64][p % 64]
  }

  predicate ZeroFrom(w: Word, j: nat) {
    forall i | j <= i < 64 :: !w[i]
  }

  /** The invariant every operation relies on: bits of the last word at or after n are zero. */
  predicate PaddingClear(ws: seq<Word>, n: nat) {
    && |ws| == WordCount(n)
    && (n % 64 != 0 ==> ZeroFrom(ws[|ws| - 1], n % 64))
  }

  /** The n logical bits stored in ws. */
  function Logical(ws: seq<Word>, n: nat): (b: seq<bool>)
    requires |ws| == WordCount(n)
  {
    seq(n, p requires 0 <= p < n => At(ws, p))
  }

  lemma AtWord(ws: seq<Word>, k: nat, i: nat)
    requires k < |ws| && i < 64
    ensures At(ws, 64 * k + i) == ws[k][i]
  {
  }

  lemma PaddingIsZero(ws: seq<Word>, n: nat, p: nat)
    requires PaddingClear(ws, n) && p >= n
    ensures !At(ws, p)
  {
  }

  /** A word-by-word description settles both the logical bits and the padding. */
  lemma FromWords(ws: seq<Word>, b: seq<bool>)
    requires |ws| == WordCount(|b|)
    requires forall k, i | 0 <= k < |ws| && 0 <= i < 64 :: ws[k][i] == (64 * k + i < |b| && b[64 * k + i])
    ensures PaddingClear(ws, |b|) && Logical(ws, |b|) == b
  {
    forall p | 0 <= p < |b|
      ensures Logical(ws, |b|)[p] == b[p]
    {
      assert ws[p / 64][p % 64] == b[64 * (p / 64) + p % 64];
    }
  }

  lemma ToWords(ws: seq<Word>, n: nat)
    requires PaddingClear(ws, n)
    ensures forall k, i | 0 <= k < |ws| && 0 <= i < 64 ::
              ws[k][i] == (64 * k + i < n && Logical(ws, n)[64 * k + i])
  {
    forall k, i | 0 <= k < |ws| && 0 <= i < 64
      ensures ws[k][i] == (64 * k + i < n && Logical(ws, n)[64 * k + i])
    {
      AtWord(ws, k, i);
      if 64 * k + i >= n {
        PaddingIsZero(ws, n, 64 * k + i);
      }
    }
  }

  // ---- meanings ----------------------------------------------------------------

  function Zeros(n: nat): seq<bool> {
    seq(n, _ => false)
  }

  function WithRange(b: seq<bool>, start: nat, count: nat, value: bool): (r: seq<bool>) {
    seq(|b|, p requires 0 <= p < |b| => if start <= p < start + count then value else b[p])
  }

  function Flipped(b: seq<bool>): seq<bool> {
    seq(|b|, p requires 0 <= p < |b| => !b[p])
  }

  function Intersection(a: seq<bool>, b: seq<bool>): seq<bool>
    requires |a| == |b|
  {
    seq(|a|, p requires 0 <= p < |a| => a[p] && b[p])
  }

  function Union(a: seq<bool>, b: seq<bool>): seq<bool>
    requires |a| == |b|
  {
    seq(|a|, p requires 0 <= p < |a| => a[p] || b[p])
  }

  /** Bits of a that b does not set; positions past b are kept. */
  function Difference(a: seq<bool>, b: seq<bool>): seq<bool> {
    seq(|a|, p requires 0 <= p < |a| => a[p] && !(p < |b| && b[p]))
  }

  /** The documented forward shift: the tail moves s places toward the front, zeros follow. */
  function ShiftedForward(b: seq<bool>, t: nat, s: nat): seq<bool> {
    seq(|b|, p requires 0 <= p < |b| => if p < t then b[p] else p + s < |b| && b[p + s])
  }

  /** The documented backward shift: zeros open up at t, the tail moves s places back. */
  function ShiftedBackward(b: seq<bool>, t: nat, s: nat): seq<bool> {
    seq(|b|, p requires 0 <= p < |b| => if p < t then b[p] else p - s >= t && b[p - s])
  }

  /** Writing exactly the positions of a range, word by word, is WithRange. */
  lemma RangeWritten(before: seq<Word>, after: seq<Word>, n: nat, start: nat, count: nat, value: bool)
    requires PaddingClear(before, n) && |after| == |before| && start + count <= n
    requires forall k, i | 0 <= k < |after| && 0 <= i < 64 ::
               after[k][i] == if start <= 64 * k + i < start + count then value else before[k][i]
    ensures PaddingClear(after, n)
    ensures Logical(after, n) == WithRange(Logical(before, n), start, count, value)
  {
    ToWords(before, n);
    FromWords(after, WithRange(Logical(before, n), start, count, value));
  }

  /** Copying the words a shorter vector has and clearing what is past its end truncates. */
  lemma Truncated(source: seq<Word>, m: nat, after: seq<Word>, n: nat)
    requires PaddingClear(source, m) && n <= m && |after| == WordCount(n)
    requires forall k, i | 0 <= k < |after| && 0 <= i < 64 :: after[k][i] == (64 * k + i < n && source[k][i])
    ensures PaddingClear(after, n) && Logical(after, n) == Logical(source, m)[..n]
  {
    ToWords(source, m);
    FromWords(after, Logical(source, m)[..n]);
  }

  lemma FlippedBits(before: seq<Word>, after: seq<Word>, n: nat)
    requires PaddingClear(before, n) && |after| == |before|
    requires forall k, i | 0 <= k < |after| && 0 <= i < 64 :: after[k][i] == (64 * k + i < n && !before[k][i])
    ensures PaddingClear(after, n) && Logical(after, n) == Flipped(Logical(before, n))
  {
    ToWords(before, n);
    FromWords(after, Flipped(Logical(before, n)));
  }

  lemma FlippedWords(before: seq<Word>, after: seq<Word>, n: nat)
    requires PaddingClear(before, n) && n > 0 && |after| == |before|
    requires forall k | 0 <= k < |after| - 1 :: after[k] == Not(before[k])
    requires after[|after| - 1] == And(Not(before[|after| - 1]), Shl(AllOnes(), if n % 64 == 0 then 0 else 64 - n % 64))
    ensures PaddingClear(after, n) && Logical(after, n) == Flipped(Logical(before, n))
  {
    var mask := Shl(AllOnes(), if n % 64 == 0 then 0 else 64 - n % 64);
    assert forall i | 0 <= i < 64 :: mask[i] == (n % 64 == 0 || i < n % 64);
    forall k, i | 0 <= k < |after| && 0 <= i < 64
      ensures after[k][i] == (64 * k + i < n && !before[k][i])
    {
    }
    FlippedBits(before, after, n);
  }

  lemma IntersectionWords(a: seq<Word>, b: seq<Word>, c: seq<Word>, n: nat)
    requires PaddingClear(a, n) && PaddingClear(b, n) && |c| == |a|
    requires forall k | 0 <= k < |c| :: c[k] == And(a[k], b[k])
    ensures PaddingClear(c, n) && Logical(c, n) == Intersection(Logical(a, n), Logical(b, n))
  {
    ToWords(a, n);
    ToWords(b, n);
    hide PaddingClear, Logical;
    FromWords(c, Intersection(Logical(a, n), Logical(b, n)));
  }

  lemma UnionWords(a: seq<Word>, b: seq<Word>, c: seq<Word>, n: nat)
    requires PaddingClear(a, n) && PaddingClear(b, n) && |c| == |a|
    requires forall k | 0 <= k < |c| :: c[k] == Or(a[k], b[k])
    ensures PaddingClear(c, n) && Logical(c, n) == Union(Logical(a, n), Logical(b, n))
  {
    ToWords(a, n);
    ToWords(b, n);
    hide PaddingClear, Logical;
    FromWords(c, Union(Logical(a, n), Logical(b, n)));
  }

  lemma UnsetWords(mine: seq<Word>, n: nat, theirs: seq<Word>, m: nat, after: seq<Word>)
    requires PaddingClear(mine, n) && PaddingClear(theirs, m) && |after| == |mine|
    requires forall k | 0 <= k < |after| :: after[k] == if k < |theirs| then And(mine[k], Not(theirs[k])) else mine[k]
    ensures PaddingClear(after, n)
    ensures Logical(after, n) == Difference(Logical(mine, n), Logical(theirs, m))
  {
    ToWords(mine, n);
    ToWords(theirs, m);
    forall k, i | 0 <= k < |after| && 0 <= i < 64
      ensures after[k][i] == (mine[k][i] && !(k < |theirs| && theirs[k][i]))
    {
    }
    FromWords(after, Difference(Logical(mine, n), Logical(theirs, m)));
  }

  /** The inputs on which the backward shift does not clear the word at the start of the tail:
      that word is aligned, and the distance is whole words plus a remainder. */
  predicate LeavesStaleWord(n: nat, t: nat, s: nat) {
    t % 64 == 0 && s > 64 && s % 64 != 0 && t + s <= n
  }

  /** What the code of the backward shift computes. */
  function CodeShiftedBackward(b: seq<bool>, t: nat, s: nat): seq<bool> {
    seq(|b|, p requires 0 <= p < |b| =>
      if p < t || (LeavesStaleWord(|b|, t, s) && p < t + 64) then b[p] else p - s >= t && b[p - s])
  }

  /** The backward shift, position by position. */
  lemma BackwardElements(b: seq<bool>, t: nat, s: nat)
    requires t < |b|
    ensures s == 0 ==> CodeShiftedBackward(b, t, s) == b
    ensures forall p | 0 <= p < t :: CodeShiftedBackward(b, t, s)[p] == b[p]
    ensures t % 64 != 0 || s < 64 || s % 64 == 0 || t + s > |b| ==>
              forall p | t <= p < |b| && p < t + s :: !CodeShiftedBackward(b, t, s)[p]
    ensures t % 64 == 0 && s >= 64 && s % 64 != 0 && t + s <= |b| ==>
              && (forall p | t <= p < t + 64 :: CodeShiftedBackward(b, t, s)[p] == b[p])
              && (forall p | t + 64 <= p < t + s :: !CodeShiftedBackward(b, t, s)[p])
    ensures forall p | t + s <= p < |b| :: CodeShiftedBackward(b, t, s)[p] == b[p - s]
  {
    var stale := LeavesStaleWord(|b|, t, s);
    assert s == 64 ==> s % 64 == 0;
    assert stale <==> t % 64 == 0 && s >= 64 && s % 64 != 0 && t + s <= |b|;
  }

  /** The forward shift, position by position. */
  lemma ForwardElements(b: seq<bool>, t: nat, s: nat)
    ensures var r := ShiftedForward(b, t, s);
            && |r| == |b| && (s == 0 ==> r == b)
            && (forall p | 0 <= p < t && p < |b| :: r[p] == b[p])
            && (forall p | t <= p && p + s < |b| :: r[p] == b[p + s])
            && (forall p | t <= p < |b| <= p + s :: !r[p])
  {
  }

  /** The code moves the tail back and opens up zeros, for every content, exactly when the tail does
      not start on a word boundary, or the distance is below a word or whole words, or the tail is
      moved past the end. */
  lemma BackwardShiftMeetsDocumentation(n: nat, t: nat, s: nat)
    requires t < n
    ensures (forall b: seq<bool> | |b| == n :: CodeShiftedBackward(b, t, s) == ShiftedBackward(b, t, s))
            <==> t % 64 != 0 || s < 64 || s % 64 == 0 || t + s > n
    ensures forall b: seq<bool>, p | |b| == n && 0 <= p < n ::
              ShiftedBackward(b, t, s)[p] == if p < t then b[p] else if p < t + s then false else b[p - s]
  {
    if LeavesStaleWord(n, t, s) {
      var b := seq(n, _ => true);
      assert CodeShiftedBackward(b, t, s)[t] && !ShiftedBackward(b, t, s)[t];
    }
  }

  // ---- shifts whose sum wraps around ---------------------------------------------------

  /** What `tail_start + shift_distance` is in a size_t. */
  function WrappedSum(t: nat, s: nat): nat {
    (t + s) % (SIZE_MAX + 1)
  }

  /** The word to which the forward shift moves the last word of the array, where e is the sum
      the code has computed: after the first word of an unaligned tail is filled, source and
      destination advance together until the source reaches the end. */
  function LastForwardWrite(n: nat, t: nat, e: nat): int {
    var dest, src := t / 64, e / 64;
    var toEnd := WordCount(n) - 1 - src;
    if t % 64 == 0 then dest + toEnd
    else if t % 64 <= e % 64 then dest + 1 + (toEnd - 1)
    else dest + 1 + toEnd
  }

  /** The first word that the backward shift writes beyond the tail start. */
  function FirstBackwardWrite(t: nat, s: nat): nat {
    t / 64 + s / 64
  }

  /** When the sum wraps around, the forward shift takes its source from before the tail and
      writes past the end of the array. */
  lemma WrappedForwardShiftLeavesTheArray(n: nat, t: nat, s: nat)
    requires t < n <= SIZE_MAX && s <= SIZE_MAX < t + s
    ensures WrappedSum(t, s) < t && WrappedSum(t, s) / 64 < WordCount(n)
    ensures LastForwardWrite(n, t, WrappedSum(t, s)) >= WordCount(n)
  {
    var e := WrappedSum(t, s);
    assert e == t + s - (SIZE_MAX + 1);
    if t % 64 != 0 && t % 64 <= e % 64 {
      assert e / 64 < t / 64;
    }
  }

  /** So does the backward shift, for every vector whose words a size_t can number in bits. */
  lemma WrappedBackwardShiftLeavesTheArray(n: nat, t: nat, s: nat)
    requires t < n <= SIZE_MAX - 63 && s <= SIZE_MAX < t + s
    ensures WrappedSum(t, s) <= n && FirstBackwardWrite(t, s) >= WordCount(n)
  {
    assert WrappedSum(t, s) == t + s - (SIZE_MAX + 1);
  }

  // ---- searching and counting ------------------------------------------------------

  /** r is the nearest position at or after `from` that holds v, or |b| if there is none. */
  predicate IsFirst(b: seq<bool>, from: nat, v: bool, r: nat) {
    && (r == |b| || (from <= r < |b| && b[r] == v))
    && forall q | from <= q < |b| && q < r :: b[q] != v
  }

  /** r is the nearest position strictly before `limit` that holds v, or |b| if there is none. */
  predicate IsLast(b: seq<bool>, limit: nat, v: bool, r: nat)
    requires limit <= |b|
  {
    if r < limit then
      b[r] == v && forall q | r < q < limit :: b[q] != v
    else
      r == |b| && forall q | 0 <= q < limit :: b[q] != v
  }

  /** Every logical position in [lo, hi) holds v. */
  predicate Run(b: seq<bool>, lo: nat, hi: nat, v: bool) {
    forall q | lo <= q < hi && q < |b| :: b[q] == v
  }

  /** The nearest position before the limit, place by place. */
  lemma LastMeans(b: seq<bool>, limit: nat, v: bool, r: nat)
    requires limit <= |b| && IsLast(b, limit, v, r)
    ensures if r < limit then b[r] == v && forall q | r < q < limit :: b[q] != v
            else r == |b| && forall q | 0 <= q < limit :: b[q] != v
  {
  }

  /** Where `view` marks the bits of word k differing from v and shows none, there is a run of v. */
  lemma WordRun(ws: seq<Word>, n: nat, k: nat, view: Word, lo: nat, hi: nat, v: bool)
    requires |ws| == WordCount(n) && k < |ws| && hi <= 64
    requires forall i | lo <= i < hi :: !view[i] && view[i] == (ws[k][i] != v)
    ensures Run(Logical(ws, n), 64 * k + lo, 64 * k + hi, v)
  {
    forall q | 64 * k + lo <= q < 64 * k + hi && q < n
      ensures Logical(ws, n)[q] == v
    {
      AtWord(ws, k, q - 64 * k);
      assert !view[q - 64 * k];
    }
  }

  /** A one in a word is a one at a logical position; a zero is one unless it is padding. */
  lemma WordBit(ws: seq<Word>, n: nat, k: nat, i: nat)
    requires PaddingClear(ws, n) && k < |ws| && i < 64
    ensures 64 * k + i < n ==> Logical(ws, n)[64 * k + i] == ws[k][i]
    ensures ws[k][i] ==> 64 * k + i < n
  {
    AtWord(ws, k, i);
    if 64 * k + i >= n {
      PaddingIsZero(ws, n, 64 * k + i);
    }
  }

  /** The comparison `all` makes on a partial last word. */
  lemma AllInTail(ws: seq<Word>, n: nat)
    requires PaddingClear(ws, n) && n % 64 != 0
    ensures ws[|ws| - 1] == Shl(AllOnes(), 64 - n % 64) <==> Run(Logical(ws, n), 64 * (|ws| - 1), n, true)
  {
    var k := |ws| - 1;
    var full := Shl(AllOnes(), 64 - n % 64);
    if Run(Logical(ws, n), 64 * k, n, true) {
      forall i | 0 <= i < 64
        ensures ws[k][i] == full[i]
      {
        WordBit(ws, n, k, i);
      }
    }
    if ws[k] == full {
      WordRun(ws, n, k, Not(ws[k]), 0, n % 64, true);
    }
  }

  /** How a forward search concludes when word k shows its first v at bit i. In a search for a
      zero that bit may be the first bit of the padding, which is position n itself. */
  lemma FoundFirst(ws: seq<Word>, n: nat, from: nat, k: nat, view: Word, lo: nat, i: nat, v: bool)
    requires PaddingClear(ws, n) && k < |ws| && i < 64 && from <= 64 * k + i && from < n
    requires from <= 64 * k + lo && lo <= i && (lo == 0 || 64 * k + lo == from)
    requires forall j | lo <= j < 64 :: view[j] == (ws[k][j] == v)
    requires (forall j | lo <= j < i :: !view[j]) && view[i]
    requires Run(Logical(ws, n), from, 64 * k + lo, !v)
    ensures IsFirst(Logical(ws, n), from, v, 64 * k + i)
  {
    var padding := n % 64;
    assert lo <= padding ==> view[padding] == (ws[k][padding] == v);
    WordRun(ws, n, k, view, lo, i, !v);
    WordBit(ws, n, k, i);
  }

  /** One step of a backward search: `view` marks the bits of word k before `hi` that hold v,
      and `zeros` of its last bits are unmarked. */
  lemma BackwardStep(ws: seq<Word>, n: nat, limit: nat, k: nat, view: Word, hi: nat, zeros: nat, v: bool)
    requires PaddingClear(ws, n) && k < |ws| && hi <= 64 && 64 * k + hi <= limit <= n
    requires Run(Logical(ws, n), 64 * k + hi, limit, !v)
    requires forall i | 0 <= i < 64 :: view[i] == (i < hi && ws[k][i] == v)
    requires forall i | 64 - zeros <= i < 64 :: i >= 0 ==> !view[i]
    requires if view == Zero() then zeros == 64 else zeros < 64 && view[63 - zeros]
    ensures view == Zero() ==> Run(Logical(ws, n), 64 * k, limit, !v)
    ensures view != Zero() ==> IsLast(Logical(ws, n), limit, v, 64 * k + 63 - zeros)
  {
    var lo := if 64 - zeros <= hi then 64 - zeros else hi;
    WordRun(ws, n, k, view, lo, hi, !v);
    if view != Zero() {
      WordBit(ws, n, k, 63 - zeros);
    }
  }

  /** All stored bits in order, padding included. */
  function Flat(ws: seq<Word>): (b: seq<bool>) {
    if ws == [] then [] else Flat(ws[..|ws| - 1]) + ws[|ws| - 1]
  }

  lemma {:induction false} FlatIsStored(ws: seq<Word>)
    ensures |Flat(ws)| == 64 * |ws|
    ensures forall p | 0 <= p < |Flat(ws)| :: Flat(ws)[p] == At(ws, p)
  {
    if ws != [] {
      var c, last := ws[..|ws| - 1], ws[|ws| - 1];
      FlatIsStored(c);
      assert Flat(ws) == Flat(c) + last;
      hide Flat, At;
      forall p | 0 <= p < 64 * |ws|
        ensures (Flat(c) + last)[p] == At(ws, p)
      {
        StoredInFront(ws, p);
      }
    }
  }

  /** A bit is stored in the last word or in those before it. */
  lemma StoredInFront(ws: seq<Word>, p: nat)
    requires ws != [] && p < 64 * |ws|
    ensures At(ws, p) ==
            if p < 64 * (|ws| - 1) then At(ws[..|ws| - 1], p) else ws[|ws| - 1][p - 64 * (|ws| - 1)]
  {
  }

  /** With clear padding, the ones in the words are the ones in the logical bits. */
  lemma OnesInWords(ws: seq<Word>, n: nat)
    requires PaddingClear(ws, n)
    ensures Ones(Flat(ws)) == Ones(Logical(ws, n))
  {
    FlatIsStored(ws);
    var padding := Flat(ws)[n..];
    forall i | 0 <= i < |padding|
      ensures !padding[i]
    {
      PaddingIsZero(ws, n, n + i);
    }
    OnesOfZeros(padding);
    assert Flat(ws) == Logical(ws, n) + padding;
    OnesConcat(Logical(ws, n), padding);
  }
}
