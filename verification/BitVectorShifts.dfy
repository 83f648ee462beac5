/** Word-level facts behind the two in-place shifts of utility/BitVector.hpp. */
module BitVectorShifts {
  import opened Words
  import opened BitVectorSpec

  /** The 64 stored bits from position q on, zeros past the end. */
  function Window(ws: seq<Word>, q: nat): Word {
    seq(64, i requires 0 <= i < 64 => At(ws, q + i))
  }

  /** Two neighbouring words, shifted and merged, are the window that straddles them. */
  lemma Funnel(ws: seq<Word>, a: nat, b: nat)
    requires a < |ws| && 0 < b < 64
    ensures Or(Shl(ws[a], b), if a + 1 < |ws| then Shr(ws[a + 1], 64 - b) else Zero()) == Window(ws, 64 * a + b)
  {
    var merged := Or(Shl(ws[a], b), if a + 1 < |ws| then Shr(ws[a + 1], 64 - b) else Zero());
    forall i | 0 <= i < 64
      ensures merged[i] == Window(ws, 64 * a + b)[i]
    {
      assert Window(ws, 64 * a + b)[i] == At(ws, 64 * a + b + i);
      if i + b < 64 {
        AtWord(ws, a, b + i);
        assert 64 * a + (b + i) == 64 * a + b + i;
      } else if a + 1 < |ws| {
        AtWord(ws, a + 1, b + i - 64);
        assert 64 * (a + 1) + (b + i - 64) == 64 * a + b + i;
      }
    }
  }

  /** The last word has no neighbour to merge with. */
  lemma LastFunnel(ws: seq<Word>, b: nat)
    requires |ws| > 0 && 0 < b < 64
    ensures Shl(ws[|ws| - 1], b) == Window(ws, 64 * (|ws| - 1) + b)
  {
    Funnel(ws, |ws| - 1, b);
    assert Shl(ws[|ws| - 1], b) == Or(Shl(ws[|ws| - 1], b), Zero());
  }

  lemma AlignedWindow(ws: seq<Word>, a: nat)
    ensures Window(ws, 64 * a) == if a < |ws| then ws[a] else Zero()
  {
    var w := if a < |ws| then ws[a] else Zero();
    forall i | 0 <= i < 64
      ensures Window(ws, 64 * a)[i] == w[i]
    {
      assert Window(ws, 64 * a)[i] == At(ws, 64 * a + i);
      if a < |ws| {
        AtWord(ws, a, i);
      }
    }
  }

  /** Only words from a on matter to a window that starts there. */
  lemma WindowDependsOnTail(v: seq<Word>, w: seq<Word>, a: nat, q: nat)
    requires |v| == |w| && 64 * a <= q
    requires forall k | a <= k < |v| :: v[k] == w[k]
    ensures Window(v, q) == Window(w, q)
  {
    forall i | 0 <= i < 64
      ensures Window(v, q)[i] == Window(w, q)[i]
    {
      assert Window(v, q)[i] == At(v, q + i) && Window(w, q)[i] == At(w, q + i);
      assert (q + i) / 64 >= a;
    }
  }

  lemma WindowPastEnd(ws: seq<Word>, q: nat)
    requires q >= 64 * |ws|
    ensures Window(ws, q) == Zero()
  {
    forall i | 0 <= i < 64
      ensures !Window(ws, q)[i]
    {
      assert Window(ws, q)[i] == At(ws, q + i);
    }
  }

  // ---- forward -----------------------------------------------------------------------

  /** Word k after the tail from position t on has moved s places toward the front. */
  function ForwardWord(ws: seq<Word>, t: nat, s: nat, k: nat): Word
    requires k < |ws|
  {
    seq(64, i requires 0 <= i < 64 => if 64 * k + i < t then ws[k][i] else At(ws, 64 * k + i + s))
  }

  lemma ForwardWords(before: seq<Word>, after: seq<Word>, n: nat, t: nat, s: nat)
    requires PaddingClear(before, n) && |after| == |before| && t < n
    requires forall k | 0 <= k < |after| :: after[k] == ForwardWord(before, t, s, k)
    ensures PaddingClear(after, n)
    ensures Logical(after, n) == ShiftedForward(Logical(before, n), t, s)
  {
    var b := Logical(before, n);
    var target := ShiftedForward(b, t, s);
    forall k, i | 0 <= k < |after| && 0 <= i < 64
      ensures after[k][i] == (64 * k + i < n && target[64 * k + i])
    {
      var p := 64 * k + i;
      assert after[k][i] == ForwardWord(before, t, s, k)[i];
      if p < t {
        AtWord(before, k, i);
      } else if p + s >= n {
        PaddingIsZero(before, n, p + s);
      }
    }
    FromWords(after, target);
  }

  lemma ForwardHead(ws: seq<Word>, t: nat, s: nat, k: nat)
    requires k < |ws| && 64 * (k + 1) <= t
    ensures ForwardWord(ws, t, s, k) == ws[k]
  {
  }

  lemma ForwardTail(ws: seq<Word>, t: nat, s: nat, k: nat)
    requires k < |ws| && t <= 64 * k
    ensures ForwardWord(ws, t, s, k) == Window(ws, 64 * k + s)
  {
    forall i | 0 <= i < 64
      ensures ForwardWord(ws, t, s, k)[i] == Window(ws, 64 * k + s)[i]
    {
      assert Window(ws, 64 * k + s)[i] == At(ws, 64 * k + s + i);
    }
  }

  /** The bits of the tail's first word before the tail. */
  function Head(w: Word, l: nat): Word {
    seq(64, i requires 0 <= i < 64 => i < l && w[i])
  }

  predicate Split(t: nat, s: nat, d: nat, l: nat, src: nat, sl: nat) {
    t == 64 * d + l && t + s == 64 * src + sl && l < 64 && sl < 64
  }

  /** Bit i of the word in which the tail starts, read at its source position. */
  lemma ForwardFirstBit(ws: seq<Word>, t: nat, s: nat, d: nat, l: nat, src: nat, sl: nat, i: nat)
    requires Split(t, s, d, l, src, sl) && d < |ws| && i < 64
    ensures ForwardWord(ws, t, s, d)[i] ==
            if i < l then ws[d][i]
            else if sl + i - l < 64 then src < |ws| && ws[src][sl + i - l]
            else src + 1 < |ws| && ws[src + 1][sl + i - l - 64]
  {
    if i >= l {
      var q := sl + i - l;
      assert ForwardWord(ws, t, s, d)[i] == At(ws, 64 * src + q);
      if q < 64 {
        if src < |ws| {
          AtWord(ws, src, q);
        }
      } else if src + 1 < |ws| {
        AtWord(ws, src + 1, q - 64);
        assert 64 * (src + 1) + (q - 64) == 64 * src + q;
      }
    }
  }

  lemma ForwardFirstNone(ws: seq<Word>, t: nat, s: nat, d: nat, l: nat, src: nat, sl: nat)
    requires Split(t, s, d, l, src, sl) && d < |ws| <= src
    ensures ForwardWord(ws, t, s, d) == Head(ws[d], l)
  {
    forall i | 0 <= i < 64
      ensures ForwardWord(ws, t, s, d)[i] == Head(ws[d], l)[i]
    {
      ForwardFirstBit(ws, t, s, d, l, src, sl, i);
    }
  }

  /** One source word is enough when the source offset is not past the destination offset. */
  lemma ForwardFirstOne(ws: seq<Word>, t: nat, s: nat, d: nat, l: nat, src: nat, sl: nat)
    requires Split(t, s, d, l, src, sl) && d < |ws| && src < |ws| && sl <= l
    ensures ForwardWord(ws, t, s, d) == Or(Head(ws[d], l), Shr(Shl(ws[src], sl), l))
  {
    forall i | 0 <= i < 64
      ensures ForwardWord(ws, t, s, d)[i] == Or(Head(ws[d], l), Shr(Shl(ws[src], sl), l))[i]
    {
      ForwardFirstBit(ws, t, s, d, l, src, sl, i);
    }
  }

  lemma ForwardFirstTwo(ws: seq<Word>, t: nat, s: nat, d: nat, l: nat, src: nat, sl: nat, next: Word)
    requires Split(t, s, d, l, src, sl) && d < |ws| && src < |ws| && l < sl
    requires next == if src + 1 < |ws| then ws[src + 1] else Zero()
    ensures ForwardWord(ws, t, s, d) ==
            Or(Or(Head(ws[d], l), Shr(Shl(ws[src], sl), l)), Shr(next, l + 64 - sl))
  {
    var merged := Or(Or(Head(ws[d], l), Shr(Shl(ws[src], sl), l)), Shr(next, l + 64 - sl));
    forall i | 0 <= i < 64
      ensures ForwardWord(ws, t, s, d)[i] == merged[i]
    {
      ForwardFirstBit(ws, t, s, d, l, src, sl, i);
    }
  }

  lemma ZeroPrefix(w: Word, bits: nat)
    requires bits <= 64
    ensures Or(Shr(w, bits), Shl(Zero(), 64 - bits)) == Shr(w, bits)
    ensures Shr(Zero(), bits) == Zero()
    ensures Or(Zero(), Shl(Zero(), 64 - bits)) == Zero()
  {
  }

  // ---- backward ----------------------------------------------------------------------

  /** Word k after the tail from t on has moved s places back; a stale word keeps its bits. */
  function BackwardWord(ws: seq<Word>, t: nat, s: nat, stale: bool, k: nat): Word
    requires k < |ws|
  {
    seq(64, i requires 0 <= i < 64 =>
      if 64 * k + i < t || (stale && 64 * k + i < t + 64) then ws[k][i]
      else 64 * k + i - s >= t && At(ws, 64 * k + i - s))
  }

  predicate MovedBackward(was: seq<Word>, now: seq<Word>, t: nat, s: nat, stale: bool) {
    |now| == |was| && forall k | 0 <= k < |now| :: now[k] == BackwardWord(was, t, s, stale, k)
  }

  /** The bits of the tail's first word from the tail on. */
  function TailOf(w: Word, l: nat): Word {
    seq(64, i requires 0 <= i < 64 => i >= l && w[i])
  }

  /** Word j with everything before the tail blanked out. */
  function TailWord(ws: seq<Word>, d: nat, l: nat, j: int): Word {
    if d < j < |ws| then ws[j]
    else if j == d < |ws| then TailOf(ws[d], l)
    else Zero()
  }

  /** Word j of the tail delayed by `bits` bits: its own bits and the last ones of the word before. */
  function Delayed(ws: seq<Word>, d: nat, l: nat, bits: nat, j: int): Word
    requires 0 < bits < 64
  {
    Or(Shr(TailWord(ws, d, l, j), bits), Shl(TailWord(ws, d, l, j - 1), 64 - bits))
  }

  /** The tail begins at bit l of word d and moves by `words` words and `bits` bits. */
  predicate Distance(t: nat, s: nat, d: nat, l: nat, words: nat, bits: nat) {
    t == 64 * d + l && s == 64 * words + bits && l < 64 && bits < 64
  }

  lemma BackwardBit(ws: seq<Word>, t: nat, s: nat, d: nat, l: nat, words: nat, bits: nat, k: nat, i: nat)
    requires Distance(t, s, d, l, words, bits) && k < |ws| && i < 64
    ensures 64 * k + i - s >= t ==> 64 * k + i - s >= 0
    ensures (64 * k + i - s >= t && At(ws, 64 * k + i - s)) ==
            if i >= bits then TailWord(ws, d, l, k - words)[i - bits]
            else TailWord(ws, d, l, k - words - 1)[64 + i - bits]
  {
    var j := if i >= bits then k - words else k - words - 1;
    var c := if i >= bits then i - bits else 64 + i - bits;
    assert 64 * k + i - s == 64 * j + c;
    if j >= 0 {
      AtWord(ws, j, c);
    }
  }

  /** A word past the one where the tail begins merges two source words. */
  lemma BackwardMoved(ws: seq<Word>, t: nat, s: nat, stale: bool, d: nat, l: nat, words: nat, bits: nat, k: nat)
    requires Distance(t, s, d, l, words, bits) && d < k < |ws| && bits != 0 && (stale ==> l == 0)
    ensures BackwardWord(ws, t, s, stale, k) == Delayed(ws, d, l, bits, k - words)
  {
    var merged := Delayed(ws, d, l, bits, k - words);
    forall i | 0 <= i < 64
      ensures BackwardWord(ws, t, s, stale, k)[i] == merged[i]
    {
      BackwardBit(ws, t, s, d, l, words, bits, k, i);
    }
  }

  /** With no remainder a word past the first is the word that many places before it. */
  lemma BackwardCopied(ws: seq<Word>, t: nat, s: nat, d: nat, l: nat, words: nat, k: nat)
    requires Distance(t, s, d, l, words, 0) && d < k < |ws|
    ensures BackwardWord(ws, t, s, false, k) == TailWord(ws, d, l, k - words)
  {
    forall i | 0 <= i < 64
      ensures BackwardWord(ws, t, s, false, k)[i] == TailWord(ws, d, l, k - words)[i]
    {
      BackwardBit(ws, t, s, d, l, words, 0, k, i);
    }
  }

  /** The first word past the gap sees only zeros before it; words in the gap are zero. */
  lemma BackwardGap(ws: seq<Word>, t: nat, s: nat, stale: bool, d: nat, l: nat, words: nat, bits: nat, k: nat)
    requires Distance(t, s, d, l, words, bits) && d < k < |ws| && bits != 0 && (stale ==> l == 0)
    requires k <= d + words
    ensures BackwardWord(ws, t, s, stale, k) ==
            if k == d + words then Shr(TailWord(ws, d, l, d), bits) else Zero()
  {
    BackwardMoved(ws, t, s, stale, d, l, words, bits, k);
    ZeroPrefix(TailWord(ws, d, l, k - words), bits);
  }

  lemma BackwardHead(ws: seq<Word>, t: nat, s: nat, stale: bool, k: nat)
    requires k < |ws| && 64 * (k + 1) <= t
    ensures BackwardWord(ws, t, s, stale, k) == ws[k]
  {
  }

  /** The word where the tail begins. */
  lemma BackwardFirst(ws: seq<Word>, t: nat, s: nat, stale: bool, d: nat, l: nat, words: nat, bits: nat)
    requires Distance(t, s, d, l, words, bits) && d < |ws| && s > 0
    requires stale ==> l == 0
    ensures stale ==> BackwardWord(ws, t, s, stale, d) == ws[d]
    ensures !stale && words != 0 ==> BackwardWord(ws, t, s, stale, d) == Head(ws[d], l)
    ensures !stale && words == 0 ==>
              BackwardWord(ws, t, s, stale, d) == Or(Head(ws[d], l), Shr(TailWord(ws, d, l, d), bits))
  {
    if !stale && words != 0 {
      assert BackwardWord(ws, t, s, stale, d) == Head(ws[d], l);
    } else if !stale {
      var merged := Or(Head(ws[d], l), Shr(TailWord(ws, d, l, d), bits));
      forall i | 0 <= i < 64
        ensures BackwardWord(ws, t, s, stale, d)[i] == merged[i]
      {
        BackwardBit(ws, t, s, d, l, words, bits, d, i);
      }
    }
  }

  /** The words a shift with a remainder leaves behind, case by case. */
  predicate RemainderState(was: seq<Word>, now: seq<Word>, d: nat, l: nat, words: nat, bits: nat)
    requires 0 < bits < 64 && d + words < |was|
  {
    && |now| == |was|
    && (forall k | 0 <= k < d :: now[k] == was[k])
    && (words > 0 ==> now[d] == if l == 0 then was[d] else Head(was[d], l))
    && (words > 0 ==> now[d + words] == Shr(TailOf(was[d], l), bits))
    && (words == 0 ==> now[d] == Or(Head(was[d], l), Shr(TailOf(was[d], l), bits)))
    && (forall k | d < k < d + words :: now[k] == Zero())
    && (forall k | d + words < k < |was| :: now[k] == Delayed(was, d, l, bits, k - words))
  }

  lemma RemainderAssembled(was: seq<Word>, now: seq<Word>, t: nat, s: nat, stale: bool,
                           d: nat, l: nat, words: nat, bits: nat)
    requires Distance(t, s, d, l, words, bits) && bits != 0 && d + words < |was|
    requires stale <==> l == 0 && words > 0
    requires RemainderState(was, now, d, l, words, bits)
    ensures MovedBackward(was, now, t, s, stale)
  {
    forall k | 0 <= k < |now|
      ensures now[k] == BackwardWord(was, t, s, stale, k)
    {
      if k < d {
        BackwardHead(was, t, s, stale, k);
      } else if k == d {
        BackwardFirst(was, t, s, stale, d, l, words, bits);
      } else if k <= d + words {
        BackwardGap(was, t, s, stale, d, l, words, bits, k);
      } else {
        BackwardMoved(was, t, s, stale, d, l, words, bits, k);
      }
    }
  }

  /** The same for a shift by whole words. */
  lemma WholeWordsAssembled(was: seq<Word>, now: seq<Word>, t: nat, s: nat, d: nat, l: nat, words: nat)
    requires Distance(t, s, d, l, words, 0) && words > 0 && d < |was| == |now|
    requires forall k | 0 <= k < d :: now[k] == was[k]
    requires now[d] == Head(was[d], l)
    requires forall k | d < k < d + words && k < |was| :: now[k] == Zero()
    requires forall k | d + words <= k < |was| :: now[k] == TailWord(was, d, l, k - words)
    ensures MovedBackward(was, now, t, s, false)
  {
    forall k | 0 <= k < |now|
      ensures now[k] == BackwardWord(was, t, s, false, k)
    {
      if k < d {
        BackwardHead(was, t, s, false, k);
      } else if k == d {
        BackwardFirst(was, t, s, false, d, l, words, 0);
      } else {
        BackwardCopied(was, t, s, d, l, words, k);
      }
    }
  }

  /** One bit of the shifted sequence, as the words say it. */
  lemma BackwardBitOf(before: seq<Word>, n: nat, t: nat, s: nat, p: nat)
    requires PaddingClear(before, n) && t < n && p < n
    ensures BackwardWord(before, t, s, LeavesStaleWord(n, t, s), p / 64)[p % 64] ==
            CodeShiftedBackward(Logical(before, n), t, s)[p]
  {
    var k, i := p / 64, p % 64;
    assert 64 * k + i == p;
    hide PaddingClear, At, LeavesStaleWord;
  }

  /** Clearing the padding of words that hold the shifted bits yields the shifted sequence. */
  lemma BackwardWords(before: seq<Word>, after: seq<Word>, n: nat, t: nat, s: nat)
    requires PaddingClear(before, n) && PaddingClear(after, n) && t < n
    requires forall k, i | 0 <= k < |after| && 0 <= i < 64 && 64 * k + i < n ::
               after[k][i] == BackwardWord(before, t, s, LeavesStaleWord(n, t, s), k)[i]
    ensures Logical(after, n) == CodeShiftedBackward(Logical(before, n), t, s)
  {
    var target := CodeShiftedBackward(Logical(before, n), t, s);
    hide CodeShiftedBackward, BackwardWord, LeavesStaleWord;
    forall p | 0 <= p < n
      ensures Logical(after, n)[p] == target[p]
    {
      var k, i := p / 64, p % 64;
      AtWord(after, k, i);
      BackwardBitOf(before, n, t, s, p);
      assert 64 * k + i == p && after[k][i] == Logical(after, n)[p];
    }
    CodeLength(Logical(before, n), t, s);
  }

  lemma CodeLength(b: seq<bool>, t: nat, s: nat)
    ensures |CodeShiftedBackward(b, t, s)| == |b|
  {
  }

  /** The moved words with the padding of the last one cleared. */
  lemma BackwardMasked(before: seq<Word>, moved: seq<Word>, after: seq<Word>, n: nat, t: nat, s: nat)
    requires PaddingClear(before, n) && t < n
    requires MovedBackward(before, moved, t, s, LeavesStaleWord(n, t, s)) && |after| == |moved|
    requires forall k | 0 <= k < |after| - 1 :: after[k] == moved[k]
    requires after[|after| - 1] == if n % 64 == 0 then moved[|after| - 1] else Head(moved[|after| - 1], n % 64)
    ensures PaddingClear(after, n)
    ensures Logical(after, n) == CodeShiftedBackward(Logical(before, n), t, s)
  {
    BackwardWords(before, after, n, t, s);
  }
}
