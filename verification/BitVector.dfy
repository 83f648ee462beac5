/** utility/BitVector.hpp with enable_short_version == false: an array of 64-bit words that
    behaves as a plain sequence of booleans. */
module BitVectors {
  import opened Words
  import opened BitVectorSpec
  import opened BitVectorShifts

  /** MaskBitRange: ones from `start`, `count` of them, as far as the word reaches. */
  function MaskBitRange(start: nat, count: nat): Word {
    var limited := if count > 64 then 64 else count;
    if limited != 0 then Shr(Shl(AllOnes(), 64 - limited), start) else Zero()
  }

  /** `w |= mask` or `w &= ~mask`. */
  function Blend(w: Word, mask: Word, value: bool): Word {
    if value then Or(w, mask) else And(w, Not(mask))
  }

  class BitVector {
    const numBits: nat
    const data: array<Word>

    ghost predicate Valid()
      reads this, data
    {
      PaddingClear(data[..], numBits)
    }

    ghost function Bits(): (b: seq<bool>)
      requires Valid()
      reads this, data
      ensures |b| == numBits
    {
      Logical(data[..], numBits)
    }

    constructor (n: nat)
      ensures Valid() && fresh(data)
      ensures numBits == n && Bits() == Zeros(n)
      ensures forall p | 0 <= p < n :: !Bits()[p]
    {
      numBits := n;
      data := new Word[WordCount(n)](_ => Zero());
      new;
      FromWords(data[..], Zeros(n));
    }

    // memset over whole words
    method FillWords(from: nat, count: nat, w: Word)
      requires from + count <= data.Length
      modifies data
      ensures forall k | 0 <= k < data.Length ::
                data[k] == if from <= k < from + count then w else old(data[k])
    {
      forall k | from <= k < from + count {
        data[k] := w;
      }
    }

    // memmove over whole words
    method MoveWords(dest: nat, src: nat, count: nat)
      requires dest + count <= data.Length && src + count <= data.Length
      modifies data
      ensures forall k | 0 <= k < data.Length ::
                data[k] == if dest <= k < dest + count then old(data[k - dest + src]) else old(data[k])
    {
      forall k | dest <= k < dest + count {
        data[k] := data[k - dest + src];
      }
    }

    // `data_array_[k] |= mask` or `data_array_[k] &= ~mask`
    method BlendWord(k: nat, mask: Word, value: bool)
      requires k < data.Length
      modifies data
      ensures forall j | 0 <= j < data.Length && j != k :: data[j] == old(data[j])
      ensures forall i | 0 <= i < 64 :: data[k][i] == if mask[i] then value else old(data[k])[i]
    {
      data[k] := Blend(data[k], mask, value);
    }

    method Clear()
      requires Valid()
      modifies data
      ensures Valid() && Bits() == Zeros(numBits)
      ensures forall p | 0 <= p < numBits :: !Bits()[p]
    {
      FillWords(0, data.Length, Zero());
      FromWords(data[..], Zeros(numBits));
    }

    method GetBit(p: nat) returns (value: bool)
      requires Valid() && p < numBits
      ensures value == Bits()[p]
    {
      value := Shl(data[p / 64], p % 64)[0];
    }

    method SetBit(p: nat, value: bool)
      requires Valid() && p < numBits
      modifies data
      ensures Valid() && Bits() == old(Bits())[p := value]
    {
      ghost var was := data[..];
      BlendWord(p / 64, Shr(Shl(AllOnes(), 63), p % 64), value);
      RangeWritten(was, data[..], numBits, p, 1, value);
      assert WithRange(old(Bits()), p, 1, value) == old(Bits())[p := value];
    }

    method AssignFrom(other: BitVector)
      requires Valid() && other.Valid() && numBits == other.numBits
      modifies data
      ensures Valid() && Bits() == old(other.Bits())
    {
      forall k | 0 <= k < data.Length {
        data[k] := other.data[k];
      }
      assert data[..] == old(other.data[..]);
    }

    method AssignFromLonger(other: BitVector)
      requires Valid() && other.Valid() && numBits <= other.numBits
      modifies data
      ensures Valid() && Bits() == old(other.Bits())[..numBits]
    {
      ghost var source := other.data[..];
      forall k | 0 <= k < data.Length {
        data[k] := other.data[k];
      }
      if numBits % 64 != 0 {
        data[data.Length - 1] := And(data[data.Length - 1], MaskBitRange(0, numBits % 64));
      }
      Truncated(source, other.numBits, data[..], numBits);
    }

    // The part of setBitRange after a possible first partial word.
    method SetAlignedRange(element: nat, count: nat, value: bool)
      requires 64 * element + count <= 64 * data.Length
      modifies data
      ensures forall k, i | 0 <= k < data.Length && 0 <= i < 64 ::
                data[k][i] == if 64 * element <= 64 * k + i < 64 * element + count then value else old(data[k])[i]
    {
      var whole := count / 64;
      FillWords(element, whole, if value then AllOnes() else Zero());
      // The source reads and rewrites this word even when the range ends with the array;
      // its mask is empty then.
      if element + whole < data.Length {
        BlendWord(element + whole, MaskBitRange(0, count % 64), value);
      }
    }

    method SetBitRange(start: nat, count: nat, value: bool)
      requires Valid()
      requires start < numBits || (start == 0 && numBits == 0)
      requires start + count <= numBits
      modifies data
      ensures Valid() && Bits() == WithRange(old(Bits()), start, count, value)
      ensures forall p | 0 <= p < numBits :: Bits()[p] == if start <= p < start + count then value else old(Bits())[p]
    {
      ghost var was := data[..];
      var element := start / 64;
      var lower := start % 64;
      var rest := count;
      if lower != 0 {
        BlendWord(element, MaskBitRange(lower, rest), value);
        rest := rest + lower;
        if rest <= 64 {
          RangeWritten(was, data[..], numBits, start, count, value);
          return;
        }
        element := element + 1;
        rest := rest - 64;
      }
      assert 64 * element + rest == start + count;
      SetAlignedRange(element, rest, value);
      RangeWritten(was, data[..], numBits, start, count, value);
    }

    method SetBitWord(word: nat, value: Word)
      requires Valid() && word < data.Length
      modifies data
      ensures Valid()
      ensures forall p | 0 <= p < numBits ::
                Bits()[p] == if p / 64 == word then value[p % 64] else old(Bits())[p]
    {
      data[word] := value;
      if word == data.Length - 1 && numBits % 64 != 0 {
        data[word] := And(data[word], Shl(AllOnes(), 64 - numBits % 64));
      }
    }

    method FlipBits()
      requires Valid()
      modifies data
      ensures Valid() && Bits() == Flipped(old(Bits()))
      ensures forall p | 0 <= p < numBits :: Bits()[p] != old(Bits())[p]
    {
      if numBits == 0 {
        return;
      }
      ghost var was := data[..];
      var position := 0;
      while position < data.Length - 1
        invariant 0 <= position <= data.Length - 1
        invariant forall k | 0 <= k < position :: data[k] == Not(was[k])
        invariant forall k | position <= k < data.Length :: data[k] == was[k]
      {
        data[position] := Not(data[position]);
        position := position + 1;
      }
      data[position] := Not(data[position]);
      if numBits % 64 != 0 {
        data[position] := And(data[position], Shl(AllOnes(), 64 - numBits % 64));
      }
      FlippedWords(was, data[..], numBits);
    }

    method IntersectWith(other: BitVector)
      requires Valid() && other.Valid() && numBits == other.numBits
      modifies data
      ensures Valid() && Bits() == Intersection(old(Bits()), old(other.Bits()))
      ensures forall p | 0 <= p < numBits :: Bits()[p] <==> old(Bits())[p] && old(other.Bits())[p]
    {
      ghost var was, theirs := data[..], other.data[..];
      var position: nat := 0;
      while position < data.Length
        invariant 0 <= position <= data.Length
        invariant forall k | 0 <= k < position :: data[k] == And(was[k], theirs[k])
        invariant forall k | position <= k < data.Length :: data[k] == was[k] && other.data[k] == theirs[k]
      {
        data[position] := And(data[position], other.data[position]);
        position := position + 1;
      }
      IntersectionWords(was, theirs, data[..], numBits);
    }

    method UnionWith(other: BitVector)
      requires Valid() && other.Valid() && numBits == other.numBits
      modifies data
      ensures Valid() && Bits() == Union(old(Bits()), old(other.Bits()))
      ensures forall p | 0 <= p < numBits :: Bits()[p] <==> old(Bits())[p] || old(other.Bits())[p]
    {
      ghost var was, theirs := data[..], other.data[..];
      var position: nat := 0;
      while position < data.Length
        invariant 0 <= position <= data.Length
        invariant forall k | 0 <= k < position :: data[k] == Or(was[k], theirs[k])
        invariant forall k | position <= k < data.Length :: data[k] == was[k] && other.data[k] == theirs[k]
      {
        data[position] := Or(data[position], other.data[position]);
        position := position + 1;
      }
      UnionWords(was, theirs, data[..], numBits);
    }

    method UnsetFrom(other: BitVector)
      requires Valid() && other.Valid()
      modifies data
      ensures Valid() && Bits() == Difference(old(Bits()), old(other.Bits()))
      ensures forall p | 0 <= p < numBits ::
                Bits()[p] <==> old(Bits())[p] && (p < other.numBits ==> !old(other.Bits())[p])
    {
      ghost var was, theirs := data[..], other.data[..];
      var limit := if data.Length < other.data.Length then data.Length else other.data.Length;
      var position := 0;
      while position < limit
        invariant 0 <= position <= limit
        invariant forall k | 0 <= k < position :: data[k] == And(was[k], Not(theirs[k]))
        invariant forall k | position <= k < data.Length :: data[k] == was[k]
        invariant forall k | position <= k < other.data.Length :: other.data[k] == theirs[k]
      {
        data[position] := And(data[position], Not(other.data[position]));
        position := position + 1;
      }
      UnsetWords(was, numBits, theirs, other.numBits, data[..]);
    }

    method Any() returns (found: bool)
      requires Valid()
      ensures found <==> exists p :: 0 <= p < numBits && Bits()[p]
    {
      for word := 0 to data.Length
        invariant Run(Bits(), 0, 64 * word, false)
      {
        if data[word] != Zero() {
          ghost var i :| 0 <= i < 64 && data[word][i];
          WordBit(data[..], numBits, word, i);
          assert Bits()[64 * word + i];
          return true;
        }
        WordRun(data[..], numBits, word, data[word], 0, 64, false);
      }
      return false;
    }

    method All() returns (every: bool)
      requires Valid()
      ensures every <==> forall p :: 0 <= p < numBits ==> Bits()[p]
    {
      var tail := numBits % 64;
      var full := data.Length - if tail != 0 then 1 else 0;
      for word := 0 to full
        invariant Run(Bits(), 0, 64 * word, true)
      {
        if data[word] != AllOnes() {
          ghost var i :| 0 <= i < 64 && !data[word][i];
          WordBit(data[..], numBits, word, i);
          assert !Bits()[64 * word + i];
          return false;
        }
        WordRun(data[..], numBits, word, Not(data[word]), 0, 64, true);
      }
      every := tail == 0 || data[full] == Shl(AllOnes(), 64 - tail);
      if tail != 0 {
        AllInTail(data[..], numBits);
      }
    }

    method OnesCount() returns (count: nat)
      requires Valid()
      ensures count == Ones(Bits())
    {
      count := 0;
      for position := 0 to data.Length
        invariant count == Ones(Flat(data[..position]))
      {
        var ones := PopulationCount(data[position]);
        assert data[..position + 1][..position] == data[..position];
        OnesConcat(Flat(data[..position]), data[position]);
        count := count + ones;
      }
      assert data[..data.Length] == data[..];
      OnesInWords(data[..], numBits);
    }

    /** The first marked bit of word k, where `view` marks the bits from `lo` on that hold v. */
    method FirstInView(ghost from: nat, k: nat, ghost lo: nat, view: Word, ghost v: bool)
      returns (found: bool, r: nat)
      requires Valid() && k < data.Length && lo < 64 && from < numBits
      requires from <= 64 * k + lo && (lo == 0 || 64 * k + lo == from)
      requires Run(Bits(), from, 64 * k + lo, !v)
      requires forall i | 0 <= i < 64 :: view[i] == (i >= lo && data[k][i] == v)
      ensures found ==> IsFirst(Bits(), from, v, r)
      ensures !found ==> Run(Bits(), from, 64 * k + 64, !v)
    {
      found, r := view != Zero(), 0;
      if found {
        var zeros := LeadingZeroCount(view);
        FoundFirst(data[..], numBits, from, k, view, lo, zeros, v);
        r := 64 * k + zeros;
      } else {
        WordRun(data[..], numBits, k, view, lo, 64, !v);
      }
    }

    method FirstOne(from: nat) returns (r: nat)
      requires Valid()
      requires from < numBits || (from == 0 && numBits == 0)
      ensures IsFirst(Bits(), from, true, r)
      ensures r == numBits || (from <= r < numBits && Bits()[r])
      ensures forall q | from <= q < r :: !Bits()[q]
    {
      if numBits == 0 {
        return 0;
      }
      assert data.Length == WordCount(numBits);
      hide Logical, PaddingClear, And, Shr;
      var found;
      var position: nat := from;
      if position % 64 != 0 {
        var k: nat := position / 64;
        MaskedFront(data[k], position % 64);
        found, r := FirstInView(from, k, position % 64, And(data[k], Shr(AllOnes(), position % 64)), true);
        if found {
          return;
        }
        position := 64 * k + 64;
      }
      for word := position / 64 to data.Length
        invariant from <= 64 * word && Run(Bits(), from, 64 * word, false)
      {
        found, r := FirstInView(from, word, 0, data[word], true);
        if found {
          return;
        }
      }
      r := numBits;
    }

    method FirstZero(from: nat) returns (r: nat)
      requires Valid()
      requires from < numBits || (from == 0 && numBits == 0)
      ensures IsFirst(Bits(), from, false, r)
      ensures r == numBits || (from <= r < numBits && !Bits()[r])
      ensures forall q | from <= q < r :: Bits()[q]
    {
      if numBits == 0 {
        return 0;
      }
      assert data.Length == WordCount(numBits);
      hide Logical, PaddingClear, Or, Shl;
      var found;
      var position: nat := from;
      if position % 64 != 0 {
        var k: nat := position / 64;
        MaskedFront(data[k], position % 64);
        found, r := FirstInView(from, k, position % 64, Not(Or(data[k], Shl(AllOnes(), 64 - position % 64))), false);
        if found {
          return;
        }
        position := 64 * k + 64;
      }
      for word := position / 64 to data.Length
        invariant from <= 64 * word && Run(Bits(), from, 64 * word, true)
      {
        found, r := FirstInView(from, word, 0, Not(data[word]), false);
        if found {
          return;
        }
      }
      r := numBits;
    }

    /** The last marked bit of word k, where `view` marks the bits before `hi` that hold v. */
    method LastInView(ghost position: nat, k: nat, ghost hi: nat, view: Word, ghost v: bool)
      returns (found: bool, r: nat)
      requires Valid() && k < data.Length && hi <= 64 && 64 * k + hi <= position <= numBits
      requires Run(Bits(), 64 * k + hi, position, !v)
      requires forall i | 0 <= i < 64 :: view[i] == (i < hi && data[k][i] == v)
      ensures found ==> IsLast(Bits(), position, v, r)
      ensures !found ==> Run(Bits(), 64 * k, position, !v)
    {
      var zeros := TrailingZeroCount(view);
      BackwardStep(data[..], numBits, position, k, view, hi, zeros, v);
      found, r := view != Zero(), 0;
      if found {
        r := 64 * (k + 1) - zeros - 1;
      }
    }

    method LastOne(limit: nat) returns (r: nat)
      requires Valid()
      requires limit <= numBits || limit == SIZE_MAX
      ensures IsLast(Bits(), if limit == SIZE_MAX then numBits else limit, true, r)
      ensures var end := if limit == SIZE_MAX then numBits else limit;
              if r < end then Bits()[r] && forall q | r < q < end :: !Bits()[q]
              else r == numBits && forall q | 0 <= q < end :: !Bits()[q]
    {
      var position := if limit == SIZE_MAX then numBits else limit;
      r := LastOneBefore(position);
      LastMeans(Bits(), position, true, r);
    }

    method LastOneBefore(position: nat) returns (r: nat)
      requires Valid() && position <= numBits
      ensures IsLast(Bits(), position, true, r)
    {
      if position == 0 {
        return numBits;
      }
      assert data.Length == WordCount(numBits);
      hide Logical, PaddingClear, And, Or, Not, Shl;
      var k: nat := (position - 1) / 64;
      if position % 64 != 0 {
        var value := And(data[k], Shl(AllOnes(), 64 - position % 64));
        MaskedBack(data[k], position % 64, value);
        var found;
        found, r := LastInView(position, k, position % 64, value, true);
        if found {
          return;
        }
        if k == 0 {
          return numBits;
        }
        k := k - 1;
      }
      r := LastOneInWords(k, position);
    }

    // The whole-word part of lastOne: words `top` down to 0.
    method LastOneInWords(top: nat, ghost position: nat) returns (r: nat)
      requires Valid() && 64 * (top + 1) <= position <= numBits
      requires Run(Bits(), 64 * (top + 1), position, false)
      ensures IsLast(Bits(), position, true, r)
    {
      assert data.Length == WordCount(numBits);
      hide Logical, PaddingClear;
      var k: nat := top;
      var found;
      while k > 0
        invariant 64 * (k + 1) <= position
        invariant Run(Bits(), 64 * (k + 1), position, false)
      {
        found, r := LastInView(position, k, 64, data[k], true);
        if found {
          return;
        }
        k := k - 1;
      }
      found, r := LastInView(position, 0, 64, data[0], true);
      if !found {
        r := numBits;
      }
    }

    method LastZero(limit: nat) returns (r: nat)
      requires Valid()
      requires limit <= numBits || limit == SIZE_MAX
      ensures IsLast(Bits(), if limit == SIZE_MAX then numBits else limit, false, r)
      ensures var end := if limit == SIZE_MAX then numBits else limit;
              if r < end then !Bits()[r] && forall q | r < q < end :: Bits()[q]
              else r == numBits && forall q | 0 <= q < end :: Bits()[q]
    {
      var position := if limit == SIZE_MAX then numBits else limit;
      r := LastZeroBefore(position);
      LastMeans(Bits(), position, false, r);
    }

    method LastZeroBefore(position: nat) returns (r: nat)
      requires Valid() && position <= numBits
      ensures IsLast(Bits(), position, false, r)
    {
      if position == 0 {
        return numBits;
      }
      assert data.Length == WordCount(numBits);
      hide Logical, PaddingClear, And, Or, Not, Shl;
      var k: nat := (position - 1) / 64;
      if position % 64 != 0 {
        var value := Not(Or(data[k], Not(Shl(AllOnes(), 64 - position % 64))));
        MaskedBackComplement(data[k], position % 64, value);
        var found;
        found, r := LastInView(position, k, position % 64, value, false);
        if found {
          return;
        }
        if k == 0 {
          return numBits;
        }
        k := k - 1;
      }
      r := LastZeroInWords(k, position);
    }

    // The whole-word part of lastZero: words `top` down to 0.
    method LastZeroInWords(top: nat, ghost position: nat) returns (r: nat)
      requires Valid() && 64 * (top + 1) <= position <= numBits
      requires Run(Bits(), 64 * (top + 1), position, true)
      ensures IsLast(Bits(), position, false, r)
    {
      assert data.Length == WordCount(numBits);
      hide Logical, PaddingClear;
      var k: nat := top;
      var found;
      while k > 0
        invariant 64 * (k + 1) <= position
        invariant Run(Bits(), 64 * (k + 1), position, true)
      {
        found, r := LastInView(position, k, 64, Not(data[k]), false);
        if found {
          return;
        }
        k := k - 1;
      }
      found, r := LastInView(position, 0, 64, Not(data[0]), false);
      if !found {
        r := numBits;
      }
    }

    // The whole-word part of shiftTailForward: every word from `dest` on is filled from the
    // stored bits `distance` places further on, and zeros follow.
    method MoveTailForward(dest: nat, src: nat, srcLower: nat, ghost distance: nat)
      requires dest <= src <= data.Length && srcLower < 64
      requires src == data.Length ==> srcLower == 0
      requires 64 * dest + distance == 64 * src + srcLower
      modifies data
      ensures forall k | 0 <= k < dest :: data[k] == old(data[k])
      ensures forall k | dest <= k < data.Length :: data[k] == Window(old(data[..]), 64 * k + distance)
    {
      ghost var was := data[..];
      var d := dest + (data.Length - src);
      if srcLower != 0 {
        MergeWordsForward(dest, src, srcLower, distance);
      } else {
        MoveWords(dest, src, data.Length - src);
        forall k | dest <= k < d
          ensures data[k] == Window(was, 64 * k + distance)
        {
          AlignedWindow(was, k - dest + src);
          assert 64 * (k - dest + src) == 64 * k + distance;
        }
      }
      FillWords(d, data.Length - d, Zero());
      forall k | d <= k < data.Length
        ensures data[k] == Window(was, 64 * k + distance)
      {
        WindowPastEnd(was, 64 * k + distance);
      }
    }

    // The loop for a source that is not word-aligned.
    method MergeWordsForward(dest: nat, src: nat, srcLower: nat, ghost distance: nat)
      requires dest <= src < data.Length && 0 < srcLower < 64
      requires 64 * dest + distance == 64 * src + srcLower
      modifies data
      ensures var end := dest + (data.Length - src);
              && (forall k | dest <= k < end :: data[k] == Window(old(data[..]), 64 * k + distance))
              && (forall k | 0 <= k < data.Length && (k < dest || end <= k) :: data[k] == old(data[k]))
    {
      hide Window, Or, Shl, Shr;
      ghost var was := data[..];
      var d: nat, s: nat := dest, src;
      while s < data.Length - 1
        invariant dest <= d <= s <= data.Length - 1 && 64 * d + distance == 64 * s + srcLower
        invariant forall k | dest <= k < d :: data[k] == Window(was, 64 * k + distance)
        invariant forall k | 0 <= k < data.Length && (k < dest || d <= k) :: data[k] == was[k]
      {
        Funnel(was, s, srcLower);
        data[d] := Or(Shl(data[s], srcLower), Shr(data[s + 1], 64 - srcLower));
        d, s := d + 1, s + 1;
      }
      LastFunnel(was, srcLower);
      data[d] := Shl(data[s], srcLower);
    }

    // What is left after the word in which the tail starts has been settled.
    method FinishForward(ghost before: seq<Word>, ghost tail: nat, ghost shift: nat,
                         dest: nat, src: nat, srcLower: nat)
      requires PaddingClear(before, numBits) && data.Length == |before| && tail < numBits
      requires dest <= src <= data.Length && srcLower < 64 && (src == data.Length ==> srcLower == 0)
      requires tail <= 64 * dest && 64 * dest + shift == 64 * src + srcLower
      requires forall k | 0 <= k < dest :: data[k] == ForwardWord(before, tail, shift, k)
      requires forall k | dest <= k < data.Length :: data[k] == before[k]
      modifies data
      ensures Valid() && Bits() == ShiftedForward(Logical(before, numBits), tail, shift)
    {
      ghost var was := data[..];
      MoveTailForward(dest, src, srcLower, shift);
      forall k | 0 <= k < data.Length
        ensures data[k] == ForwardWord(before, tail, shift, k)
      {
        if k >= dest {
          ForwardTail(before, tail, shift, k);
          WindowDependsOnTail(was, before, dest, 64 * k + shift);
        }
      }
      ForwardWords(before, data[..], numBits, tail, shift);
    }

    method ShiftTailForward(tail: nat, shift: nat)
      requires Valid() && tail < numBits && tail + shift <= SIZE_MAX
      modifies data
      ensures Valid() && Bits() == ShiftedForward(old(Bits()), tail, shift)
      ensures forall p | 0 <= p < tail :: Bits()[p] == old(Bits())[p]
      ensures forall p | tail <= p && p + shift < numBits :: Bits()[p] == old(Bits())[p + shift]
      ensures forall p | tail <= p < numBits <= p + shift :: !Bits()[p]
    {
      ghost var was := Bits();
      ForwardElements(was, tail, shift);
      hide PaddingClear, Logical, ShiftedForward;
      if shift != 0 {
        ShiftForward(tail, shift);
      }
    }

    // The same for a distance that is not 0.
    method ShiftForward(tail: nat, shift: nat)
      requires Valid() && tail < numBits && 0 < shift && tail + shift <= SIZE_MAX
      modifies data
      ensures Valid() && Bits() == ShiftedForward(old(Bits()), tail, shift)
    {
      ghost var before := data[..];
      assert data.Length == WordCount(numBits);
      hide PaddingClear, Logical, ShiftedForward, ForwardWord;
      var dest, destLower := tail / 64, tail % 64;
      var src, srcLower := (tail + shift) / 64, (tail + shift) % 64;
      assert Split(tail, shift, dest, destLower, src, srcLower);
      forall k | 0 <= k < dest
        ensures before[k] == ForwardWord(before, tail, shift, k)
      {
        ForwardHead(before, tail, shift, k);
      }
      if src >= data.Length {
        // nothing is left of the tail
        if destLower != 0 {
          ForwardFirstNone(before, tail, shift, dest, destLower, src, srcLower);
          data[dest] := And(data[dest], MaskBitRange(0, destLower));
          assert data[dest] == Head(before[dest], destLower);
          dest := dest + 1;
        }
        FinishForwardWithZeros(before, tail, shift, dest);
        return;
      }
      if destLower != 0 {
        var exhausted;
        exhausted, src, srcLower := FillFirstWord(before, tail, shift, dest, destLower, src, srcLower);
        dest := dest + 1;
        if exhausted {
          FinishForwardWithZeros(before, tail, shift, dest);
          return;
        }
      }
      FinishForward(before, tail, shift, dest, src, srcLower);
    }

    // The word in which the tail starts, when it does not start at the word's first bit.
    method FillFirstWord(ghost before: seq<Word>, ghost tail: nat, ghost shift: nat,
                         dest: nat, destLower: nat, src: nat, srcLower: nat)
      returns (exhausted: bool, nextSrc: nat, nextLower: nat)
      requires before == data[..] && src < data.Length && dest < data.Length && shift > 0 && destLower != 0
      requires Split(tail, shift, dest, destLower, src, srcLower)
      modifies data
      ensures data[dest] == ForwardWord(before, tail, shift, dest)
      ensures forall k | 0 <= k < data.Length && k != dest :: data[k] == before[k]
      ensures exhausted ==> 64 * (dest + 1) + shift >= 64 * data.Length
      ensures !exhausted ==> dest + 1 <= nextSrc <= data.Length && nextLower < 64
      ensures !exhausted ==> (nextSrc == data.Length ==> nextLower == 0)
      ensures !exhausted ==> 64 * (dest + 1) + shift == 64 * nextSrc + nextLower
    {
      hide ForwardWord;
      exhausted, nextSrc, nextLower := false, src, srcLower;
      data[dest] := Or(And(data[dest], MaskBitRange(0, destLower)), Shr(Shl(data[src], srcLower), destLower));
      assert And(before[dest], MaskBitRange(0, destLower)) == Head(before[dest], destLower);
      if destLower < srcLower {
        // the source word runs out before the destination word is full
        ghost var next := if src + 1 < |before| then before[src + 1] else Zero();
        ForwardFirstTwo(before, tail, shift, dest, destLower, src, srcLower, next);
        var lower := destLower + 64 - srcLower;
        nextSrc := src + 1;
        if nextSrc == data.Length {
          assert data[dest] == Or(data[dest], Shr(next, lower));
          exhausted := true;
        } else {
          data[dest] := Or(data[dest], Shr(data[nextSrc], lower));
          nextLower := 64 - lower;
        }
      } else {
        ForwardFirstOne(before, tail, shift, dest, destLower, src, srcLower);
        nextLower := srcLower + 64 - destLower;
        nextSrc := src + nextLower / 64;
        nextLower := nextLower % 64;
      }
    }

    method FinishForwardWithZeros(ghost before: seq<Word>, ghost tail: nat, ghost shift: nat, dest: nat)
      requires PaddingClear(before, numBits) && data.Length == |before| && tail < numBits
      requires dest <= data.Length && tail <= 64 * dest && 64 * dest + shift >= 64 * data.Length
      requires forall k | 0 <= k < dest :: data[k] == ForwardWord(before, tail, shift, k)
      modifies data
      ensures Valid() && Bits() == ShiftedForward(Logical(before, numBits), tail, shift)
    {
      FillWords(dest, data.Length - dest, Zero());
      forall k | dest <= k < data.Length
        ensures data[k] == ForwardWord(before, tail, shift, k)
      {
        ForwardTail(before, tail, shift, k);
        WindowPastEnd(before, 64 * k + shift);
      }
      ForwardWords(before, data[..], numBits, tail, shift);
    }

    // Words past the one in which the tail starts, when the distance has a remainder.
    method MoveTailBackward(first: nat, lower: nat, words: nat, bits: nat, tailWord: Word)
      requires first < data.Length && lower < 64 && 0 < bits < 64
      requires tailWord == TailOf(data[first], lower)
      modifies data
      ensures forall k | 0 <= k < data.Length && k <= first + words :: data[k] == old(data[k])
      ensures forall k | first + words < k < data.Length ::
                data[k] == Delayed(old(data[..]), first, lower, bits, k - words)
    {
      ghost var was := data[..];
      MergeWordsBackward(first + words + 1, words, bits);
      if first + words + 1 < data.Length {
        data[first + words + 1] := Or(Shr(data[first + 1], bits), Shl(tailWord, 64 - bits));
        assert data[first + words + 1] == Delayed(was, first, lower, bits, first + 1);
      }
      forall k | first + words < k < data.Length
        ensures data[k] == Delayed(was, first, lower, bits, k - words)
      {
        if k > first + words + 1 {
          assert TailWord(was, first, lower, k - words) == was[k - words];
          assert TailWord(was, first, lower, k - words - 1) == was[k - words - 1];
        }
      }
    }

    // The loop over words that merge two whole words of the tail, from the back down to, but
    // not including, word `low`.
    method MergeWordsBackward(low: nat, words: nat, bits: nat)
      requires words < low && 0 < bits < 64
      modifies data
      ensures forall k | 0 <= k < data.Length && k <= low :: data[k] == old(data[k])
      ensures forall k | low < k < data.Length :: data[k] == MergedBackward(old(data[..]), k, words, bits)
    {
      hide MergedBackward;
      ghost var was := data[..];
      var element: int := data.Length - 1;
      while element > low
        invariant -1 <= element < data.Length
        invariant forall k | 0 <= k < data.Length && (k <= element || k <= low) :: data[k] == was[k]
        invariant forall k | low < k < data.Length && element < k :: data[k] == MergedBackward(was, k, words, bits)
      {
        MergeOneBackward(element, words, bits, was);
        element := element - 1;
      }
    }

    method MergeOneBackward(element: nat, words: nat, bits: nat, ghost was: seq<Word>)
      requires |was| == data.Length && words < element < data.Length && bits < 64
      requires data[element - words] == was[element - words] && data[element - words - 1] == was[element - words - 1]
      modifies data
      ensures data[element] == MergedBackward(was, element, words, bits)
      ensures forall k | 0 <= k < data.Length && k != element :: data[k] == old(data[k])
    {
      data[element] := Or(Shr(data[element - words], bits), Shl(data[element - words - 1], 64 - bits));
    }

    method ShiftTailBackward(tail: nat, shift: nat)
      requires Valid() && tail < numBits && tail + shift <= SIZE_MAX
      modifies data
      ensures Valid() && Bits() == CodeShiftedBackward(old(Bits()), tail, shift)
      ensures forall p | 0 <= p < tail :: Bits()[p] == old(Bits())[p]
      ensures tail % 64 != 0 || shift < 64 || shift % 64 == 0 || tail + shift > numBits ==>
                forall p | tail <= p < numBits && p < tail + shift :: !Bits()[p]
      ensures tail % 64 == 0 && shift >= 64 && shift % 64 != 0 && tail + shift <= numBits ==>
                && (forall p | tail <= p < tail + 64 :: Bits()[p] == old(Bits())[p])
                && (forall p | tail + 64 <= p < tail + shift :: !Bits()[p])
      ensures forall p | tail + shift <= p < numBits :: Bits()[p] == old(Bits())[p - shift]
    {
      ghost var was := Bits();
      BackwardElements(was, tail, shift);
      hide PaddingClear, Logical, CodeShiftedBackward;
      if shift != 0 {
        ShiftBackward(tail, shift);
      }
    }

    // The same for a distance that is not 0.
    method ShiftBackward(tail: nat, shift: nat)
      requires Valid() && tail < numBits && 0 < shift && tail + shift <= SIZE_MAX
      modifies data
      ensures Valid() && Bits() == CodeShiftedBackward(old(Bits()), tail, shift)
    {
      ghost var before := data[..];
      var first, lower := tail / 64, tail % 64;
      var words, bits := shift / 64, shift % 64;
      if tail + shift > numBits {
        ZeroTail(tail, shift);
        return;
      }
      ghost var stale := LeavesStaleWord(numBits, tail, shift);
      ghost var moved;
      if bits != 0 {
        ShiftBackwardWithRemainder(first, lower, words, bits);
        moved := data[..];
        RemainderAssembled(before, moved, tail, shift, stale, first, lower, words, bits);
      } else {
        moved := ShiftBackwardWholeWords(first, lower, words, before);
      }
      FinishBackward(before, moved, tail, shift);
    }

    // Bits moved past the end become padding again, which has to be zero.
    method FinishBackward(ghost before: seq<Word>, ghost moved: seq<Word>, ghost tail: nat, ghost shift: nat)
      requires PaddingClear(before, numBits) && tail < numBits && moved == data[..]
      requires MovedBackward(before, moved, tail, shift, LeavesStaleWord(numBits, tail, shift))
      modifies data
      ensures Valid() && Bits() == CodeShiftedBackward(Logical(before, numBits), tail, shift)
    {
      if numBits % 64 != 0 {
        data[data.Length - 1] := And(data[data.Length - 1], MaskBitRange(0, numBits % 64));
        assert data[data.Length - 1] == Head(moved[data.Length - 1], numBits % 64);
      }
      BackwardMasked(before, moved, data[..], numBits, tail, shift);
    }

    // A tail moved past the end leaves zeros only.
    method ZeroTail(tail: nat, ghost shift: nat)
      requires Valid() && tail < numBits < tail + shift
      modifies data
      ensures Valid() && Bits() == CodeShiftedBackward(old(Bits()), tail, shift)
    {
      ghost var before := data[..];
      var first, lower := tail / 64, tail % 64;
      var start := first + if lower != 0 then 1 else 0;
      FillWords(start, data.Length - start, Zero());
      if lower != 0 {
        data[first] := And(data[first], Not(MaskBitRange(lower, 64)));
      }
      BackwardWords(before, data[..], numBits, tail, shift);
    }

    method ShiftBackwardWithRemainder(first: nat, lower: nat, words: nat, bits: nat)
      requires first + words < data.Length && lower < 64 && 0 < bits < 64
      modifies data
      ensures RemainderState(old(data[..]), data[..], first, lower, words, bits)
    {
      var tailWord := Shr(Shl(data[first], lower), lower);
      assert tailWord == TailOf(data[first], lower);
      MoveTailBackward(first, lower, words, bits, tailWord);
      if words != 0 {
        ClearTailStart(first, lower, words, bits, tailWord);
      } else {
        ShiftTailStart(first, lower, bits, tailWord);
      }
    }

    // A distance of at least a word: what is left at and after the start of the tail. The start
    // word is cleared only when the tail begins inside it.
    method ClearTailStart(first: nat, lower: nat, words: nat, bits: nat, tailWord: Word)
      requires 0 < words && first + words < data.Length && lower < 64 && bits < 64
      modifies data
      ensures data[first] == if lower == 0 then old(data[first]) else Head(old(data[first]), lower)
      ensures data[first + words] == Shr(tailWord, bits)
      ensures forall k | first < k < first + words :: data[k] == Zero()
      ensures forall k | 0 <= k < data.Length && (k < first || first + words < k) :: data[k] == old(data[k])
    {
      data[first + words] := Shr(tailWord, bits);
      if lower != 0 {
        data[first] := And(data[first], Not(MaskBitRange(lower, 64)));
        assert data[first] == Head(old(data[first]), lower);
      }
      FillWords(first + 1, words - 1, Zero());
    }

    // A distance below the word size: the head of the start word stays, its tail moves.
    method ShiftTailStart(first: nat, lower: nat, bits: nat, tailWord: Word)
      requires first < data.Length && lower < 64 && bits < 64
      requires tailWord == TailOf(data[first], lower)
      modifies data
      ensures data[first] == Or(Head(old(data[first]), lower), Shr(tailWord, bits))
      ensures forall k | 0 <= k < data.Length && k != first :: data[k] == old(data[k])
    {
      if lower != 0 {
        data[first] :=
          Or(And(data[first], MaskBitRange(0, lower)), Shr(And(data[first], MaskBitRange(lower, 64)), bits));
      } else {
        data[first] := Shr(data[first], bits);
      }
      assert data[first] == Or(Head(old(data[first]), lower), Shr(tailWord, bits));
    }

    method ShiftBackwardWholeWords(first: nat, lower: nat, words: nat, ghost was: seq<Word>)
      returns (ghost now: seq<Word>)
      requires was == data[..] && first < data.Length && lower < 64 && words > 0
      requires first + words <= data.Length && (lower != 0 ==> first + words < data.Length)
      modifies data
      ensures now == data[..] && MovedBackward(was, now, 64 * first + lower, 64 * words, false)
    {
      hide Head, TailOf, MovedBackward, TailWord;
      MoveWords(first + words, first, data.Length - first - words);
      ghost var moved := data[..];
      assert forall k | 0 <= k < first + words && k < |moved| :: moved[k] == was[k];
      assert forall k | first + words <= k < |moved| :: moved[k] == was[k - words];
      ClearGap(first, lower, words);
      now := data[..];
      WholeWordsMoved(was, moved, now, first, lower, words);
    }

    // The words that a move by whole words leaves behind, and the masks at both of its ends when
    // the tail begins inside a word.
    method ClearGap(first: nat, lower: nat, words: nat)
      requires lower < 64 && words > 0 && first < data.Length
      requires first + words <= data.Length && (lower != 0 ==> first + words < data.Length)
      modifies data
      ensures data[first] == if lower == 0 then Zero() else Head(old(data[first]), lower)
      ensures forall k | first < k < first + words :: data[k] == Zero()
      ensures lower != 0 ==> data[first + words] == TailOf(old(data[first + words]), lower)
      ensures forall k | 0 <= k < data.Length && (k < first || first + words < k) :: data[k] == old(data[k])
      ensures lower == 0 && first + words < data.Length ==> data[first + words] == old(data[first + words])
    {
      hide Head, TailOf;
      HeadAndTail(data[first], lower);
      if lower != 0 {
        HeadAndTail(data[first + words], lower);
        data[first] := And(data[first], MaskBitRange(0, lower));
        data[first + words] := And(data[first + words], MaskBitRange(lower, 64));
        FillWords(first + 1, words - 1, Zero());
      } else {
        FillWords(first, words, Zero());
      }
    }
  }

  /** A move by whole words and the cleared gap make the shifted words. */
  lemma WholeWordsMoved(was: seq<Word>, moved: seq<Word>, now: seq<Word>, first: nat, lower: nat, words: nat)
    requires |was| == |moved| == |now| && first < |was| && lower < 64 && words > 0
    requires first + words <= |was| && (lower != 0 ==> first + words < |was|)
    requires forall k | 0 <= k < first + words && k < |moved| :: moved[k] == was[k]
    requires forall k | first + words <= k < |moved| :: moved[k] == was[k - words]
    requires now[first] == if lower == 0 then Zero() else Head(moved[first], lower)
    requires forall k | first < k < first + words :: now[k] == Zero()
    requires lower != 0 ==> now[first + words] == TailOf(moved[first + words], lower)
    requires forall k | 0 <= k < |now| && (k < first || first + words < k) :: now[k] == moved[k]
    requires lower == 0 && first + words < |now| ==> now[first + words] == moved[first + words]
    ensures MovedBackward(was, now, 64 * first + lower, 64 * words, false)
  {
    hide Head, TailOf, MovedBackward;
    HeadAndTail(was[first], lower);
    forall k | first + words <= k < |was|
      ensures now[k] == TailWord(was, first, lower, k - words)
    {
      if k == first + words {
        assert moved[k] == was[first];
      }
    }
    WholeWordsAssembled(was, now, 64 * first + lower, 64 * words, first, lower, words);
  }

  /** Word k of the tail moved back by `words` words and `bits` bits. */
  function MergedBackward(was: seq<Word>, k: nat, words: nat, bits: nat): Word
    requires words < k < |was| && bits < 64
  {
    Or(Shr(was[k - words], bits), Shl(was[k - words - 1], 64 - bits))
  }

  /** The masks that split a word at bit `lower`. */
  lemma HeadAndTail(w: Word, lower: nat)
    requires lower < 64
    ensures And(w, MaskBitRange(0, lower)) == Head(w, lower)
    ensures And(w, MaskBitRange(lower, 64)) == TailOf(w, lower)
    ensures lower == 0 ==> Head(w, lower) == Zero() && TailOf(w, lower) == w
  {
  }
}
