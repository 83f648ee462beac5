/** The iterator of common/TupleIdSequence.hpp over the set positions of a bit vector. */
module TupleIds {
  import opened Words
  import opened BitVectorSpec
  import opened BitVectors

  /** The set positions in ascending order. */
  function Ids(b: seq<bool>): (ids: seq<nat>) {
    if b == [] then []
    else
      var n := |b| - 1;
      Ids(b[..n]) + if b[n] then [n] else []
  }

  /** Ids lists exactly the set positions, ascending, one entry for each one bit. */
  lemma {:induction false} IdsAreTheSetPositions(b: seq<bool>)
    ensures |Ids(b)| == Ones(b)
    ensures forall j | 0 <= j < |Ids(b)| :: Ids(b)[j] < |b| && b[Ids(b)[j]]
    ensures forall p | 0 <= p < |b| && b[p] :: p in Ids(b)
    ensures forall i, j | 0 <= i < j < |Ids(b)| :: Ids(b)[i] < Ids(b)[j]
  {
    if b != [] {
      var n := |b| - 1;
      IdsAreTheSetPositions(b[..n]);
      forall p | 0 <= p < |b| && b[p]
        ensures p in Ids(b)
      {
        if p < n {
          assert b[..n][p] && p in Ids(b[..n]);
        }
      }
    }
  }

  /** What the iterator holds at index j of the listing: -1 is the before-begin sentinel, and
      one past the last index is the end position. */
  function PositionAt(b: seq<bool>, j: int): nat
    requires -1 <= j <= |Ids(b)|
  {
    if j == -1 then SIZE_MAX else if j == |Ids(b)| then |b| else Ids(b)[j]
  }

  /** No set position lies strictly between two neighbours of the listing. */
  lemma NoneBetween(b: seq<bool>, j: int, p: nat)
    requires -1 <= j < |Ids(b)| && p < |b| && b[p]
    requires j >= 0 ==> Ids(b)[j] < p
    ensures j + 1 < |Ids(b)| && Ids(b)[j + 1] <= p
  {
    IdsAreTheSetPositions(b);
    var k :| 0 <= k < |Ids(b)| && Ids(b)[k] == p;
    if k <= j {
      assert false;
    }
  }

  lemma FirstIsNext(b: seq<bool>, j: int, r: nat)
    requires -1 <= j < |Ids(b)|
    requires IsFirst(b, if j == -1 then 0 else Ids(b)[j] + 1, true, r)
    ensures r == PositionAt(b, j + 1)
  {
    IdsAreTheSetPositions(b);
    assert j + 1 < |Ids(b)| ==> b[Ids(b)[j + 1]];
    if r < |b| {
      NoneBetween(b, j, r);
    }
  }

  lemma LastIsPrevious(b: seq<bool>, j: nat, r: nat)
    requires j <= |Ids(b)|
    requires var limit := if j == |Ids(b)| then |b| else Ids(b)[j];
             limit <= |b| && IsLast(b, limit, true, r)
    ensures r == if j == 0 then |b| else Ids(b)[j - 1]
  {
    IdsAreTheSetPositions(b);
    var limit := if j == |Ids(b)| then |b| else Ids(b)[j];
    if j > 0 {
      assert b[Ids(b)[j - 1]] && Ids(b)[j - 1] < limit;
      if r > Ids(b)[j - 1] {
        NoneBetween(b, j - 1, r);
      }
    } else if r < limit {
      NoneBetween(b, -1, r);
    }
  }

  class ConstIterator {
    const bits: BitVector
    var position: nat

    ghost predicate Valid()
      reads this, bits, bits.data
    {
      bits.Valid() && bits.numBits < SIZE_MAX
    }

    /** The iterator stands at index j of the listing of set positions. */
    ghost predicate At(j: int)
      requires Valid()
      reads this, bits, bits.data
    {
      -1 <= j <= |Ids(bits.Bits())| && position == PositionAt(bits.Bits(), j)
    }

    constructor (vector: BitVector, start: nat)
      requires vector.Valid() && vector.numBits < SIZE_MAX
      ensures bits == vector && position == start && Valid()
    {
      bits := vector;
      position := start;
    }

    // operator++; the addition wraps around in the source, so that it leaves before-begin
    method Advance(ghost j: int)
      requires Valid() && At(j)
      modifies this
      ensures Valid() && At(if j < |Ids(bits.Bits())| then j + 1 else j)
      ensures position == bits.numBits || (position < bits.numBits && bits.Bits()[position])
      ensures forall q | (old(position) + 1) % (SIZE_MAX + 1) <= q < position :: !bits.Bits()[q]
    {
      hide Ids, PaddingClear, Logical;
      ghost var b := bits.Bits();
      IdsAreTheSetPositions(b);
      var search := (position + 1) % (SIZE_MAX + 1);
      if search < bits.numBits {
        position := bits.FirstOne(search);
        FirstIsNext(b, j, position);
      } else {
        position := bits.numBits;
        if j < |Ids(b)| {
          FirstIsNext(b, j, position);
        }
      }
    }

    // operator--; from before-begin it wraps around to the last set position
    method Retreat(ghost j: int)
      requires Valid() && At(j)
      modifies this
      ensures Valid() && At(if j == -1 then |Ids(bits.Bits())| - 1 else j - 1)
      ensures var end := if old(position) < bits.numBits then old(position) else bits.numBits;
              if position < end then bits.Bits()[position] && forall q | position < q < end :: !bits.Bits()[q]
              else position == SIZE_MAX && forall q | 0 <= q < end :: !bits.Bits()[q]
    {
      hide Ids, PaddingClear, Logical;
      ghost var b := bits.Bits();
      IdsAreTheSetPositions(b);
      position := bits.LastOne(position);
      LastIsPrevious(b, if j == -1 then |Ids(b)| else j, position);
      if position == bits.numBits {
        position := SIZE_MAX;
      }
    }
  }

  method Begin(vector: BitVector) returns (it: ConstIterator)
    requires vector.Valid() && vector.numBits < SIZE_MAX
    ensures fresh(it) && it.bits == vector && it.Valid() && it.At(0)
  {
    var first := vector.FirstOne(0);
    it := new ConstIterator(vector, first);
    FirstIsNext(vector.Bits(), -1, first);
  }

  // Going from begin() to end() visits every set position once, in ascending order.
  method Visit(vector: BitVector) returns (visited: seq<nat>)
    requires vector.Valid() && vector.numBits < SIZE_MAX
    ensures visited == Ids(vector.Bits())
    ensures forall p :: p in visited <==> 0 <= p < vector.numBits && vector.Bits()[p]
    ensures forall i, j | 0 <= i < j < |visited| :: visited[i] < visited[j]
  {
    hide Ids, PaddingClear, Logical;
    visited := [];
    var it := Begin(vector);
    IdsAreTheSetPositions(vector.Bits());
    while it.position != vector.numBits
      invariant it.bits == vector && vector.Valid() && fresh(it)
      invariant |visited| <= |Ids(vector.Bits())| && it.At(|visited|)
      invariant visited == Ids(vector.Bits())[..|visited|]
      decreases |Ids(vector.Bits())| - |visited|
    {
      ghost var j := |visited|;
      visited := visited + [it.position];
      it.Advance(j);
    }
  }

  // `--` undoes `++` wherever `++` moves: at before-begin and at every set position.
  method AdvanceThenRetreat(it: ConstIterator, ghost j: int)
    requires it.Valid() && it.At(j) && j < |Ids(it.bits.Bits())|
    modifies it
    ensures it.Valid() && it.position == old(it.position)
  {
    it.Advance(j);
    it.Retreat(j + 1);
  }
}
