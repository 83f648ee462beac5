/** utility/BloomFilter.hpp: the byte array as a set of bit positions, and the operations that
    one thread runs. The hash functions are an uninterpreted function of the key and an index. */
module Bloom {

  type Key = seq<bv8>

  /** The hash functions of a filter: hash(key, i) for i below `count`. */
  datatype Hashing = Hashing(hash: (Key, nat) -> nat, count: nat)

  /** compute_indices: the bit position of hash function i. */
  function Position(h: Hashing, size: nat, key: Key, i: nat): (p: nat)
    requires size > 0
    ensures p < 8 * size
  {
    h.hash(key, i) % (8 * size)
  }

  /** `1 << bit` */
  function Mask(bit: nat): bv8
    requires bit < 8
  {
    [1, 2, 4, 8, 16, 32, 64, 128][bit]
  }

  predicate Holds(b: bv8, bit: nat)
    requires bit < 8
  {
    b & Mask(bit) == Mask(bit)
  }

  predicate IsSet(bytes: seq<bv8>, p: nat)
    requires p < 8 * |bytes|
  {
    Holds(bytes[p / 8], p % 8)
  }

  /** `bit_array_[p / 8] |= (1 << p % 8)` */
  function WithBit(bytes: seq<bv8>, p: nat): (r: seq<bv8>)
    requires p < 8 * |bytes|
  {
    bytes[p / 8 := bytes[p / 8] | Mask(p % 8)]
  }

  // ---- bits of a byte ---------------------------------------------------------------

  lemma MasksAreApart(bit: nat, other: nat)
    requires bit < 8 && other < 8
    ensures Mask(bit) != 0
    ensures bit != other ==> Mask(bit) & Mask(other) == 0
  {
  }

  lemma OrHolds(b: bv8, m: bv8, o: bv8)
    requires m == o || m & o == 0
    requires o != 0
    ensures (b | m) & o == o <==> b & o == o || m == o
  {
  }

  lemma OrSets(b: bv8, bit: nat, other: nat)
    requires bit < 8 && other < 8
    ensures Holds(b | Mask(bit), other) <==> Holds(b, other) || bit == other
  {
    hide Mask, Holds;
    MasksAreApart(bit, other);
    MasksAreApart(other, bit);
    OrHoldsAt(b, Mask(bit), Mask(other), bit, other);
  }

  lemma OrHoldsAt(b: bv8, m: bv8, o: bv8, bit: nat, other: nat)
    requires bit < 8 && other < 8 && m == Mask(bit) && o == Mask(other) && m != 0 && o != 0
    requires bit != other ==> m & o == 0
    ensures Holds(b | m, other) <==> Holds(b, other) || bit == other
  {
    hide Mask;
    if bit == other {
      OrHolds(b, m, m);
    } else {
      OrHolds(b, m, o);
      Apart(m, o);
    }
  }

  lemma Apart(m: bv8, o: bv8)
    requires m != 0 && m & o == 0
    ensures m != o
  {
  }

  lemma UnionHolds(a: bv8, b: bv8, bit: nat)
    requires bit < 8
    ensures Holds(a | b, bit) <==> Holds(a, bit) || Holds(b, bit)
  {
    MaskValues(bit);
    hide Mask;
    UnionHoldsAt(a, b, Mask(bit));
  }

  lemma MaskValues(bit: nat)
    requires bit < 8
    ensures Mask(bit) in {1, 2, 4, 8, 16, 32, 64, 128}
  {
  }

  lemma UnionHoldsAt(a: bv8, b: bv8, m: bv8)
    requires m in {1, 2, 4, 8, 16, 32, 64, 128}
    ensures (a | b) & m == m <==> a & m == m || b & m == m
  {
  }

  lemma ByteIsItsBits(a: bv8, b: bv8)
    requires forall bit | 0 <= bit < 8 :: Holds(a, bit) == Holds(b, bit)
    ensures a == b
  {
    assert Holds(a, 0) == Holds(b, 0) && Holds(a, 1) == Holds(b, 1);
    assert Holds(a, 2) == Holds(b, 2) && Holds(a, 3) == Holds(b, 3);
    assert Holds(a, 4) == Holds(b, 4) && Holds(a, 5) == Holds(b, 5);
    assert Holds(a, 6) == Holds(b, 6) && Holds(a, 7) == Holds(b, 7);
  }

  /** Byte arrays with the same positions set are equal. */
  lemma BytesAreTheirBits(a: seq<bv8>, b: seq<bv8>)
    requires |a| == |b|
    requires forall p: nat | p < 8 * |a| :: IsSet(a, p) == IsSet(b, p)
    ensures a == b
  {
    forall k | 0 <= k < |a|
      ensures a[k] == b[k]
    {
      forall bit | 0 <= bit < 8
        ensures Holds(a[k], bit) == Holds(b[k], bit)
      {
        assert IsSet(a, 8 * k + bit) == IsSet(b, 8 * k + bit);
      }
      ByteIsItsBits(a[k], b[k]);
    }
  }

  lemma WithBitSets(bytes: seq<bv8>, p: nat, q: nat)
    requires p < 8 * |bytes| && q < 8 * |bytes|
    ensures IsSet(WithBit(bytes, p), q) <==> IsSet(bytes, q) || p == q
  {
    if p / 8 == q / 8 {
      OrSets(bytes[p / 8], p % 8, q % 8);
    }
  }

  /** The byte of position p, shifted down by the place of p in it, ends in a one. */
  lemma SetBitsShiftDown(bytes: seq<bv8>, p: nat)
    requires p < 8 * |bytes|
    ensures IsSet(bytes, p) <==> (bytes[p / 8] >> (p % 8)) & 1 == 1
  {
    HoldsShiftedDown(bytes[p / 8], p % 8);
  }

  lemma HoldsShiftedDown(b: bv8, bit: nat)
    requires bit < 8
    ensures Holds(b, bit) <==> (b >> bit) & 1 == 1
  {
    if bit == 0 {
    } else if bit == 1 {
    } else if bit == 2 {
    } else if bit == 3 {
    } else if bit == 4 {
    } else if bit == 5 {
    } else if bit == 6 {
    } else {
      assert bit == 7;
    }
  }

  // ---- one insertion ------------------------------------------------------------------

  /** The bytes after the first n hash functions of a key have set their bits. */
  function Inserted(h: Hashing, bytes: seq<bv8>, key: Key, n: nat): (r: seq<bv8>)
    requires |bytes| > 0
    ensures |r| == |bytes|
  {
    if n == 0 then bytes
    else WithBit(Inserted(h, bytes, key, n - 1), Position(h, |bytes|, key, n - 1))
  }

  ghost predicate Touches(h: Hashing, size: nat, key: Key, n: nat, q: nat)
    requires size > 0
  {
    exists i | 0 <= i < n :: Position(h, size, key, i) == q
  }

  lemma {:induction false} InsertedSets(h: Hashing, bytes: seq<bv8>, key: Key, n: nat, q: nat)
    requires |bytes| > 0 && q < 8 * |bytes|
    ensures IsSet(Inserted(h, bytes, key, n), q) <==> IsSet(bytes, q) || Touches(h, |bytes|, key, n, q)
  {
    if n > 0 {
      InsertedSets(h, bytes, key, n - 1, q);
      WithBitSets(Inserted(h, bytes, key, n - 1), Position(h, |bytes|, key, n - 1), q);
    }
  }

  /** The positions of a key are what its hash functions say, taken modulo the number of bits. */
  lemma InsertedHashes(h: Hashing, bytes: seq<bv8>, key: Key)
    requires |bytes| > 0
    ensures forall q: nat | q < 8 * |bytes| ::
              IsSet(Inserted(h, bytes, key, h.count), q) <==>
              IsSet(bytes, q) || exists i: nat | i < h.count :: h.hash(key, i) % (8 * |bytes|) == q
  {
    forall q: nat | q < 8 * |bytes|
      ensures IsSet(Inserted(h, bytes, key, h.count), q) <==>
              IsSet(bytes, q) || exists i: nat | i < h.count :: h.hash(key, i) % (8 * |bytes|) == q
    {
      InsertedSets(h, bytes, key, h.count, q);
      TouchesHashes(h, |bytes|, key, h.count, q);
      hide IsSet, Touches;
    }
  }

  lemma TouchesHashes(h: Hashing, size: nat, key: Key, n: nat, q: nat)
    requires size > 0
    ensures Touches(h, size, key, n, q) <==> exists i: nat | i < n :: h.hash(key, i) % (8 * size) == q
  {
    if i: nat :| i < n && h.hash(key, i) % (8 * size) == q {
      assert Position(h, size, key, i) == q;
    }
  }

  /** What contains() asks. */
  ghost predicate Contained(h: Hashing, bytes: seq<bv8>, key: Key)
    requires |bytes| > 0
  {
    forall i | 0 <= i < h.count :: IsSet(bytes, Position(h, |bytes|, key, i))
  }

  lemma ContainedHashes(h: Hashing, bytes: seq<bv8>, key: Key)
    requires |bytes| > 0
    ensures Contained(h, bytes, key) <==>
            forall i: nat, q: nat |
              i < h.count && q < 8 * |bytes| && h.hash(key, i) % (8 * |bytes|) == q :: IsSet(bytes, q)
  {
    hide IsSet;
    if forall i: nat, q: nat |
         i < h.count && q < 8 * |bytes| && h.hash(key, i) % (8 * |bytes|) == q :: IsSet(bytes, q) {
      forall i | 0 <= i < h.count
        ensures IsSet(bytes, Position(h, |bytes|, key, i))
      {
        assert h.hash(key, i) % (8 * |bytes|) == Position(h, |bytes|, key, i);
      }
    }
    if Contained(h, bytes, key) {
      forall i: nat, q: nat | i < h.count && q < 8 * |bytes| && h.hash(key, i) % (8 * |bytes|) == q
        ensures IsSet(bytes, q)
      {
        assert Position(h, |bytes|, key, i) == q;
      }
    }
  }

  /** No false negatives: bytes that have at least the bits of an insertion contain the key. */
  lemma ContainedAfterInsert(h: Hashing, before: seq<bv8>, later: seq<bv8>, key: Key)
    requires |before| == |later| > 0
    requires forall q: nat | q < 8 * |before| && IsSet(Inserted(h, before, key, h.count), q) :: IsSet(later, q)
    ensures Contained(h, later, key)
  {
    forall i | 0 <= i < h.count
      ensures IsSet(later, Position(h, |later|, key, i))
    {
      InsertedSets(h, before, key, h.count, Position(h, |before|, key, i));
    }
  }

  /** Insertions one after the other. */
  function InsertedAll(h: Hashing, bytes: seq<bv8>, keys: seq<Key>): (r: seq<bv8>)
    requires |bytes| > 0
    ensures |r| == |bytes|
  {
    if keys == [] then bytes
    else Inserted(h, InsertedAll(h, bytes, keys[..|keys| - 1]), keys[|keys| - 1], h.count)
  }

  lemma {:induction false} InsertedAllSets(h: Hashing, bytes: seq<bv8>, keys: seq<Key>, q: nat)
    requires |bytes| > 0 && q < 8 * |bytes|
    ensures IsSet(InsertedAll(h, bytes, keys), q) <==>
            IsSet(bytes, q) || exists key :: key in keys && Touches(h, |bytes|, key, h.count, q)
  {
    if keys != [] {
      var front, last := keys[..|keys| - 1], keys[|keys| - 1];
      assert forall key :: key in keys <==> key in front || key == last;
      InsertedAllSets(h, bytes, front, q);
      InsertedSets(h, InsertedAll(h, bytes, front), last, h.count, q);
    }
  }

  class BloomFilter {
    const h: Hashing
    const bytes: array<bv8>

    ghost predicate Valid() {
      bytes.Length > 0
    }

    constructor (hashing: Hashing, size: nat)
      requires size > 0
      ensures Valid() && fresh(bytes) && h == hashing && bytes.Length == size
      ensures forall q: nat | q < 8 * size :: !IsSet(bytes[..], q)
    {
      h := hashing;
      bytes := new bv8[size](_ => 0);
      new;
      forall q: nat | q < 8 * size
        ensures !IsSet(bytes[..], q)
      {
        MasksAreApart(q % 8, 0);
      }
    }

    // `bit_array_[p / 8] |= (1 << p % 8)`
    method SetBitAt(p: nat)
      requires p < 8 * bytes.Length
      modifies bytes
      ensures bytes[..] == WithBit(old(bytes[..]), p)
    {
      bytes[p / 8] := bytes[p / 8] | Mask(p % 8);
    }

    method InsertUnSafe(key: Key)
      requires Valid()
      modifies bytes
      ensures bytes[..] == Inserted(h, old(bytes[..]), key, h.count)
      ensures forall q: nat | q < 8 * bytes.Length ::
                IsSet(bytes[..], q) <==>
                IsSet(old(bytes[..]), q) || exists i: nat | i < h.count :: h.hash(key, i) % (8 * bytes.Length) == q
    {
      InsertedHashes(h, bytes[..], key);
      hide WithBit, Position, IsSet;
      for i := 0 to h.count
        invariant bytes[..] == Inserted(h, old(bytes[..]), key, i)
      {
        var p := Position(h, bytes.Length, key, i);
        SetBitAt(p);
      }
    }

    // insert(), run alone: look first, then set only the bits that were missing
    method Insert(key: Key)
      requires Valid()
      modifies bytes
      ensures bytes[..] == Inserted(h, old(bytes[..]), key, h.count)
      ensures forall q: nat | q < 8 * bytes.Length ::
                IsSet(bytes[..], q) <==>
                IsSet(old(bytes[..]), q) || exists i: nat | i < h.count :: h.hash(key, i) % (8 * bytes.Length) == q
    {
      InsertedHashes(h, bytes[..], key);
      hide IsSet, Inserted;
      var correct := CheckBits(key);
      SetMissing(key, correct);
    }

    // the second half of insert(), under the exclusive lock
    method SetMissing(key: Key, correct: seq<bool>)
      requires Valid() && |correct| == h.count
      requires forall j | 0 <= j < h.count :: correct[j] == IsSet(bytes[..], Position(h, bytes.Length, key, j))
      modifies bytes
      ensures bytes[..] == Inserted(h, old(bytes[..]), key, h.count)
    {
      ghost var before := bytes[..];
      hide IsSet, Touches, Position, WithBit;
      for i := 0 to h.count
        invariant bytes[..] == Inserted(h, before, key, i)
      {
        var p: nat := Position(h, bytes.Length, key, i);
        if !correct[i] {
          SetBitAt(p);
        } else {
          InsertedSets(h, before, key, i, p);
          AlreadySet(Inserted(h, before, key, i), p);
        }
      }
    }

    // which of the key's bits are set already
    method CheckBits(key: Key) returns (correct: seq<bool>)
      requires Valid()
      ensures |correct| == h.count
      ensures forall j | 0 <= j < h.count :: correct[j] == IsSet(bytes[..], Position(h, bytes.Length, key, j))
      ensures forall j: nat, q: nat | j < h.count && q < 8 * bytes.Length && h.hash(key, j) % (8 * bytes.Length) == q ::
                correct[j] == IsSet(bytes[..], q)
    {
      hide IsSet, Holds;
      correct := [];
      for i := 0 to h.count
        invariant |correct| == i
        invariant forall j | 0 <= j < i :: correct[j] == IsSet(bytes[..], Position(h, bytes.Length, key, j))
      {
        var isSet := BitIsSet(Position(h, bytes.Length, key, i));
        correct := correct + [isSet];
      }
    }

    // `(bit_array_[p / 8] & (1 << p % 8)) == (1 << p % 8)`
    method BitIsSet(p: nat) returns (isSet: bool)
      requires p < 8 * bytes.Length
      ensures isSet == IsSet(bytes[..], p)
    {
      isSet := bytes[p / 8] & Mask(p % 8) == Mask(p % 8);
    }

    method Contains(key: Key) returns (found: bool)
      requires Valid()
      ensures found <==> Contained(h, bytes[..], key)
      ensures found <==>
              forall i: nat, q: nat | i < h.count && q < 8 * bytes.Length && h.hash(key, i) % (8 * bytes.Length) == q ::
                IsSet(bytes[..], q)
    {
      ContainedHashes(h, bytes[..], key);
      hide IsSet, Holds;
      for i := 0 to h.count
        invariant forall j | 0 <= j < i :: IsSet(bytes[..], Position(h, bytes.Length, key, j))
      {
        var isSet := BitIsSet(Position(h, bytes.Length, key, i));
        if !isSet {
          assert !IsSet(bytes[..], Position(h, |bytes[..]|, key, i));
          return false;
        }
      }
      return true;
    }

    method BitwiseOr(other: BloomFilter)
      requires Valid() && other.Valid() && other.bytes.Length == bytes.Length && other.h == h
      modifies bytes
      ensures forall q: nat | q < 8 * bytes.Length ::
                IsSet(bytes[..], q) <==> IsSet(old(bytes[..]), q) || IsSet(old(other.bytes[..]), q)
      ensures forall key :: Contained(h, old(bytes[..]), key) || Contained(h, old(other.bytes[..]), key)
                            ==> Contained(h, bytes[..], key)
    {
      ghost var mine, theirs := bytes[..], other.bytes[..];
      for i := 0 to bytes.Length
        invariant forall k | 0 <= k < i :: bytes[k] == mine[k] | theirs[k]
        invariant forall k | i <= k < bytes.Length :: bytes[k] == mine[k] && other.bytes[k] == theirs[k]
      {
        bytes[i] := bytes[i] | other.bytes[i];
      }
      BytesUnited(mine, theirs, bytes[..]);
      hide IsSet;
    }
  }

  /** Or-ing byte by byte unites the positions set. */
  lemma BytesUnited(a: seq<bv8>, b: seq<bv8>, c: seq<bv8>)
    requires |a| == |b| == |c| && forall k | 0 <= k < |c| :: c[k] == a[k] | b[k]
    ensures forall q: nat | q < 8 * |c| :: IsSet(c, q) <==> IsSet(a, q) || IsSet(b, q)
  {
    forall q: nat | q < 8 * |c|
      ensures IsSet(c, q) <==> IsSet(a, q) || IsSet(b, q)
    {
      hide Mask;
      UnionHolds(a[q / 8], b[q / 8], q % 8);
    }
  }

  lemma AlreadySet(bytes: seq<bv8>, p: nat)
    requires p < 8 * |bytes| && IsSet(bytes, p)
    ensures WithBit(bytes, p) == bytes
  {
    forall q: nat | q < 8 * |bytes|
      ensures IsSet(WithBit(bytes, p), q) == IsSet(bytes, q)
    {
      WithBitSets(bytes, p, q);
    }
    BytesAreTheirBits(WithBit(bytes, p), bytes);
  }
}
