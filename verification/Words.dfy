/** 64-bit machine words, read most significant bit first, and the bit-counting loops of
    utility/BitManipulation.hpp. A word is its 64 bits; module MachineWords shows that the
    operations below are what the operators of an unsigned 64-bit integer do. */
module Words {

  type Word = w: seq<bool> | |w| == 64 witness seq(64, _ => false)

  function Zero(): Word {
    seq(64, _ => false)
  }

  function AllOnes(): Word {
    seq(64, _ => true)
  }

  /** `w << s` */
  function Shl(w: Word, s: nat): (r: Word) {
    seq(64, i requires 0 <= i < 64 => i + s < 64 && w[i + s])
  }

  /** `w >> s` on an unsigned word */
  function Shr(w: Word, s: nat): (r: Word) {
    seq(64, i requires 0 <= i < 64 => i >= s && w[i - s])
  }

  function And(v: Word, w: Word): (r: Word) {
    seq(64, i requires 0 <= i < 64 => v[i] && w[i])
  }

  function Or(v: Word, w: Word): (r: Word) {
    seq(64, i requires 0 <= i < 64 => v[i] || w[i])
  }

  function Not(w: Word): (r: Word) {
    seq(64, i requires 0 <= i < 64 => !w[i])
  }

  /** The masks with which a forward search ignores the bits before j. */
  lemma MaskedFront(w: Word, j: nat)
    requires j <= 64
    ensures forall i | 0 <= i < 64 :: And(w, Shr(AllOnes(), j))[i] == (i >= j && w[i])
    ensures forall i | 0 <= i < 64 :: Not(Or(w, Shl(AllOnes(), 64 - j)))[i] == (i >= j && !w[i])
  {
  }

  /** The masks with which a backward search ignores the bits from j on. */
  lemma MaskedBack(w: Word, j: nat, value: Word)
    requires j <= 64 && value == And(w, Shl(AllOnes(), 64 - j))
    ensures forall i | 0 <= i < 64 :: value[i] == (i < j && w[i])
  {
  }

  lemma MaskedBackComplement(w: Word, j: nat, value: Word)
    requires j <= 64 && value == Not(Or(w, Not(Shl(AllOnes(), 64 - j))))
    ensures forall i | 0 <= i < 64 :: value[i] == (i < j && !w[i])
  {
  }

  /** The number of ones in a bit sequence, whatever its length. */
  function Ones(s: seq<bool>): nat {
    if s == [] then 0 else Ones(s[..|s| - 1]) + (if s[|s| - 1] then 1 else 0)
  }

  lemma {:induction false} OnesConcat(a: seq<bool>, b: seq<bool>)
    ensures Ones(a + b) == Ones(a) + Ones(b)
  {
    if b == [] {
      assert a + b == a;
    } else {
      var c := b[..|b| - 1];
      assert (a + b)[..|a + b| - 1] == a + c;
      OnesConcat(a, c);
    }
  }

  lemma {:induction false} OnesOfZeros(s: seq<bool>)
    requires forall i | 0 <= i < |s| :: !s[i]
    ensures Ones(s) == 0
  {
    if s != [] {
      OnesOfZeros(s[..|s| - 1]);
    }
  }

  /** Counting ones is counting the positions that hold one. */
  lemma {:induction false} OnesIsCardinality(s: seq<bool>)
    ensures Ones(s) == |set i | 0 <= i < |s| && s[i]|
  {
    if s != [] {
      OnesIsCardinality(s[..|s| - 1]);
      LastPosition(s, s[..|s| - 1]);
    }
  }

  lemma LastPosition(s: seq<bool>, c: seq<bool>)
    requires s != [] && c == s[..|s| - 1]
    ensures |set i | 0 <= i < |s| && s[i]| == |set i | 0 <= i < |c| && c[i]| + if s[|s| - 1] then 1 else 0
  {
    var last := |s| - 1;
    var whole, front := set i | 0 <= i < |s| && s[i], set i | 0 <= i < |c| && c[i];
    assert last !in front;
    if s[last] {
      assert whole == front + {last};
    } else {
      assert whole == front;
    }
  }

  // ---- utility/BitManipulation.hpp --------------------------------------------

  lemma NoOnes()
    ensures Ones([]) == 0
  {
  }

  lemma OneMoreBit(w: Word, i: nat)
    requires i < 64
    ensures Ones(w[i..]) == Ones(w[i + 1..]) + if w[i] then 1 else 0
  {
    assert w[i..] == [w[i]] + w[i + 1..];
    OnesConcat([w[i]], w[i + 1..]);
    assert [w[i]][..0] == [];
  }

  /** Once the word shifted out is zero, the bits not counted yet are. */
  lemma OnlyZerosLeft(w: Word, k: nat)
    requires k <= 64 && Shr(w, k) == Zero()
    ensures Ones(w) == Ones(w[64 - k..])
  {
    var rest := w[..64 - k];
    forall i | 0 <= i < |rest|
      ensures !rest[i]
    {
      assert rest[i] == Shr(w, k)[i + k];
    }
    OnesOfZeros(rest);
    OnesConcat(rest, w[64 - k..]);
    assert w == rest + w[64 - k..];
  }

  method PopulationCount(w: Word) returns (count: nat)
    ensures count == Ones(w)
  {
    hide Ones;
    var word := w;
    count := 0;
    ghost var k := 0;
    NoOnes();
    assert w[64..] == [];
    while word != Zero()
      invariant 0 <= k <= 64
      invariant word == Shr(w, k)
      invariant count == Ones(w[64 - k..])
      decreases 64 - k
    {
      assert k < 64;
      OneMoreBit(w, 63 - k);
      if word[63] {
        count := count + 1;
      }
      word := Shr(word, 1);
      k := k + 1;
    }
    OnlyZerosLeft(w, k);
  }

  method LeadingZeroCount(w: Word) returns (count: nat)
    ensures forall i | 0 <= i < count :: i < 64 ==> !w[i]
    ensures if w == Zero() then count == 64 else count < 64 && w[count]
  {
    if w == Zero() {
      return 64;
    }
    var word := w;
    count := 0;
    ghost var one :| 0 <= one < 64 && w[one];
    while !word[0]
      invariant 0 <= count <= one
      invariant word == Shl(w, count)
      invariant forall i | 0 <= i < count :: !w[i]
      decreases 64 - count
    {
      count := count + 1;
      word := Shl(word, 1);
    }
  }

  method TrailingZeroCount(w: Word) returns (count: nat)
    ensures forall i | 64 - count <= i < 64 :: i >= 0 ==> !w[i]
    ensures if w == Zero() then count == 64 else count < 64 && w[63 - count]
  {
    if w == Zero() {
      return 64;
    }
    var word := w;
    count := 0;
    ghost var one :| 0 <= one < 64 && w[one];
    while !word[63]
      invariant 0 <= count <= 63 - one
      invariant word == Shr(w, count)
      invariant forall i | 64 - count <= i < 64 :: !w[i]
      decreases 64 - count
    {
      count := count + 1;
      word := Shr(word, 1);
    }
  }
}
