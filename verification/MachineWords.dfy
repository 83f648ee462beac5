/** The bit-sequence words of module Words against unsigned 64-bit integers: every operator
    the source applies to a word acts on its bits as the operation of the same name, and a
    word is determined by its bits. */
module MachineWords {
  import W = Words

  const TOP_BIT: bv64 := 0x8000_0000_0000_0000
  const ALL_ONES: bv64 := 0xFFFF_FFFF_FFFF_FFFF

  const EVEN_ONES: bv64 := 0xFFFF_FFFF_FFFF_FFFE

  function Or(x: bv64, y: bv64): bv64 { x | y }
  function And(x: bv64, y: bv64): bv64 { x & y }
  function Xor(x: bv64, y: bv64): bv64 { x ^ y }
  function Not(x: bv64): bv64 { !x }
  function Double(x: bv64): bv64 { x << 1 }
  function Half(x: bv64): bv64 { x >> 1 }

  predicate Top(x: bv64) {
    x & TOP_BIT != 0
  }

  /** `x << s`: s doublings modulo 2^64. */
  function Left(x: bv64, s: nat): bv64 {
    if s == 0 then x else Double(Left(x, s - 1))
  }

  /** `x >> s` on an unsigned word: s halvings. */
  function Right(x: bv64, s: nat): bv64 {
    if s == 0 then x else Half(Right(x, s - 1))
  }

  /** Bit i, counted from the most significant end, as getBit reads it. */
  predicate Bit(x: bv64, i: nat) {
    Top(Left(x, i))
  }

  function Unpack(x: bv64): W.Word {
    seq(64, i requires 0 <= i < 64 => Bit(x, i))
  }

  // ---- one place at a time ------------------------------------------------------

  lemma RawTopOr(x: bv64, y: bv64)
    ensures (x | y) & TOP_BIT != 0 <==> x & TOP_BIT != 0 || y & TOP_BIT != 0
  {
  }

  lemma TopOr(x: bv64, y: bv64)
    ensures Top(Or(x, y)) <==> Top(x) || Top(y)
  {
    RawTopOr(x, y);
  }

  lemma RawTopAnd(x: bv64, y: bv64)
    ensures (x & y) & TOP_BIT != 0 <==> x & TOP_BIT != 0 && y & TOP_BIT != 0
  {
  }

  lemma TopAnd(x: bv64, y: bv64)
    ensures Top(And(x, y)) <==> Top(x) && Top(y)
  {
    RawTopAnd(x, y);
  }

  lemma RawTopXor(x: bv64, y: bv64)
    ensures (x ^ y) & TOP_BIT != 0 <==> ((x & TOP_BIT != 0) != (y & TOP_BIT != 0))
  {
  }

  lemma TopXor(x: bv64, y: bv64)
    ensures Top(Xor(x, y)) <==> Top(x) != Top(y)
  {
    RawTopXor(x, y);
  }

  lemma RawDoubleOr(x: bv64, y: bv64)
    ensures (x | y) << 1 == (x << 1) | (y << 1)
  {
  }

  lemma DoubleOr(x: bv64, y: bv64)
    ensures Double(Or(x, y)) == Or(Double(x), Double(y))
  {
    RawDoubleOr(x, y);
  }

  lemma RawDoubleAnd(x: bv64, y: bv64)
    ensures (x & y) << 1 == (x << 1) & (y << 1)
  {
  }

  lemma DoubleAnd(x: bv64, y: bv64)
    ensures Double(And(x, y)) == And(Double(x), Double(y))
  {
    RawDoubleAnd(x, y);
  }

  lemma RawDoubleXor(x: bv64, y: bv64)
    ensures (x ^ y) << 1 == (x << 1) ^ (y << 1)
  {
  }

  lemma DoubleXor(x: bv64, y: bv64)
    ensures Double(Xor(x, y)) == Xor(Double(x), Double(y))
  {
    RawDoubleXor(x, y);
  }

  lemma RawDoubleHalf(x: bv64)
    ensures (x >> 1) << 1 == x & EVEN_ONES
  {
  }

  lemma DoubleHalf(x: bv64)
    ensures Double(Half(x)) == And(x, EVEN_ONES)
  {
    RawDoubleHalf(x);
  }

  lemma RawHalfTop(x: bv64)
    ensures (x >> 1) & TOP_BIT == 0
  {
  }

  lemma HalfTop(x: bv64)
    ensures !Top(Half(x))
  {
    RawHalfTop(x);
  }

  lemma RawNotIsXor(x: bv64)
    ensures !x == x ^ ALL_ONES
  {
  }

  lemma NotIsXor(x: bv64)
    ensures Not(x) == Xor(x, ALL_ONES)
  {
    RawNotIsXor(x);
  }

  lemma RawDoubleDeterminesRest(x: bv64, y: bv64)
    requires x << 1 == y << 1 && (x & TOP_BIT != 0) == (y & TOP_BIT != 0)
    ensures x == y
  {
  }

  lemma DoubleDeterminesRest(x: bv64, y: bv64)
    requires Double(x) == Double(y) && Top(x) == Top(y)
    ensures x == y
  {
    RawDoubleDeterminesRest(x, y);
  }

  lemma {:induction false} LeftFacts(x: bv64, y: bv64, s: nat)
    ensures Left(Or(x, y), s) == Or(Left(x, s), Left(y, s))
    ensures Left(And(x, y), s) == And(Left(x, s), Left(y, s))
    ensures Left(Xor(x, y), s) == Xor(Left(x, s), Left(y, s))
  {
    hide Or, And, Xor, Double;
    if s > 0 {
      LeftFacts(x, y, s - 1);
      DoubleOr(Left(x, s - 1), Left(y, s - 1));
      DoubleAnd(Left(x, s - 1), Left(y, s - 1));
      DoubleXor(Left(x, s - 1), Left(y, s - 1));
    }
  }

  lemma {:induction false} LeftLeft(x: bv64, s: nat, i: nat)
    ensures Left(Left(x, s), i) == Left(x, s + i)
  {
    hide Double;
    if i > 0 {
      LeftLeft(x, s, i - 1);
    }
  }

  // ---- bits of the operators -----------------------------------------------------

  lemma BitFacts(x: bv64, y: bv64, i: nat)
    ensures Bit(Or(x, y), i) <==> Bit(x, i) || Bit(y, i)
    ensures Bit(And(x, y), i) <==> Bit(x, i) && Bit(y, i)
    ensures Bit(Xor(x, y), i) <==> Bit(x, i) != Bit(y, i)
  {
    hide Or, And, Xor, Double, Left, Top;
    LeftFacts(x, y, i);
    TopOr(Left(x, i), Left(y, i));
    TopAnd(Left(x, i), Left(y, i));
    TopXor(Left(x, i), Left(y, i));
  }

  lemma BitLeft(x: bv64, s: nat, i: nat)
    ensures Bit(Left(x, s), i) <==> Bit(x, s + i)
  {
    hide Double, Left, Top;
    LeftLeft(x, s, i);
  }

  // ---- every bit leaves after 64 places ---------------------------------------------

  lemma LeftNone(x: bv64)
    ensures Left(x, 0) == x
  {
  }

  lemma LeftStep(x: bv64, s: nat, v: bv64)
    requires Left(x, s) == v
    ensures Left(x, s + 1) == v << 1
  {
  }

  lemma LeftTwo(x: bv64)
    ensures Left(x, 2) == x << 2
  {
    hide Left, Double;
    LeftNone(x);
    LeftStep(x, 0, x);
    LeftStep(x, 1, x << 1);
  }

  lemma LeftFour(x: bv64)
    ensures Left(x, 4) == x << 4
  {
    hide Left, Double;
    LeftLeft(x, 2, 2);
    LeftTwo(x);
    LeftTwo(x << 2);
  }

  lemma LeftEight(x: bv64)
    ensures Left(x, 8) == x << 8
  {
    hide Left, Double;
    LeftLeft(x, 4, 4);
    LeftFour(x);
    LeftFour(x << 4);
  }

  lemma LeftSixteen(x: bv64)
    ensures Left(x, 16) == x << 16
  {
    hide Left, Double;
    LeftLeft(x, 8, 8);
    LeftEight(x);
    LeftEight(x << 8);
  }

  lemma LeftThirtyTwo(x: bv64)
    ensures Left(x, 32) == x << 32
  {
    hide Left, Double;
    LeftLeft(x, 16, 16);
    LeftSixteen(x);
    LeftSixteen(x << 16);
  }

  lemma LeftAll(x: bv64)
    ensures Left(x, 64) == 0
  {
    hide Left, Double;
    LeftLeft(x, 32, 32);
    LeftThirtyTwo(x);
    LeftThirtyTwo(x << 32);
  }

  lemma {:induction false} LeftOfZero(s: nat)
    ensures Left(0, s) == 0
  {
    if s > 0 {
      LeftOfZero(s - 1);
    }
  }

  lemma BitBeyond(x: bv64, i: nat)
    requires i >= 64
    ensures !Bit(x, i)
  {
    hide Left, Double;
    LeftLeft(x, 64, i - 64);
    LeftAll(x);
    LeftOfZero(i - 64);
  }

  // ---- the all-ones word, complement and right shift ----------------------------------

  lemma LastOne()
    ensures Left(ALL_ONES, 63) == TOP_BIT
  {
    hide Left, Double;
    LeftThirtyTwo(ALL_ONES);
    LeftLeft(ALL_ONES, 32, 16);
    LeftSixteen(0xFFFF_FFFF_0000_0000);
    LeftLeft(ALL_ONES, 48, 8);
    LeftEight(0xFFFF_0000_0000_0000);
    LeftStep(ALL_ONES, 56, 0xFF00_0000_0000_0000);
    LeftStep(ALL_ONES, 57, 0xFE00_0000_0000_0000);
    LeftStep(ALL_ONES, 58, 0xFC00_0000_0000_0000);
    LeftStep(ALL_ONES, 59, 0xF800_0000_0000_0000);
    LeftStep(ALL_ONES, 60, 0xF000_0000_0000_0000);
    LeftStep(ALL_ONES, 61, 0xE000_0000_0000_0000);
    LeftStep(ALL_ONES, 62, 0xC000_0000_0000_0000);
  }

  lemma DoubleOnes()
    ensures Left(ALL_ONES, 1) == EVEN_ONES && And(EVEN_ONES, ALL_ONES) == EVEN_ONES
  {
    hide Left, Double;
    LeftNone(ALL_ONES);
    LeftStep(ALL_ONES, 0, ALL_ONES);
  }

  /** If the all-ones word has a one k places further on, it has one here. */
  lemma {:induction false} OnesBelow(i: nat, k: nat)
    requires Bit(ALL_ONES, i + k)
    ensures Bit(ALL_ONES, i)
  {
    hide Left, Double, Top, And, Bit;
    if k > 0 {
      DoubleOnes();
      BitLeft(ALL_ONES, 1, i + k - 1);
      BitFacts(EVEN_ONES, ALL_ONES, i + k - 1);
      OnesBelow(i, k - 1);
    }
  }

  lemma BitOnes(i: nat)
    requires i < 64
    ensures Bit(ALL_ONES, i)
  {
    LastOne();
    hide Left, Double;
    OnesBelow(i, 63 - i);
  }

  lemma BitNot(x: bv64, i: nat)
    requires i < 64
    ensures Bit(Not(x), i) <==> !Bit(x, i)
  {
    hide Left, Double, Top, Not, Xor, Bit;
    NotIsXor(x);
    BitFacts(x, ALL_ONES, i);
    BitOnes(i);
  }

  lemma BitHalf(x: bv64, i: nat)
    requires i < 64
    ensures Bit(Half(x), i) <==> 0 < i && Bit(x, i - 1)
  {
    hide Double, Top, Half, And, Or, Xor;
    if i == 0 {
      HalfTop(x);
    } else {
      DoubleHalf(x);
      HalfLeft(x);
      hide Left, Bit;
      BitLeft(Half(x), 1, i - 1);
      BitFacts(x, EVEN_ONES, i - 1);
      DoubleOnes();
      BitLeft(ALL_ONES, 1, i - 1);
      BitOnes(i);
    }
  }

  lemma HalfLeft(x: bv64)
    ensures Left(Half(x), 1) == Double(Half(x))
  {
    hide Double, Half;
  }

  lemma {:induction false} BitRight(x: bv64, s: nat, i: nat)
    requires i < 64
    ensures Bit(Right(x, s), i) <==> s <= i && Bit(x, i - s)
  {
    hide Half, Bit;
    if s > 0 {
      BitHalf(Right(x, s - 1), i);
      if i > 0 {
        BitRight(x, s - 1, i - 1);
      }
    }
  }

  // ---- the shift operators --------------------------------------------------------------

  function LeftBy(x: bv64, b: bv7): bv64
    requires b < 64
  {
    x << b
  }

  function RightBy(x: bv64, b: bv7): bv64
    requires b < 64
  {
    x >> b
  }

  function Amount(s: nat): (b: bv7)
    requires s < 64
  {
    s as bv7
  }

  lemma LeftByLow(x: bv64, b: bv7)
    requires 0 < b < 16
    ensures LeftBy(x, b) == Double(LeftBy(x, b - 1))
  {
  }

  lemma LeftByMiddle(x: bv64, b: bv7)
    requires 16 <= b < 32
    ensures LeftBy(x, b) == Double(LeftBy(x, b - 1))
  {
  }

  lemma LeftByHigh(x: bv64, b: bv7)
    requires 32 <= b < 64
    ensures LeftBy(x, b) == Double(LeftBy(x, b - 1))
  {
  }

  lemma RightByLow(x: bv64, b: bv7)
    requires 0 < b < 16
    ensures RightBy(x, b) == Half(RightBy(x, b - 1))
  {
  }

  lemma RightByMiddle(x: bv64, b: bv7)
    requires 16 <= b < 32
    ensures RightBy(x, b) == Half(RightBy(x, b - 1))
  {
  }

  lemma RightByHigh(x: bv64, b: bv7)
    requires 32 <= b < 64
    ensures RightBy(x, b) == Half(RightBy(x, b - 1))
  {
  }

  lemma RawNoShift(x: bv64)
    ensures x << (0 as bv7) == x && x >> (0 as bv7) == x
  {
  }

  lemma AmountFits(s: nat)
    requires s < 64
    ensures (s as bv7) as nat == s && (s as bv7) < 64
  {
  }

  lemma AmountIncremented(c: bv7)
    requires c < 64
    ensures (c + 1) as nat == c as nat + 1
  {
  }

  lemma AmountReadBack(c: bv7)
    ensures (c as nat) as bv7 == c
  {
  }

  /** Shift amounts count like numbers. */
  lemma NextAmount(s: nat)
    requires 0 < s < 64
    ensures Amount(s) - 1 == Amount(s - 1) && 0 < Amount(s) < 64
  {
    var c := (s - 1) as bv7;
    AmountFits(s - 1);
    AmountIncremented(c);
    AmountReadBack(c + 1);
    AmountFits(s);
  }

  lemma LeftByOneMore(x: bv64, b: bv7)
    requires 0 < b < 64
    ensures LeftBy(x, b) == Double(LeftBy(x, b - 1))
  {
    hide LeftBy, Double;
    if b < 16 {
      LeftByLow(x, b);
    } else if b < 32 {
      LeftByMiddle(x, b);
    } else {
      LeftByHigh(x, b);
    }
  }

  lemma RightByOneMore(x: bv64, b: bv7)
    requires 0 < b < 64
    ensures RightBy(x, b) == Half(RightBy(x, b - 1))
  {
    hide RightBy, Half;
    if b < 16 {
      RightByLow(x, b);
    } else if b < 32 {
      RightByMiddle(x, b);
    } else {
      RightByHigh(x, b);
    }
  }

  lemma NoShift(x: bv64)
    ensures LeftBy(x, Amount(0)) == x && RightBy(x, Amount(0)) == x
  {
    RawNoShift(x);
  }

  lemma AmountBelow(s: nat)
    requires s < 64
    ensures Amount(s) < 64
  {
    AmountFits(s);
  }

  /** Repeated doubling is the left shift operator, at every distance below the word size. */
  lemma {:induction false} LeftIsShift(x: bv64, s: nat)
    requires s < 64
    ensures Amount(s) < 64 && Left(x, s) == LeftBy(x, Amount(s))
  {
    hide Double, LeftBy, Amount;
    AmountBelow(s);
    if s == 0 {
      NoShift(x);
    } else {
      LeftIsShift(x, s - 1);
      NextAmount(s);
      LeftByOneMore(x, Amount(s));
    }
  }

  /** Repeated halving is the right shift operator on an unsigned word. */
  lemma {:induction false} RightIsShift(x: bv64, s: nat)
    requires s < 64
    ensures Amount(s) < 64 && Right(x, s) == RightBy(x, Amount(s))
  {
    hide Half, RightBy, Amount;
    AmountBelow(s);
    if s == 0 {
      NoShift(x);
    } else {
      RightIsShift(x, s - 1);
      NextAmount(s);
      RightByOneMore(x, Amount(s));
    }
  }

  // ---- the operators, as seen by module Words ------------------------------------------

  lemma UnpackOperators(x: bv64, y: bv64)
    ensures Unpack(Or(x, y)) == W.Or(Unpack(x), Unpack(y))
    ensures Unpack(And(x, y)) == W.And(Unpack(x), Unpack(y))
    ensures Unpack(Not(x)) == W.Not(Unpack(x))
  {
    hide Bit, Or, And, Not, Xor;
    forall i | 0 <= i < 64
      ensures Bit(Or(x, y), i) == (Bit(x, i) || Bit(y, i))
      ensures Bit(And(x, y), i) == (Bit(x, i) && Bit(y, i))
      ensures Bit(Not(x), i) == !Bit(x, i)
    {
      BitFacts(x, y, i);
      BitNot(x, i);
    }
  }

  lemma UnpackLeft(x: bv64, s: nat)
    ensures Unpack(Left(x, s)) == W.Shl(Unpack(x), s)
  {
    hide Unpack, Left, Bit, W.Shl;
    forall i | 0 <= i < 64
      ensures Unpack(Left(x, s))[i] == W.Shl(Unpack(x), s)[i]
    {
      UnpackLeftAt(x, s, i);
    }
  }

  lemma UnpackLeftAt(x: bv64, s: nat, i: nat)
    requires i < 64
    ensures Unpack(Left(x, s))[i] == W.Shl(Unpack(x), s)[i]
  {
    hide Bit, Left;
    BitLeft(x, s, i);
    if i + s >= 64 {
      BitBeyond(x, i + s);
    }
  }

  lemma UnpackRight(x: bv64, s: nat)
    ensures Unpack(Right(x, s)) == W.Shr(Unpack(x), s)
  {
    hide Unpack, Right, Bit, W.Shr;
    forall i | 0 <= i < 64
      ensures Unpack(Right(x, s))[i] == W.Shr(Unpack(x), s)[i]
    {
      UnpackRightAt(x, s, i);
    }
  }

  lemma UnpackRightAt(x: bv64, s: nat, i: nat)
    requires i < 64
    ensures Unpack(Right(x, s))[i] == W.Shr(Unpack(x), s)[i]
  {
    hide Bit, Right;
    BitRight(x, s, i);
  }

  /** `x << s` below the word size, as module Words has it. */
  lemma LeftOperator(x: bv64, s: nat)
    requires s < 64
    ensures Amount(s) < 64 && Unpack(LeftBy(x, Amount(s))) == W.Shl(Unpack(x), s)
  {
    hide Unpack, Left, LeftBy, Amount, W.Shl;
    LeftIsShift(x, s);
    UnpackLeft(x, s);
  }

  /** `x >> s` of an unsigned word below the word size. */
  lemma RightOperator(x: bv64, s: nat)
    requires s < 64
    ensures Amount(s) < 64 && Unpack(RightBy(x, Amount(s))) == W.Shr(Unpack(x), s)
  {
    hide Unpack, Right, RightBy, Amount, W.Shr;
    RightIsShift(x, s);
    UnpackRight(x, s);
  }

  /** Words with the same bits are the same word. */
  lemma {:induction false} SameSuffix(x: bv64, y: bv64, i: nat)
    requires i <= 64
    requires forall j | i <= j < 64 :: Bit(x, j) == Bit(y, j)
    ensures Left(x, i) == Left(y, i)
    decreases 64 - i
  {
    hide Double, Top;
    if i == 64 {
      LeftAll(x);
      LeftAll(y);
    } else {
      SameSuffix(x, y, i + 1);
      assert Bit(x, i) == Bit(y, i);
      DoubleDeterminesRest(Left(x, i), Left(y, i));
    }
  }

  lemma UnpackInjective(x: bv64, y: bv64)
    requires Unpack(x) == Unpack(y)
    ensures x == y
  {
    forall j | 0 <= j < 64
      ensures Bit(x, j) == Bit(y, j)
    {
      hide Bit;
      assert Unpack(x)[j] == Unpack(y)[j];
    }
    hide Bit;
    SameSuffix(x, y, 0);
    LeftNone(x);
    LeftNone(y);
  }
}
