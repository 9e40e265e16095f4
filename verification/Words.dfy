/** `_has_bits_[0]` as the set of its one-bits.  The generated code uses only `|=`,
    `&= ~` and `&` on the word, with the masks `1 << bit` and `0xffu << shift`.
    `BitsOf` takes a 32-bit word to its set; on sets the three operations are union,
    difference and intersection, and a non-zero `&` is a common bit. */
module Words {

  type Word = set<nat>

  /** `0xffu << shift`. */
  function Byte(shift: nat): Word
  {
    {shift, shift + 1, shift + 2, shift + 3, shift + 4, shift + 5, shift + 6, shift + 7}
  }

  /** `(word & (0xffu << shift)) != 0`. */
  predicate Touches(word: Word, shift: nat)
  {
    word * Byte(shift) != {}
  }

  lemma TouchesIff(word: Word, shift: nat)
    ensures Touches(word, shift) <==> exists b :: b in word && shift <= b < shift + 8
  {
    if b :| b in word && shift <= b < shift + 8 {
      assert b in word * Byte(shift);
    }
    if Touches(word, shift) {
      var b :| b in word * Byte(shift);
      assert b in word && shift <= b < shift + 8;
    }
  }

  // ------------------------------------------------------------ the bit-vectors

  function Low(w: bv32, i: nat): Word
  {
    if w & 1 == 1 then {i} else {}
  }

  /** The one-bits of `w`, the lowest counted as bit `i`. */
  function BitsFrom(w: bv32, i: nat): (bits: Word)
    ensures forall b :: b in bits ==> i <= b
    decreases w
  {
    if w == 0 then {} else HalfIsLess(w); Low(w, i) + BitsFrom(w >> 1, i + 1)
  }

  /** The set a 32-bit word stands for. */
  function BitsOf(w: bv32): Word
  {
    BitsFrom(w, 0)
  }

  lemma HalfIsLess(w: bv32)
    requires w != 0
    ensures w >> 1 < w
  {
  }

  lemma BitsStep(w: bv32, i: nat)
    ensures BitsFrom(w, i) == Low(w, i) + BitsFrom(w >> 1, i + 1)
  {
  }

  lemma {:induction false} ZeroBits(w: bv32, i: nat)
    ensures BitsFrom(w, i) == {} <==> w == 0
    decreases w
  {
    if w != 0 {
      HalfIsLess(w);
      HalfOfEven(w);
      ZeroBits(w >> 1, i + 1);
    }
  }

  lemma HalfOfEven(w: bv32)
    requires w != 0
    ensures w & 1 == 1 || w >> 1 != 0
  {
  }

  // The operations meet the sets bit by bit: bit `k` is the lowest one after `k` halvings,
  // and halving commutes with all three.

  function Half(w: bv32): bv32
  {
    w >> 1
  }

  predicate Odd(w: bv32)
  {
    w & 1 == 1
  }

  function Or(a: bv32, b: bv32): bv32
  {
    a | b
  }

  function And(a: bv32, b: bv32): bv32
  {
    a & b
  }

  function AndNot(a: bv32, b: bv32): bv32
  {
    a & !b
  }

  function Times<T>(f: T -> T, x: T, k: nat): T
  {
    if k == 0 then x else f(Times(f, x, k - 1))
  }

  /** An operation that one step commutes with, any number of steps commute with. */
  lemma {:induction false} TimesCommutes<T(!new)>(f: T -> T, op: (T, T) -> T, a: T, b: T, k: nat)
    requires forall x, y :: f(op(x, y)) == op(f(x), f(y))
    ensures Times(f, op(a, b), k) == op(Times(f, a, k), Times(f, b, k))
    decreases k
  {
    if k > 0 {
      TimesCommutes(f, op, a, b, k - 1);
    }
  }

  lemma {:induction false} TimesInside<T>(f: T -> T, x: T, k: nat)
    ensures Times(f, f(x), k) == Times(f, x, k + 1)
    decreases k
  {
    if k > 0 {
      TimesInside(f, x, k - 1);
    }
  }

  function Shift(w: bv32, k: nat): bv32
  {
    Times(Half, w, k)
  }

  predicate BitN(w: bv32, k: nat)
  {
    Odd(Shift(w, k))
  }

  lemma {:induction false} HasBit(w: bv32, i: nat, k: nat)
    requires i <= k
    ensures k in BitsFrom(w, i) <==> BitN(w, k - i)
    decreases k - i
  {
    BitsStep(w, i);
    if i < k {
      HasBit(w >> 1, i + 1, k);
      TimesInside(Half, w, k - i - 1);
    }
  }

  lemma HalfOr(a: bv32, b: bv32)
    ensures Half(Or(a, b)) == Or(Half(a), Half(b))
    ensures Odd(Or(a, b)) <==> Odd(a) || Odd(b)
  {
  }

  lemma HalfAnd(a: bv32, b: bv32)
    ensures Half(And(a, b)) == And(Half(a), Half(b))
    ensures Odd(And(a, b)) <==> Odd(a) && Odd(b)
  {
  }

  lemma HalfAndNot(a: bv32, b: bv32)
    ensures Half(AndNot(a, b)) == AndNot(Half(a), Half(b))
    ensures Odd(AndNot(a, b)) <==> Odd(a) && !Odd(b)
  {
  }

  lemma ShiftOr(a: bv32, b: bv32, k: nat)
    ensures Shift(Or(a, b), k) == Or(Shift(a, k), Shift(b, k))
  {
    HalfOrAll();
    TimesCommutes(Half, Or, a, b, k);
  }

  lemma HalfOrAll()
    ensures forall x, y :: Half(Or(x, y)) == Or(Half(x), Half(y))
  {
    forall x, y
      ensures Half(Or(x, y)) == Or(Half(x), Half(y))
    {
      HalfOr(x, y);
    }
  }

  lemma ShiftAnd(a: bv32, b: bv32, k: nat)
    ensures Shift(And(a, b), k) == And(Shift(a, k), Shift(b, k))
  {
    HalfAndAll();
    TimesCommutes(Half, And, a, b, k);
  }

  lemma HalfAndAll()
    ensures forall x, y :: Half(And(x, y)) == And(Half(x), Half(y))
  {
    forall x, y
      ensures Half(And(x, y)) == And(Half(x), Half(y))
    {
      HalfAnd(x, y);
    }
  }

  lemma ShiftAndNot(a: bv32, b: bv32, k: nat)
    ensures Shift(AndNot(a, b), k) == AndNot(Shift(a, k), Shift(b, k))
  {
    HalfAndNotAll();
    TimesCommutes(Half, AndNot, a, b, k);
  }

  lemma HalfAndNotAll()
    ensures forall x, y :: Half(AndNot(x, y)) == AndNot(Half(x), Half(y))
  {
    forall x, y
      ensures Half(AndNot(x, y)) == AndNot(Half(x), Half(y))
    {
      HalfAndNot(x, y);
    }
  }

  lemma OrIsUnion(a: bv32, b: bv32)
    ensures BitsOf(a | b) == BitsOf(a) + BitsOf(b)
  {
    forall k: nat
      ensures k in BitsOf(a | b) <==> k in BitsOf(a) || k in BitsOf(b)
    {
      ShiftOr(a, b, k);
      HalfOr(Shift(a, k), Shift(b, k));
      HasBit(a, 0, k);
      HasBit(b, 0, k);
      HasBit(a | b, 0, k);
    }
  }

  lemma AndIsIntersection(a: bv32, b: bv32)
    ensures BitsOf(a & b) == BitsOf(a) * BitsOf(b)
  {
    forall k: nat
      ensures k in BitsOf(a & b) <==> k in BitsOf(a) && k in BitsOf(b)
    {
      ShiftAnd(a, b, k);
      HalfAnd(Shift(a, k), Shift(b, k));
      HasBit(a, 0, k);
      HasBit(b, 0, k);
      HasBit(a & b, 0, k);
    }
  }

  lemma AndNotIsDifference(a: bv32, b: bv32)
    ensures BitsOf(a & !b) == BitsOf(a) - BitsOf(b)
  {
    forall k: nat
      ensures k in BitsOf(a & !b) <==> k in BitsOf(a) && k !in BitsOf(b)
    {
      ShiftAndNot(a, b, k);
      HalfAndNot(Shift(a, k), Shift(b, k));
      HasBit(a, 0, k);
      HasBit(b, 0, k);
      HasBit(a & !b, 0, k);
    }
  }

  // ------------------------------------------------------------------ the masks

  lemma DoubledBits(w: bv32, i: nat)
    requires w < 0x8000_0000
    ensures BitsFrom(w << 1, i) == BitsFrom(w, i + 1)
  {
    Doubled(w);
    BitsStep(w << 1, i);
  }

  lemma Doubled(w: bv32)
    requires w < 0x8000_0000
    ensures (w << 1) >> 1 == w && (w << 1) & 1 == 0
  {
  }

  lemma ByteBits(i: nat)
    ensures BitsFrom(0xff, i) == Byte(i)
  {
    BitsStep(0xff, i);
    BitsStep(0x7f, i + 1);
    BitsStep(0x3f, i + 2);
    BitsStep(0x1f, i + 3);
    BitsStep(0xf, i + 4);
    BitsStep(0x7, i + 5);
    BitsStep(0x3, i + 6);
    BitsStep(0x1, i + 7);
  }

  lemma ShiftStep(n: bv32)
    requires 0 < n <= 24
    ensures (0xff as bv32) << n == ((0xff as bv32) << (n - 1)) << 1
    ensures (0xff as bv32) << (n - 1) < 0x8000_0000
  {
  }

  lemma {:induction false} MaskBits(n: bv32, i: nat)
    requires n <= 24
    ensures BitsFrom((0xff as bv32) << n, i) == Byte(n as nat + i)
    decreases n
  {
    if n == 0 {
      ByteBits(i);
    } else {
      ShiftStep(n);
      DoubledBits((0xff as bv32) << (n - 1), i);
      MaskBits(n - 1, i + 1);
    }
  }

  lemma OneStep(n: bv32)
    requires 0 < n < 32
    ensures (1 as bv32) << n == ((1 as bv32) << (n - 1)) << 1
    ensures (1 as bv32) << (n - 1) < 0x8000_0000
  {
  }

  lemma {:induction false} OneBits(n: bv32, i: nat)
    requires n < 32
    ensures BitsFrom((1 as bv32) << n, i) == {n as nat + i}
    decreases n
  {
    if n == 0 {
      BitsStep(1, i);
    } else {
      OneStep(n);
      DoubledBits((1 as bv32) << (n - 1), i);
      OneBits(n - 1, i + 1);
    }
  }

  // ------------------------------------------------------- what the code writes

  /** set_has_x: `_has_bits_[0] |= m`, where `m` is the bit `n`. */
  lemma SetHas(w: bv32, m: bv32, n: nat)
    requires BitsOf(m) == {n}
    ensures BitsOf(w | m) == BitsOf(w) + {n}
  {
    OrIsUnion(w, m);
  }

  /** clear_has_x: `_has_bits_[0] &= ~m`. */
  lemma ClearHas(w: bv32, m: bv32, n: nat)
    requires BitsOf(m) == {n}
    ensures BitsOf(w & !m) == BitsOf(w) - {n}
  {
    AndNotIsDifference(w, m);
  }

  /** has_x: `(_has_bits_[0] & m) != 0`. */
  lemma TestHas(w: bv32, m: bv32, n: nat)
    requires BitsOf(m) == {n}
    ensures w & m != 0 <==> n in BitsOf(w)
  {
    AndIsIntersection(w, m);
    ZeroBits(w & m, 0);
  }

  /** The test of a guard: `_has_bits_[0] & (0xffu << n)`. */
  lemma GuardTouches(w: bv32, n: bv32)
    requires n <= 24
    ensures w & ((0xff as bv32) << n) != 0 <==> Touches(BitsOf(w), n as nat)
  {
    AndIsIntersection(w, (0xff as bv32) << n);
    ZeroBits(w & ((0xff as bv32) << n), 0);
    MaskBits(n, 0);
  }
}
