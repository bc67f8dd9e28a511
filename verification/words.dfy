/** The machine's integer types (include/types.h) and the C conversions between them. */
module Words {

  const TWO32: int := 0x1_0000_0000

  type Word = w: int | -0x8000_0000 <= w < 0x8000_0000
  type U32 = u: int | 0 <= u < 0x1_0000_0000
  type Byte = b: int | 0 <= b < 256

  /** Conversion of any integer to `word_t`: two's-complement wrap-around. */
  function Wrap(x: int): (w: Word)
    ensures -0x8000_0000 <= x < 0x8000_0000 ==> w == x
  {
    (x + 0x8000_0000) % TWO32 - 0x8000_0000
  }

  /** `(uint32_t)w`. */
  function ToU32(w: Word): (u: U32)
    ensures Wrap(u) == w
  {
    if w < 0 then w + TWO32 else w
  }

  lemma UnsignedAgain(u: U32)
    ensures ToU32(Wrap(u)) == u
  {
  }

  /** `(int8_t)b`. */
  function SignedByte(b: Byte): (r: int)
    ensures -128 <= r < 128
  {
    if b < 128 then b else b - 256
  }

  /** `(short)((b1 << 8) | b2)`. */
  function SignedShort(b1: Byte, b2: Byte): (r: int)
    ensures -0x8000 <= r < 0x8000
  {
    var u := 256 * b1 + b2;
    if u < 0x8000 then u else u - 0x1_0000
  }

  /** `(uint16_t)s` of a short. */
  function UnsignedShort(s: int): (r: int)
    requires -0x8000 <= s < 0x8000
    ensures 0 <= r < 0x1_0000
  {
    if s < 0 then s + 0x1_0000 else s
  }

  /** `(int16_t)x`. */
  function WrapShort(x: int): (r: int)
    ensures -0x8000 <= r < 0x8000
  {
    (x + 0x8000) % 0x1_0000 - 0x8000
  }

  /** Every conversion keeps the low bits; with the ranges above this fixes its result. Shorts are big-endian. */
  lemma ConversionsKeepBits(x: int, b1: Byte, b2: Byte)
    ensures (Wrap(x) - x) % TWO32 == 0 && (WrapShort(x) - x) % 0x1_0000 == 0
    ensures SignedByte(b1) % 256 == b1 && SignedShort(b1, b2) % 0x1_0000 == 256 * b1 + b2
    ensures UnsignedShort(SignedShort(b1, b2)) == 256 * b1 + b2
  {
    hide Wrap, WrapShort;
    WrapKeeps(x);
  }

  /** `w` is `x` modulo 2^32. */
  predicate Congruent(w: Word, x: int) {
    (w - x) % TWO32 == 0
  }

  lemma WrapCongruent(x: int)
    ensures Congruent(Wrap(x), x)
  {
    hide Wrap;
    ConversionsKeepBits(x, 0, 0);
  }

  lemma WrapKeeps(x: int)
    ensures (Wrap(x) - x) % TWO32 == 0 && (WrapShort(x) - x) % 0x1_0000 == 0
  {
    WrapShifts(x, (x + 0x8000_0000) / TWO32);
    WrapShortShifts(x, (x + 0x8000) / 0x1_0000);
  }

  lemma WrapShifts(x: int, q: int)
    requires q == (x + 0x8000_0000) / TWO32
    ensures (Wrap(x) - x) % TWO32 == 0
  {
    assert Wrap(x) - x == -q * TWO32;
  }

  lemma WrapShortShifts(x: int, q: int)
    requires q == (x + 0x8000) / 0x1_0000
    ensures (WrapShort(x) - x) % 0x1_0000 == 0
  {
    assert WrapShort(x) - x == -q * 0x1_0000;
  }
}

/** Bitwise operators on unsigned numbers, and the two laws that evaluate masks. */
module Bits {

  datatype BitOp = And | Or | Xor

  function Bit(op: BitOp, a: nat, b: nat): (r: nat)
    requires a < 2 && b < 2
    ensures r < 2
  {
    match op
    case And => a * b
    case Or => if a + b == 0 then 0 else 1
    case Xor => (a + b) % 2
  }

  function Bitwise(op: BitOp, a: nat, b: nat): nat
    decreases a + b
  {
    if a == 0 && b == 0 then 0
    else Bit(op, a % 2, b % 2) + 2 * Bitwise(op, a / 2, b / 2)
  }

  function Pow2(k: nat): (p: nat)
    ensures p > 0
  {
    if k == 0 then 1 else 2 * Pow2(k - 1)
  }

  lemma Unfold(op: BitOp, x: nat, y: nat)
    ensures Bitwise(op, x, y) == Bit(op, x % 2, y % 2) + 2 * Bitwise(op, x / 2, y / 2)
  {
  }

  /** A bitwise operator works on the high and the low part of its operands separately. */
  lemma {:induction false} Split(op: BitOp, k: nat, p: nat, a: nat, b: nat, c: nat, d: nat)
    requires p == Pow2(k) && b < p && d < p
    ensures Bitwise(op, a * p + b, c * p + d) == Bitwise(op, a, c) * p + Bitwise(op, b, d)
  {
    hide Bitwise;
    if k == 0 {
      assert Bitwise(op, 0, 0) == 0 by { Unfold(op, 0, 0); }
    } else {
      var q := Pow2(k - 1);
      Split(op, k - 1, q, a, b / 2, c, d / 2);
      Scale(a, q);
      Scale(c, q);
      Scale(Bitwise(op, a, c), q);
      SplitStep(op, a * q, c * q, b, d, Bitwise(op, a, c) * q);
    }
  }

  /** One bit more, with `x` and `y` the parts above the lowest. */
  lemma SplitStep(op: BitOp, x: nat, y: nat, b: nat, d: nat, high: nat)
    requires Bitwise(op, x + b / 2, y + d / 2) == high + Bitwise(op, b / 2, d / 2)
    ensures Bitwise(op, 2 * x + b, 2 * y + d) == 2 * high + Bitwise(op, b, d)
  {
    hide *;
    Unfold(op, 2 * x + b, 2 * y + d);
    Unfold(op, b, d);
    assert (2 * x + b) / 2 == x + b / 2 && (2 * y + d) / 2 == y + d / 2;
    assert (2 * x + b) % 2 == b % 2 && (2 * y + d) % 2 == d % 2;
  }

  lemma Scale(a: nat, q: nat)
    ensures a * (2 * q) == 2 * (a * q)
  {
  }

  lemma {:induction false} AndZero(a: nat)
    ensures Bitwise(And, a, 0) == 0
  {
    if a != 0 { AndZero(a / 2); }
  }

  lemma {:induction false} ZeroAnd(a: nat)
    ensures Bitwise(And, 0, a) == 0
  {
    if a != 0 { ZeroAnd(a / 2); }
  }

  lemma {:induction false} OrZero(a: nat)
    ensures Bitwise(Or, a, 0) == a
  {
    if a != 0 { OrZero(a / 2); }
  }

  lemma {:induction false} ZeroOr(a: nat)
    ensures Bitwise(Or, 0, a) == a
  {
    if a != 0 { ZeroOr(a / 2); }
  }

  lemma {:induction false} AndOnes(k: nat, a: nat)
    requires a < Pow2(k)
    ensures Bitwise(And, a, Pow2(k) - 1) == a
  {
    if k != 0 { AndOnes(k - 1, a / 2); }
  }

  lemma {:induction false} OnesAnd(k: nat, a: nat)
    requires a < Pow2(k)
    ensures Bitwise(And, Pow2(k) - 1, a) == a
  {
    if k != 0 { OnesAnd(k - 1, a / 2); }
  }

  lemma {:induction false} XorIsZero(a: nat, b: nat)
    ensures Bitwise(Xor, a, b) == 0 <==> a == b
    decreases a + b
  {
    if a != 0 || b != 0 { XorIsZero(a / 2, b / 2); }
  }

  /** Bit `k` of a number. */
  function BitOf(u: nat, k: nat): nat {
    if k == 0 then u % 2 else BitOf(u / 2, k - 1)
  }

  lemma {:induction false} BitwiseBits(op: BitOp, a: nat, b: nat, k: nat)
    ensures BitOf(a, k) < 2 && BitOf(b, k) < 2 && BitOf(Bitwise(op, a, b), k) == Bit(op, BitOf(a, k), BitOf(b, k))
    decreases k
  {
    hide Bitwise, Bit;
    Unfold(op, a, b);
    var low, high := Bit(op, a % 2, b % 2), Bitwise(op, a / 2, b / 2);
    assert (low + 2 * high) % 2 == low && (low + 2 * high) / 2 == high;
    if k > 0 { BitwiseBits(op, a / 2, b / 2, k - 1); }
  }

  /** Conjunction and disjunction share out the bits of their operands, and stay within their width. */
  lemma {:induction false} AndOrShare(k: nat, a: nat, b: nat)
    requires a < Pow2(k) && b < Pow2(k)
    ensures Bitwise(And, a, b) + Bitwise(Or, a, b) == a + b
    ensures Bitwise(And, a, b) <= a <= Bitwise(Or, a, b) < Pow2(k)
  {
    if k != 0 {
      AndOrShare(k - 1, a / 2, b / 2);
      Unfold(And, a, b);
      Unfold(Or, a, b);
      ShareBit(a % 2, b % 2);
    }
  }

  lemma ShareBit(a: nat, b: nat)
    requires a < 2 && b < 2
    ensures Bit(And, a, b) + Bit(Or, a, b) == a + b && Bit(And, a, b) <= a <= Bit(Or, a, b)
  {
  }
}

/** Array references: a 20-bit index between two tag fields (src/array.c). */
module References {
  import opened Words
  import opened Bits

  const MAX_ARRAYS: int := 0x10_0000

  /** The C test `((u & 0xFF00000F) ^ 0xAA00000A) == 0`. */
  predicate HasTag(u: U32) {
    Bitwise(Xor, Bitwise(And, u, 0xFF00000F), 0xAA00000A) == 0
  }

  /** The same test read field by field. */
  predicate IsRef(w: Word) {
    ToU32(w) / 0x100_0000 == 0xAA && ToU32(w) % 16 == 0xA
  }

  function RefIndex(w: Word): (i: nat)
    ensures i < MAX_ARRAYS
  {
    (ToU32(w) / 16) % 0x10_0000
  }

  /** The C expression `0xAA00000A | (i << 4)` as an unsigned word. */
  function TagIndex(i: U32): nat {
    Bitwise(Or, 0xAA00000A, (i * 16) % TWO32)
  }

  function IndexRef(i: U32): Word {
    Wrap(TagIndex(i))
  }

  lemma Powers()
    ensures Pow2(4) == 16 && Pow2(8) == 0x100 && Pow2(20) == 0x10_0000 && Pow2(24) == 0x100_0000
  {
  }

  /** The bit tests of the source are the field tests used by the rest of the model. */
  lemma MaskedTag(w: Word)
    ensures HasTag(ToU32(w)) <==> IsRef(w)
    ensures Bitwise(And, 0x00FFFFF0, ToU32(w)) / 16 == RefIndex(w)
  {
    hide Bitwise;
    var u := ToU32(w);
    var high, mid, tag := u / 0x100_0000, (u / 16) % 0x10_0000, u % 16;
    assert u == high * 0x100_0000 + mid * 16 + tag;
    KeepTag(high, mid, tag);
    KeepIndex(high, mid, tag);
    XorIsZero(high * 0x100_0000 + tag, 0xAA00000A);
  }

  lemma KeepTag(high: nat, mid: nat, tag: nat)
    requires high < 0x100 && mid < 0x10_0000 && tag < 16
    ensures Bitwise(And, high * 0x100_0000 + mid * 16 + tag, 0xFF00000F) == high * 0x100_0000 + tag
  {
    Powers();
    hide *;
    Split(And, 24, 0x100_0000, high, mid * 16 + tag, 0xFF, 15);
    Split(And, 4, 16, mid, tag, 0, 15);
    AndZero(mid);
    AndOnes(8, high);
    AndOnes(4, tag);
  }

  lemma KeepIndex(high: nat, mid: nat, tag: nat)
    requires high < 0x100 && mid < 0x10_0000 && tag < 16
    ensures Bitwise(And, 0x00FFFFF0, high * 0x100_0000 + mid * 16 + tag) == mid * 16
  {
    Powers();
    hide *;
    Split(And, 24, 0x100_0000, 0, 0xFFFFF0, high, mid * 16 + tag);
    Split(And, 4, 16, 0xFFFFF, 0, mid, tag);
    ZeroAnd(high);
    ZeroAnd(tag);
    OnesAnd(20, mid);
  }

  lemma OrTag(high: nat, low: nat)
    requires low < 0x10_0000
    ensures Bitwise(Or, 0xAA00000A, (high * 0x10_0000 + low) * 16)
         == Bitwise(Or, 0xAA, high) * 0x100_0000 + low * 16 + 0xA
  {
    Powers();
    hide *;
    Split(Or, 4, 16, 0xAA00000, 0xA, high * 0x10_0000 + low, 0);
    OrZero(0xA);
    Split(Or, 20, 0x10_0000, 0xAA, 0, high, low);
    ZeroOr(low);
  }

  /** The tag a reference built from index `i` ends up with. */
  function TagOf(i: U32): nat {
    Bitwise(Or, 0xAA, (i / 0x10_0000) % 256)
  }

  lemma ShiftedIndex(i: U32)
    ensures (i * 16) % TWO32 == ((i / 0x10_0000) % 256 * 0x10_0000 + i % 0x10_0000) * 16
  {
  }

  lemma TagIndexFields(i: U32)
    ensures TagIndex(i) == TagOf(i) * 0x100_0000 + (i % 0x10_0000) * 16 + 0xA
  {
    hide Bitwise;
    ShiftedIndex(i);
    OrTag((i / 0x10_0000) % 256, i % 0x10_0000);
  }

  lemma WrapFields(tag: nat, index: nat)
    requires tag < 256 && index < 0x10_0000
    ensures var w := Wrap(tag * 0x100_0000 + index * 16 + 0xA);
      (IsRef(w) <==> tag == 0xAA) && RefIndex(w) == index
  {
  }

  lemma IndexRefFields(i: U32, tag: nat)
    requires tag == TagOf(i) < 256
    ensures IsRef(IndexRef(i)) <==> tag == 0xAA
    ensures RefIndex(IndexRef(i)) == i % 0x10_0000
  {
    hide TagIndex, TagOf;
    TagIndexFields(i);
    WrapFields(tag, i % 0x10_0000);
  }

  lemma PlainTag(i: nat)
    requires i < MAX_ARRAYS
    ensures TagOf(i) == 0xAA
  {
    hide Bitwise;
    assert (i / 0x10_0000) % 256 == 0;
    OrZero(0xAA);
  }

  /** On the indices the collector can hold, the two codec directions are inverse. */
  lemma RefRoundTrip(i: nat)
    requires i < MAX_ARRAYS
    ensures IsRef(IndexRef(i)) && RefIndex(IndexRef(i)) == i
  {
    hide TagOf, TagIndex;
    PlainTag(i);
    IndexRefFields(i, 0xAA);
  }

  lemma RefFromIndex(w: Word)
    requires IsRef(w)
    ensures IndexRef(RefIndex(w)) == w
  {
    hide TagOf, TagIndex;
    PlainTag(RefIndex(w));
    TagIndexFields(RefIndex(w));
    assert ToU32(w) == 0xAA * 0x100_0000 + RefIndex(w) * 16 + 0xA;
  }

  lemma LargeTags()
    ensures TagOf(0x10_0000) == 0xAB && TagOf(0x20_0000) == 0xAA && TagOf(0xFFFF_FFFF) == 0xFF
  {
    hide Bitwise;
    OrByte(1, 0, 1, 11);
    OrByte(2, 0, 2, 10);
    OrByte(255, 15, 15, 15);
  }

  lemma OrByte(n: nat, high: nat, low: nat, r: nat)
    requires n == 16 * high + low && (low == 1 || low == 2 || low == 15) && (high == 0 || high == 15)
    requires r == if low == 1 then 11 else if low == 2 then 10 else 15
    ensures Bitwise(Or, 0xAA, n) == (if high == 0 then 0xA0 else 0xF0) + r
  {
    Powers();
    hide *;
    Split(Or, 4, 16, 10, 10, high, low);
    OrBelow16(low);
    if high == 0 { OrZero(10); } else { OrBelow16(15); }
  }

  lemma OrBelow16(n: nat)
    requires n == 1 || n == 2 || n == 15
    ensures Bitwise(Or, 10, n) == if n == 1 then 11 else if n == 2 then 10 else 15
  {
    hide Bitwise;
    Unfold(Or, 10, n);
    Unfold(Or, 5, n / 2);
    Unfold(Or, 2, n / 4);
    Unfold(Or, 1, n / 8);
    OrZero(0);
  }

  /**
   * What the codec does with every index: it comes back exactly when it is below 2^20, and the tag
   * check passes exactly when bits 20 to 27 have no one where 0xAA has a zero.
   */
  lemma CodecIsExact(i: U32)
    ensures RefIndex(IndexRef(i)) == i <==> i < MAX_ARRAYS
    ensures IsRef(IndexRef(i)) <==> Bitwise(Or, 0xAA, (i / 0x10_0000) % 256) == 0xAA
  {
    hide Bitwise, Pow2, IsRef, RefIndex, IndexRef;
    Powers();
    AndOrShare(8, 0xAA, (i / 0x10_0000) % 256);
    IndexRefFields(i, TagOf(i));
  }

  /** The first index past the 20-bit range spoils the tag, but a later one slips through. */
  lemma TagCheckIsPartial()
    ensures !IsRef(IndexRef(0x10_0000)) && !IsRef(IndexRef(0xFFFF_FFFF))
    ensures IsRef(IndexRef(0x20_0000)) && RefIndex(IndexRef(0x20_0000)) == RefIndex(IndexRef(0))
  {
    hide TagOf, TagIndex;
    LargeTags();
    IndexRefFields(0x10_0000, 0xAB);
    IndexRefFields(0x20_0000, 0xAA);
    IndexRefFields(0xFFFF_FFFF, 0xFF);
    RefRoundTrip(0);
  }
}
