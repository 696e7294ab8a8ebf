/**
 * GF28.galoisFieldMultiplication: shift-and-add multiplication of two Java ints
 * read as polynomials over GF(2), reduced by x^8 + x^4 + x^3 + x^2 + 1.
 */
module GF28 {
  import opened GaloisField

  /** The reduction polynomial x^8 + x^4 + x^3 + x^2 + 1. */
  const IRREDUCIBLE: bv32 := 0x11D

  /** The bit of b examined on pass n of the loop: 0x80, 0x40, ..., 0x01, and 0 once the loop ends. */
  function Mask(n: nat): bv32
  {
    match n
    case 0 => 0x80
    case 1 => 0x40
    case 2 => 0x20
    case 3 => 0x10
    case 4 => 0x08
    case 5 => 0x04
    case 6 => 0x02
    case 7 => 0x01
    case _ => 0x00
  }

  /** Shift left by one, then XOR in 0x11D when bit 8 is set: multiplication by x, reduced. */
  function ShiftReduce(result: bv32): bv32
  {
    if (result << 1) & 0x100 != 0 then (result << 1) ^ IRREDUCIBLE else result << 1
  }

  /** One pass of the loop body; `selected` says whether b has the bit of this pass set. */
  function Pass(a: bv32, selected: bool, result: bv32): bv32
  {
    if selected then ShiftReduce(result) ^ a else ShiftReduce(result)
  }

  /** The accumulator after n passes of the loop. */
  function Partial(a: bv32, b: bv32, n: nat): bv32
    requires n <= 8
  {
    if n == 0 then 0 else Pass(a, b & Mask(n - 1) != 0, Partial(a, b, n - 1))
  }

  /** What galoisFieldMultiplication(a, b) returns. */
  function Mul(a: bv32, b: bv32): bv32
  {
    Partial(a, b, 8)
  }

  /** The low byte of a Java int as a field element. */
  function Byte(v: bv32): Element
  {
    Element((v & 0xFF) as bv8)
  }

  /** A field element as a Java int in 0..255. */
  function Widen(x: Element): bv32
  {
    x.bits as bv32
  }

  method ShiftAndAdd(a: bv32, b: bv32, bit: bv32, acc: bv32) returns (result: bv32)
    ensures result == Pass(a, b & bit != 0, acc)
  {
    result := acc << 1;
    if result & 0x100 != 0 {
      result := result ^ IRREDUCIBLE;
    }
    if b & bit != 0 {
      result := result ^ a;
    }
  }

  lemma MaskStep(n: nat)
    requires n <= 8
    ensures Mask(n) > 0 <==> n < 8
    ensures n < 8 ==> Mask(n) >> 1 == Mask(n + 1)
  {
  }

  lemma PartialSucc(a: bv32, b: bv32, n: nat)
    requires n < 8
    ensures Partial(a, b, n + 1) == Pass(a, b & Mask(n) != 0, Partial(a, b, n))
  {
  }

  method GaloisFieldMultiplication(a: bv32, b: bv32) returns (result: bv32)
    ensures result == Mul(a, b)
  {
    result := 0;
    var bit: bv32 := 0x80;
    ghost var n := 0;
    while bit > 0
      invariant 0 <= n <= 8
      invariant bit == Mask(n)
      invariant result == Partial(a, b, n)
      decreases 8 - n
    {
      MaskStep(n);
      PartialSucc(a, b, n);
      result := ShiftAndAdd(a, b, bit, result);
      bit := bit >> 1;
      n := n + 1;
    }
    MaskStep(n);
  }

  // ---- the loop computes field multiplication ----

  lemma PassBridge(a: Element, selected: bool, r: Element)
    ensures Pass(Widen(a), selected, Widen(r)) == Widen(HornerStep(a, selected, r))
  {
  }

  lemma MaskBridge(b: bv32, n: nat)
    requires n < 8
    ensures (b & Mask(n) != 0) == Coefficient(Byte(b), 7 - n)
  {
  }

  lemma {:induction false} PartialIsHorner(a: bv32, b: bv32, n: nat)
    requires a < 0x100
    requires n <= 8
    ensures Partial(a, b, n) == Widen(Horner(Byte(a), Byte(b), n))
  {
    if n > 0 {
      PartialIsHorner(a, b, n - 1);
      MaskBridge(b, n - 1);
      PassBridge(Byte(a), b & Mask(n - 1) != 0, Horner(Byte(a), Byte(b), n - 1));
      assert Widen(Byte(a)) == a;
    }
  }

  // ---- properties that hold for every int argument ----

  lemma MaskLowByte(b: bv32, n: nat)
    requires n < 8
    ensures (b & Mask(n) != 0) == ((b & 0xFF) & Mask(n) != 0)
  {
  }

  lemma {:induction false} PartialLowByte(a: bv32, b: bv32, n: nat)
    requires n <= 8
    ensures Partial(a, b, n) == Partial(a, b & 0xFF, n)
  {
    if n > 0 {
      PartialLowByte(a, b, n - 1);
      MaskLowByte(b, n - 1);
    }
  }

  /** Only the low byte of the multiplier is read, so a sign-extended Java byte gives the same product as its unsigned value. */
  lemma MulLowByte(a: bv32, b: bv32)
    ensures Mul(a, b) == Mul(a, b & 0xFF)
  {
    PartialLowByte(a, b, 8);
  }

  lemma {:induction false} PartialZeroRight(a: bv32, n: nat)
    requires n <= 8
    ensures Partial(a, 0, n) == 0
  {
    if n > 0 {
      PartialZeroRight(a, n - 1);
    }
  }

  lemma MulZeroRight(a: bv32)
    ensures Mul(a, 0) == 0
  {
    PartialZeroRight(a, 8);
  }

  lemma {:induction false} PartialZeroLeft(b: bv32, n: nat)
    requires n <= 8
    ensures Partial(0, b, n) == 0
  {
    if n > 0 {
      PartialZeroLeft(b, n - 1);
    }
  }

  lemma MulZeroLeft(b: bv32)
    ensures Mul(0, b) == 0
  {
    PartialZeroLeft(b, 8);
  }

  lemma {:induction false} PartialOneRight(a: bv32, n: nat)
    requires n <= 7
    ensures Partial(a, 1, n) == 0
  {
    if n > 0 {
      PartialOneRight(a, n - 1);
    }
  }

  /** Multiplying by one returns the multiplicand unchanged, whatever its width. */
  lemma MulOneRight(a: bv32)
    ensures Mul(a, 1) == a
  {
    PartialOneRight(a, 7);
  }

  // ---- facts about the conversions ----

  lemma WidenBound(x: Element)
    ensures Widen(x) < 0x100
  {
  }

  lemma ByteOfWiden(x: Element)
    ensures Byte(Widen(x)) == x
  {
  }

  lemma WidenOfByte(v: bv32)
    ensures Widen(Byte(v)) == v & 0xFF
  {
  }

  lemma BytePlus(u: bv32, v: bv32)
    ensures Byte(u ^ v) == Plus(Byte(u), Byte(v))
  {
  }

  lemma WidenPlus(x: Element, y: Element)
    ensures Widen(Plus(x, y)) == Widen(x) ^ Widen(y)
  {
  }

  lemma WidenTimesX(x: Element)
    ensures Widen(TimesX(x)) == ShiftReduce(Widen(x))
  {
  }

  // ---- properties of galoisFieldMultiplication ----

  /** For a multiplicand in 0..255 the loop computes the field product of a and the low byte of b. */
  lemma MulInField(a: bv32, b: bv32)
    requires a < 0x100
    ensures Mul(a, b) == Widen(Times(Byte(a), Byte(b)))
  {
    PartialIsHorner(a, b, 8);
  }

  lemma MulBound(a: bv32, b: bv32)
    requires a < 0x100
    ensures Mul(a, b) < 0x100
  {
    MulInField(a, b);
    WidenBound(Times(Byte(a), Byte(b)));
  }

  lemma MulOneLeft(b: bv32)
    ensures Mul(1, b) == b & 0xFF
  {
    MulInField(1, b);
    assert Byte(1) == One;
    TimesOneLeft(Byte(b));
    WidenOfByte(b);
  }

  lemma MulByTwo(b: bv32)
    ensures Mul(2, b) == ShiftReduce(b & 0xFF)
  {
    MulInField(2, b);
    assert Byte(2) == Element(2);
    TimesByX(Byte(b));
    WidenTimesX(Byte(b));
    WidenOfByte(b);
  }

  lemma MulCommutative(a: bv32, b: bv32)
    requires a < 0x100 && b < 0x100
    ensures Mul(a, b) == Mul(b, a)
  {
    MulInField(a, b);
    MulInField(b, a);
    TimesCommutative(Byte(a), Byte(b));
  }

  lemma TimesBytePlusLeft(a: bv32, a': bv32, b: bv32)
    ensures Times(Byte(a ^ a'), Byte(b)) == Plus(Times(Byte(a), Byte(b)), Times(Byte(a'), Byte(b)))
  {
    BytePlus(a, a');
    HornerLinearLeft(Byte(a), Byte(a'), Byte(b), 8);
  }

  lemma TimesBytePlusRight(a: bv32, b: bv32, c: bv32)
    ensures Times(Byte(a), Byte(b ^ c)) == Plus(Times(Byte(a), Byte(b)), Times(Byte(a), Byte(c)))
  {
    BytePlus(b, c);
    TimesDistributive(Byte(a), Byte(b), Byte(c));
  }

  lemma MulLinearLeft(a: bv32, a': bv32, b: bv32)
    requires a < 0x100 && a' < 0x100
    ensures Mul(a ^ a', b) == Mul(a, b) ^ Mul(a', b)
  {
    var p, q := Times(Byte(a), Byte(b)), Times(Byte(a'), Byte(b));
    MulInField(a, b);
    MulInField(a', b);
    MulInField(a ^ a', b);
    TimesBytePlusLeft(a, a', b);
    assert Mul(a ^ a', b) == Widen(Plus(p, q));
    WidenPlus(p, q);
  }

  lemma MulLinearRight(a: bv32, b: bv32, c: bv32)
    requires a < 0x100
    ensures Mul(a, b ^ c) == Mul(a, b) ^ Mul(a, c)
  {
    var p, q := Times(Byte(a), Byte(b)), Times(Byte(a), Byte(c));
    MulInField(a, b);
    MulInField(a, c);
    MulInField(a, b ^ c);
    TimesBytePlusRight(a, b, c);
    assert Mul(a, b ^ c) == Widen(Plus(p, q));
    WidenPlus(p, q);
  }

  lemma MulAssociative(a: bv32, b: bv32, c: bv32)
    requires a < 0x100 && b < 0x100
    ensures Mul(Mul(a, b), c) == Mul(a, Mul(b, c))
  {
    MulInField(a, b);
    MulBound(a, b);
    MulInField(Mul(a, b), c);
    ByteOfWiden(Times(Byte(a), Byte(b)));
    MulInField(b, c);
    MulInField(a, Mul(b, c));
    ByteOfWiden(Times(Byte(b), Byte(c)));
    TimesAssociative(Byte(a), Byte(b), Byte(c));
  }

  /** For bytes, the result is the schoolbook polynomial product reduced modulo the irreducible polynomial. */
  lemma MulIsPolyProduct(a: bv32, b: bv32)
    requires a < 0x100
    ensures Mul(a, b) == Widen(PolyProduct(Byte(a), Byte(b), 8))
  {
    MulInField(a, b);
    TimesIsPolyProduct(Byte(a), Byte(b));
  }
}
