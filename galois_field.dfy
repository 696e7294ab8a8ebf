/**
 * The field GF(2^8) as polynomials over GF(2) reduced modulo X^8 + X^4 + X^3 + X^2 + 1.
 */
module GaloisField {
  /** A polynomial of degree below 8 over GF(2); bit j holds the coefficient of X^j. */
  datatype Element = Element(bits: bv8)

  const Zero := Element(0)
  const One := Element(1)

  /** The bit of X^j. */
  function Monomial(j: nat): bv8
    requires j < 8
  {
    match j
    case 0 => 0x01
    case 1 => 0x02
    case 2 => 0x04
    case 3 => 0x08
    case 4 => 0x10
    case 5 => 0x20
    case 6 => 0x40
    case _ => 0x80
  }

  /** The coefficient of X^j in x. */
  function Coefficient(x: Element, j: nat): bool
    requires j < 8
  {
    x.bits & Monomial(j) != 0
  }

  /** Addition of polynomials over GF(2). */
  function Plus(x: Element, y: Element): Element
  {
    Element(x.bits ^ y.bits)
  }

  /** x * X: a left shift, with X^8 replaced by X^4 + X^3 + X^2 + 1 when it appears. */
  function TimesX(x: Element): Element
  {
    Element((x.bits << 1) ^ (0x1D & (0 - (x.bits >> 7))))
  }

  /** One Horner step of multiplication: r * X, plus x when the coefficient tested is set. */
  function HornerStep(x: Element, selected: bool, r: Element): Element
  {
    if selected then Plus(TimesX(r), x) else TimesX(r)
  }

  /** The product of x with the n highest coefficients of y, highest first. */
  function Horner(x: Element, y: Element, n: nat): Element
    requires n <= 8
  {
    if n == 0 then Zero else HornerStep(x, Coefficient(y, 8 - n), Horner(x, y, n - 1))
  }

  function Times(x: Element, y: Element): Element
  {
    Horner(x, y, 8)
  }

  // ---- facts about single operations ----

  lemma TimesXLinear(x: Element, y: Element)
    ensures TimesX(Plus(x, y)) == Plus(TimesX(x), TimesX(y))
  {
  }

  lemma TimesXZero()
    ensures TimesX(Zero) == Zero
  {
  }

  lemma PlusZero(x: Element)
    ensures Plus(x, Zero) == x && Plus(Zero, x) == x
  {
  }

  lemma PlusSwap(a: Element, b: Element, c: Element, d: Element)
    ensures Plus(Plus(a, b), Plus(c, d)) == Plus(Plus(a, c), Plus(b, d))
  {
  }

  lemma StepLinearLeft(x: Element, x': Element, s: bool, r: Element, r': Element)
    ensures HornerStep(Plus(x, x'), s, Plus(r, r')) == Plus(HornerStep(x, s, r), HornerStep(x', s, r'))
  {
    TimesXLinear(r, r');
    if s {
      PlusSwap(TimesX(r), TimesX(r'), x, x');
    }
  }

  lemma StepTimesXLeft(x: Element, s: bool, r: Element)
    ensures HornerStep(TimesX(x), s, TimesX(r)) == TimesX(HornerStep(x, s, r))
  {
    if s {
      TimesXLinear(TimesX(r), x);
    }
  }

  lemma StepZeroLeft(s: bool)
    ensures HornerStep(Zero, s, Zero) == Zero
  {
    TimesXZero();
    PlusZero(Zero);
  }

  // ---- Horner multiplication in its left argument ----

  lemma {:induction false} HornerZeroLeft(y: Element, n: nat)
    requires n <= 8
    ensures Horner(Zero, y, n) == Zero
  {
    if n > 0 {
      HornerZeroLeft(y, n - 1);
      StepZeroLeft(Coefficient(y, 8 - n));
    }
  }

  lemma {:induction false} HornerLinearLeft(x: Element, x': Element, y: Element, n: nat)
    requires n <= 8
    ensures Horner(Plus(x, x'), y, n) == Plus(Horner(x, y, n), Horner(x', y, n))
  {
    if n > 0 {
      HornerLinearLeft(x, x', y, n - 1);
      StepLinearLeft(x, x', Coefficient(y, 8 - n), Horner(x, y, n - 1), Horner(x', y, n - 1));
    } else {
      PlusZero(Zero);
    }
  }

  lemma {:induction false} HornerTimesXLeft(x: Element, y: Element, n: nat)
    requires n <= 8
    ensures Horner(TimesX(x), y, n) == TimesX(Horner(x, y, n))
  {
    if n > 0 {
      HornerTimesXLeft(x, y, n - 1);
      StepTimesXLeft(x, Coefficient(y, 8 - n), Horner(x, y, n - 1));
    } else {
      TimesXZero();
    }
  }

  /** The n highest coefficients of y, moved down to degrees below n. */
  function High(y: Element, n: nat): Element
    requires n <= 8
  {
    match n
    case 0 => Zero
    case 1 => Element(y.bits >> 7)
    case 2 => Element(y.bits >> 6)
    case 3 => Element(y.bits >> 5)
    case 4 => Element(y.bits >> 4)
    case 5 => Element(y.bits >> 3)
    case 6 => Element(y.bits >> 2)
    case 7 => Element(y.bits >> 1)
    case _ => y
  }

  lemma HighStepLow(y: Element, n: nat)
    requires n < 4
    ensures HornerStep(One, Coefficient(y, 7 - n), High(y, n)) == High(y, n + 1)
  {
  }

  lemma HighStepHigh(y: Element, n: nat)
    requires 4 <= n < 8
    ensures HornerStep(One, Coefficient(y, 7 - n), High(y, n)) == High(y, n + 1)
  {
  }

  lemma HighStep(y: Element, n: nat)
    requires n < 8
    ensures HornerStep(One, Coefficient(y, 7 - n), High(y, n)) == High(y, n + 1)
  {
    if n < 4 {
      HighStepLow(y, n);
    } else {
      HighStepHigh(y, n);
    }
  }

  lemma {:induction false} HornerOneLeft(y: Element, n: nat)
    requires n <= 8
    ensures Horner(One, y, n) == High(y, n)
  {
    if n > 0 {
      HornerOneLeft(y, n - 1);
      HighStep(y, n - 1);
    }
  }

  lemma TimesOneLeft(y: Element)
    ensures Times(One, y) == y
  {
    HornerOneLeft(y, 8);
  }

  lemma {:induction false} CommuteFrom(x: Element, y: Element, n: nat)
    requires n <= 8
    ensures Times(Horner(One, x, n), y) == Horner(y, x, n)
  {
    if n == 0 {
      HornerZeroLeft(y, 8);
    } else {
      CommuteFrom(x, y, n - 1);
      var t := Horner(One, x, n - 1);
      HornerTimesXLeft(t, y, 8);
      if Coefficient(x, 8 - n) {
        HornerLinearLeft(TimesX(t), One, y, 8);
        TimesOneLeft(y);
      }
    }
  }

  lemma TimesCommutative(x: Element, y: Element)
    ensures Times(x, y) == Times(y, x)
  {
    CommuteFrom(x, y, 8);
    TimesOneLeft(x);
  }

  lemma AssociateTimesX(t: Element, y: Element, z: Element)
    requires Times(Times(t, y), z) == Times(t, Times(y, z))
    ensures Times(Times(TimesX(t), y), z) == Times(TimesX(t), Times(y, z))
  {
    HornerTimesXLeft(t, y, 8);
    HornerTimesXLeft(Times(t, y), z, 8);
    HornerTimesXLeft(t, Times(y, z), 8);
  }

  lemma AssociatePlusOne(t: Element, y: Element, z: Element)
    requires Times(Times(t, y), z) == Times(t, Times(y, z))
    ensures Times(Times(Plus(t, One), y), z) == Times(Plus(t, One), Times(y, z))
  {
    HornerLinearLeft(t, One, y, 8);
    TimesOneLeft(y);
    HornerLinearLeft(Times(t, y), y, z, 8);
    HornerLinearLeft(t, One, Times(y, z), 8);
    TimesOneLeft(Times(y, z));
  }

  lemma {:induction false} AssociateFrom(x: Element, y: Element, z: Element, n: nat)
    requires n <= 8
    ensures Times(Times(Horner(One, x, n), y), z) == Times(Horner(One, x, n), Times(y, z))
  {
    if n == 0 {
      HornerZeroLeft(y, 8);
      HornerZeroLeft(z, 8);
      HornerZeroLeft(Times(y, z), 8);
    } else {
      AssociateFrom(x, y, z, n - 1);
      var t := Horner(One, x, n - 1);
      AssociateTimesX(t, y, z);
      if Coefficient(x, 8 - n) {
        AssociatePlusOne(TimesX(t), y, z);
      }
    }
  }

  lemma TimesAssociative(x: Element, y: Element, z: Element)
    ensures Times(Times(x, y), z) == Times(x, Times(y, z))
  {
    AssociateFrom(x, y, z, 8);
    TimesOneLeft(x);
  }

  lemma TimesDistributive(x: Element, y: Element, z: Element)
    ensures Times(x, Plus(y, z)) == Plus(Times(x, y), Times(x, z))
  {
    TimesCommutative(x, Plus(y, z));
    HornerLinearLeft(y, z, x, 8);
    TimesCommutative(x, y);
    TimesCommutative(x, z);
  }

  lemma TimesZero(x: Element)
    ensures Times(Zero, x) == Zero && Times(x, Zero) == Zero
  {
    HornerZeroLeft(x, 8);
    TimesCommutative(x, Zero);
  }

  lemma TimesByX(y: Element)
    ensures Times(Element(2), y) == TimesX(y)
  {
    assert Element(2) == TimesX(One);
    HornerTimesXLeft(One, y, 8);
    TimesOneLeft(y);
  }

  /** x * X^k. */
  function XPower(x: Element, k: nat): Element
  {
    if k == 0 then x else TimesX(XPower(x, k - 1))
  }

  /** The schoolbook product: the sum of x * X^j over the coefficients j < n that are set in y. */
  function PolyProduct(x: Element, y: Element, n: nat): Element
    requires n <= 8
  {
    if n == 0 then Zero
    else Plus(PolyProduct(x, y, n - 1), if Coefficient(y, n - 1) then XPower(x, n - 1) else Zero)
  }

  function LowMask(n: nat): bv8
    requires n <= 8
  {
    match n
    case 0 => 0x00
    case 1 => 0x01
    case 2 => 0x03
    case 3 => 0x07
    case 4 => 0x0F
    case 5 => 0x1F
    case 6 => 0x3F
    case 7 => 0x7F
    case _ => 0xFF
  }

  /** The terms of y of degree below n. */
  function Low(y: Element, n: nat): Element
    requires n <= 8
  {
    Element(y.bits & LowMask(n))
  }

  lemma LowAll(y: Element)
    ensures Low(y, 8) == y
  {
    assert y.bits & 0xFF == y.bits;
  }

  lemma LowStep(y: Element, n: nat)
    requires n < 8
    ensures Low(y, n + 1) == Plus(Low(y, n), if Coefficient(y, n) then Element(Monomial(n)) else Zero)
  {
  }

  lemma MonomialStep(j: nat)
    requires j < 7
    ensures Element(Monomial(j + 1)) == TimesX(Element(Monomial(j)))
  {
  }

  lemma {:induction false} MonomialPower(j: nat)
    requires j < 8
    ensures Element(Monomial(j)) == XPower(One, j)
  {
    if j > 0 {
      MonomialPower(j - 1);
      MonomialStep(j - 1);
    }
  }

  lemma {:induction false} TimesXPowerLeft(x: Element, y: Element, k: nat)
    ensures Times(XPower(x, k), y) == XPower(Times(x, y), k)
  {
    if k > 0 {
      TimesXPowerLeft(x, y, k - 1);
      HornerTimesXLeft(XPower(x, k - 1), y, 8);
    }
  }

  lemma TimesMonomial(x: Element, j: nat)
    requires j < 8
    ensures Times(x, Element(Monomial(j))) == XPower(x, j)
  {
    MonomialPower(j);
    TimesCommutative(x, XPower(One, j));
    TimesXPowerLeft(One, x, j);
    TimesOneLeft(x);
  }

  lemma {:induction false} ProductFrom(x: Element, y: Element, n: nat)
    requires n <= 8
    ensures Times(x, Low(y, n)) == PolyProduct(x, y, n)
  {
    if n == 0 {
      TimesZero(x);
    } else {
      ProductFrom(x, y, n - 1);
      LowStep(y, n - 1);
      if Coefficient(y, n - 1) {
        TimesDistributive(x, Low(y, n - 1), Element(Monomial(n - 1)));
        TimesMonomial(x, n - 1);
      } else {
        TimesDistributive(x, Low(y, n - 1), Zero);
        TimesZero(x);
      }
    }
  }

  lemma TimesIsPolyProduct(x: Element, y: Element)
    ensures Times(x, y) == PolyProduct(x, y, 8)
  {
    ProductFrom(x, y, 8);
    LowAll(y);
  }
}
