// An element of a sparse label vector: a label (the index) and its value.
// Labels are 32-bit unsigned integers; values are doubles, modelled as reals.

module Elements {

  /** An unsigned 32-bit label. */
  type Label = x: int | 0 <= x < 0x1_0000_0000

  /** The largest label, reserved as the terminator of element buffers. */
  const END_LABEL: Label := 0xFFFF_FFFF

  datatype Element = Element(l: Label, v: real)

  /** The terminator written after the elements of a vector in a flat buffer. */
  const END_ELEMENT: Element := Element(END_LABEL, 0.0)

  /** Only the label is looked at: any element carrying the largest label ends a buffer. */
  predicate IsEnd(e: Element)
  {
    e.l == END_ELEMENT.l
  }

  /** a + b, for two elements of the same label. */
  function Plus(a: Element, b: Element): (r: Element)
    requires a.l == b.l
  {
    Element(a.l, a.v + b.v)
  }

  /** a - b, for two elements of the same label. */
  function Minus(a: Element, b: Element): (r: Element)
    requires a.l == b.l
  {
    Element(a.l, a.v - b.v)
  }

  /** C * a: scales the value and keeps the label. */
  function Times(a: Element, C: real): (r: Element)
  {
    Element(a.l, a.v * C)
  }

  /** Fused multiply-add C * a + b, for two elements of the same label (exact over the reals). */
  function Fma(a: Element, C: real, b: Element): (r: Element)
    requires a.l == b.l
  {
    Element(a.l, a.v * C + b.v)
  }

  // Compound assignments. An element is a value, so `e op= x` is modelled as `e := OpAssign(e, x)`.

  function PlusAssign(e: Element, rhs: real): (r: Element)
  {
    e.(v := e.v + rhs)
  }

  function PlusAssignElement(e: Element, rhs: Element): (r: Element)
    requires e.l == rhs.l
  {
    PlusAssign(e, rhs.v)
  }

  function MinusAssign(e: Element, rhs: real): (r: Element)
  {
    e.(v := e.v - rhs)
  }

  function MinusAssignElement(e: Element, rhs: Element): (r: Element)
    requires e.l == rhs.l
  {
    MinusAssign(e, rhs.v)
  }

  function TimesAssign(e: Element, rhs: real): (r: Element)
  {
    e.(v := e.v * rhs)
  }

  /** Division by zero yields an infinity in the source; over the reals it is excluded. */
  function DivideAssign(e: Element, rhs: real): (r: Element)
    requires rhs != 0.0
  {
    e.(v := e.v / rhs)
  }

  /** The fused multiply-add is the sum of the scaled left operand and the right operand. */
  lemma FmaIsTimesPlus(a: Element, C: real, b: Element)
    requires a.l == b.l
    ensures Fma(a, C, b) == Plus(Times(a, C), b)
  {
  }

  /** Subtraction undoes addition, and both keep the common label. */
  lemma PlusMinusInverse(a: Element, b: Element)
    requires a.l == b.l
    ensures Plus(a, b).l == a.l && Minus(Plus(a, b), b) == a
  {
  }

  /**
   * Every compound assignment changes the value only: the label survives, and the
   * element-valued forms agree with the corresponding binary operators.
   */
  lemma CompoundAssignmentsKeepLabel(e: Element, x: real, b: Element)
    requires e.l == b.l
    ensures PlusAssign(e, x).l == e.l && MinusAssign(e, x).l == e.l && TimesAssign(e, x).l == e.l
    ensures x != 0.0 ==> DivideAssign(e, x).l == e.l && TimesAssign(DivideAssign(e, x), x) == e
    ensures PlusAssignElement(e, b) == Plus(e, b)
    ensures MinusAssignElement(e, b) == Minus(e, b)
    ensures TimesAssign(e, x) == Times(e, x)
  {
  }

  /** An element ends a buffer exactly when its label is the largest label, whatever its value. */
  lemma IsEndOnlyLabel(e: Element)
    ensures IsEnd(e) <==> e == END_ELEMENT.(v := e.v)
    ensures IsEnd(END_ELEMENT)
  {
  }
}
