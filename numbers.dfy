/** Single-precision values as the guide-tree core compares them. Only the
    ordering matters to the core: a finite value, the NaN that a division
    0.0f / 0 leaves behind, and FLT_MAX, which the core only ever uses as a
    start value above every score and every distance. */
module Numbers {

  datatype Float = Num(value: real) | NaN | FltMax

  /** C's `<` on floats: false as soon as a NaN is involved; every finite value
      lies below the FLT_MAX sentinel. */
  predicate Less(a: Float, b: Float)
  {
    match (a, b)
    case (Num(x), Num(y)) => x < y
    case (Num(_), FltMax) => true
    case _ => false
  }

  /** MACRO_MIN(a, b), which picks `a` when `a < b` and `b` otherwise. */
  function Min(a: Float, b: Float): (r: Float)
    ensures a.Num? && b.Num? ==> r.Num? && r.value <= a.value && r.value <= b.value
    ensures r == a || r == b
  {
    if Less(a, b) then a else b
  }

  /** Float addition: NaN as soon as one operand is not a finite value. */
  function Plus(a: Float, b: Float): (r: Float)
    ensures r.Num? <==> a.Num? && b.Num?
  {
    if a.Num? && b.Num? then Num(a.value + b.value) else NaN
  }

  function Abs(x: real): (r: real)
    ensures r >= 0.0 && (r == x || r == -x)
  {
    if x < 0.0 then -x else x
  }

  /** On values other than NaN, Less is a strict weak order. */
  lemma LessOrder(a: Float, b: Float, c: Float)
    requires !a.NaN? && !b.NaN? && !c.NaN?
    ensures Less(a, b) ==> !Less(b, a)
    ensures Less(a, b) && Less(b, c) ==> Less(a, c)
    ensures !Less(a, b) && !Less(b, c) ==> !Less(a, c)
  {
  }
}
