/** The BCMath calls the money operations delegate to. Each computes the
    exact result from the full operands and then keeps `scale` fractional
    digits, cutting the rest off toward zero; none of them rounds. */
module BcMath {
  import opened Decimals

  // Field facts about reals, stated on plain variables so that the solver
  // meets them without the surrounding definitions.

  lemma CastMul(x: int, y: int)
    ensures (x * y) as real == x as real * y as real
  {
  }

  lemma SumOver(x: real, y: real, e: real)
    requires e != 0.0
    ensures (x + y) / e == x / e + y / e
  {
  }

  lemma DifferenceOver(x: real, y: real, e: real)
    requires e != 0.0
    ensures (x - y) / e == x / e - y / e
  {
  }

  lemma ProductOfFractions(au: int, bu: int, ea: int, eb: int, e: int)
    requires ea > 0 && eb > 0 && e == ea * eb
    ensures (au * bu) as real / e as real == (au as real / ea as real) * (bu as real / eb as real)
  {
    CastMul(au, bu);
    CastMul(ea, eb);
  }



  lemma QuotientOfFractions(va: real, vb: real, au: int, bu: int, ea: int, eb: int, es: int, e: int)
    requires ea > 0 && eb > 0 && es > 0 && bu != 0 && e == eb * es
    requires va == au as real / ea as real && vb == bu as real / eb as real
    ensures vb != 0.0 && (va / vb) * es as real == (au * e) as real / (bu * ea) as real
  {
    CastMul(eb, es);
    CastMul(au, e);
    CastMul(bu, ea);
  }

  lemma Cancel(u: int, k: int, e: int, ek: int)
    requires e > 0 && k > 0 && ek == e * k
    ensures (u * k) as real / ek as real == u as real / e as real
  {
    CastMul(u, k);
    CastMul(e, k);
  }

  lemma ScaleUp(units: int, scale: nat, to: nat)
    requires scale <= to
    ensures Value(Decimal(units * Pow10(to - scale), to)) == Value(Decimal(units, scale))
  {
    Pow10Add(scale, to - scale);
    ValueAsRatio(Decimal(units * Pow10(to - scale), to));
    ValueAsRatio(Decimal(units, scale));
    Cancel(units, Pow10(to - scale), Pow10(scale), Pow10(to));
  }

  /** Both operands written at the larger of their scales. */
  function Aligned(a: Decimal, b: Decimal): (r: (int, int, nat))
    ensures r.2 == if a.scale <= b.scale then b.scale else a.scale
    ensures Value(a) == Value(Decimal(r.0, r.2)) && Value(b) == Value(Decimal(r.1, r.2))
  {
    var s := if a.scale <= b.scale then b.scale else a.scale;
    ScaleUp(a.units, a.scale, s);
    ScaleUp(b.units, b.scale, s);
    (a.units * Pow10(s - a.scale), b.units * Pow10(s - b.scale), s)
  }

  /** The exact sum of two amounts. */
  function ExactSum(a: Decimal, b: Decimal): (r: Decimal)
    ensures Value(r) == Value(a) + Value(b)
  {
    var (x, y, s) := Aligned(a, b);
    ValueAsRatio(Decimal(x, s));
    ValueAsRatio(Decimal(y, s));
    ValueAsRatio(Decimal(x + y, s));
    SumOver(x as real, y as real, Pow10(s) as real);
    Decimal(x + y, s)
  }

  /** The exact difference of two amounts. */
  function ExactDifference(a: Decimal, b: Decimal): (r: Decimal)
    ensures Value(r) == Value(a) - Value(b)
  {
    var (x, y, s) := Aligned(a, b);
    ValueAsRatio(Decimal(x, s));
    ValueAsRatio(Decimal(y, s));
    ValueAsRatio(Decimal(x - y, s));
    DifferenceOver(x as real, y as real, Pow10(s) as real);
    Decimal(x - y, s)
  }

  /** The exact product of two amounts: its scale is the sum of theirs. */
  function ExactProduct(a: Decimal, b: Decimal): (r: Decimal)
    ensures Value(r) == Value(a) * Value(b)
  {
    ProductValue(a, b);
    Decimal(a.units * b.units, a.scale + b.scale)
  }

  lemma ProductValue(a: Decimal, b: Decimal)
    ensures Value(Decimal(a.units * b.units, a.scale + b.scale)) == Value(a) * Value(b)
  {
    var ea, eb := Pow10(a.scale), Pow10(b.scale);
    Pow10Add(a.scale, b.scale);
    ValueAsRatio(a);
    ValueAsRatio(b);
    ValueAsRatio(Decimal(a.units * b.units, a.scale + b.scale));
    ProductOfFractions(a.units, b.units, ea, eb, Pow10(a.scale + b.scale));
    EqualProducts(Value(a), a.units as real / ea as real, Value(b), b.units as real / eb as real);
  }

  /** bcadd(a, b, scale): the exact sum cut to scale digits. */
  function Add(a: Decimal, b: Decimal, scale: nat): (r: int)
    ensures r == TruncReal(Value(a) + Value(b), scale)
  {
    Trunc(ExactSum(a, b), scale)
  }

  /** bcsub(a, b, scale): the exact difference cut to scale digits. */
  function Sub(a: Decimal, b: Decimal, scale: nat): (r: int)
    ensures r == TruncReal(Value(a) - Value(b), scale)
  {
    Trunc(ExactDifference(a, b), scale)
  }

  /** bcmul(a, b, scale): the full product, cut once to scale digits. */
  function Mul(a: Decimal, b: Decimal, scale: nat): (r: int)
    ensures r == TruncReal(Value(a) * Value(b), scale)
  {
    MulCut(a, b, scale);
    Trunc(ExactProduct(a, b), scale)
  }

  lemma MulCut(a: Decimal, b: Decimal, scale: nat)
    ensures Trunc(ExactProduct(a, b), scale) == TruncReal(Value(a) * Value(b), scale)
  {
    var m := ExactProduct(a, b);
    TruncOfEqual(Trunc(m, scale), Value(m), Value(a) * Value(b), scale);
  }

  /** bcdiv(a, b, scale): the exact quotient cut to scale digits. */
  function Div(a: Decimal, b: Decimal, scale: nat): (r: int)
    requires b.units != 0
    ensures r == TruncReal(Value(a) / Value(b), scale)
  {
    var n, d := a.units * Pow10(b.scale + scale), b.units * Pow10(a.scale);
    QuotientScaled(a, b, scale);
    TruncQuot(n, d)
  }

  lemma QuotientScaled(a: Decimal, b: Decimal, scale: nat)
    requires b.units != 0
    ensures var n, d := a.units * Pow10(b.scale + scale), b.units * Pow10(a.scale);
      d != 0 && TruncReal(Value(a) / Value(b), scale) == TruncUnits(n as real / d as real)
  {
    var n, d := a.units * Pow10(b.scale + scale), b.units * Pow10(a.scale);
    Pow10Add(b.scale, scale);
    ValueAsRatio(a);
    ValueAsRatio(b);
    QuotientOfFractions(Value(a), Value(b), a.units, b.units, Pow10(a.scale), Pow10(b.scale), Pow10(scale), Pow10(b.scale + scale));
    TruncShifted(Value(a) / Value(b), scale, n as real / d as real);
  }

  /** Swapping the operands of a subtraction negates the cut result, since
      cutting toward zero is symmetric about zero. */
  lemma SubSwapped(a: Decimal, b: Decimal, scale: nat)
    ensures Sub(b, a, scale) == -Sub(a, b, scale)
  {
    var d := Value(a) - Value(b);
    TruncNegated(d, scale);
    TruncOfEqual(Sub(b, a, scale), Value(b) - Value(a), -d, scale);
  }

  /** Adding zero only cuts the amount. */
  lemma AddZero(x: Decimal, scale: nat)
    ensures Add(x, Decimal(0, 0), scale) == Trunc(x, scale)
  {
    var z := Decimal(0, 0);
    assert Value(z) == 0.0;
    TruncOfEqual(Add(x, z, scale), Value(x) + Value(z), Value(x), scale);
  }

  /** Multiplying by one only cuts the amount. */
  lemma MulOne(x: Decimal, scale: nat)
    ensures Mul(x, Decimal(1, 0), scale) == Trunc(x, scale)
  {
    var one := Decimal(1, 0);
    assert Value(one) == 1.0;
    TruncOfEqual(Mul(x, one, scale), Value(x) * Value(one), Value(x), scale);
  }

  /** bccomp(a, b, scale): compares the operands cut to scale digits. */
  function Comp(a: Decimal, b: Decimal, scale: nat): (r: int)
    ensures -1 <= r <= 1
    ensures r == 0 <==> TruncReal(Value(a), scale) == TruncReal(Value(b), scale)
    ensures r < 0 <==> TruncReal(Value(a), scale) < TruncReal(Value(b), scale)
  {
    var x, y := Trunc(a, scale), Trunc(b, scale);
    if x < y then -1 else if x == y then 0 else 1
  }
}
