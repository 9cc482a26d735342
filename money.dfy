/** The money operations of the calculator, as functions of the operand
    texts and the current precision. Every binary operation validates both
    operands before it computes anything; division and modulus then refuse a
    divisor that is zero once cut to the precision. The results are the
    texts BCMath writes: exactly `precision` fractional digits, cut toward
    zero from the exact result. */
module Money {
  import opened Decimals
  import BcMath

  /** The two ways an operation fails; both are raised as an invalid-argument
      error in the calculator, with different messages. */
  datatype MoneyError = InvalidAmount | ZeroDivisor

  datatype Result<+T> = Ok(value: T) | Err(error: MoneyError)

  datatype Outcome = Pass | Fail(error: MoneyError)

  /** A valid amount is a plain decimal: an optional sign, digits and at
      most one point. */
  predicate IsValidMoney(value: string)
    ensures IsValidMoney(value) <==> IsPlainDecimal(value)
  {
    Parse(value).Some?
  }

  /** The amount a valid text denotes; its exact value is Value(Operand(t)). */
  function Operand(value: string): Decimal
    requires IsValidMoney(value)
  {
    Parse(value).value
  }

  /** The text an operation returns for an exact result x: x cut toward
      zero to p fractional digits, written with exactly p of them. */
  ghost predicate IsResultText(text: string, x: real, p: nat)
  {
    text == Render(TruncReal(x, p), p)
  }

  function ValidateInput(a: string, b: string): (r: Outcome)
    ensures r.Pass? <==> IsPlainDecimal(a) && IsPlainDecimal(b)
    ensures r.Fail? ==> r.error == InvalidAmount
  {
    if !IsValidMoney(a) || !IsValidMoney(b) then Fail(InvalidAmount) else Pass
  }

  function AddMoney(a: string, b: string, precision: nat): (r: Result<string>)
    ensures r.Ok? <==> IsValidMoney(a) && IsValidMoney(b)
    ensures r.Err? ==> r.error == InvalidAmount
    ensures r.Ok? ==> IsResultText(r.value, Value(Operand(a)) + Value(Operand(b)), precision)
  {
    match ValidateInput(a, b)
    case Fail(e) => Err(e)
    case Pass =>
      Ok(Render(BcMath.Add(Operand(a), Operand(b), precision), precision))
  }

  function SubtractMoney(a: string, b: string, precision: nat): (r: Result<string>)
    ensures r.Ok? <==> IsValidMoney(a) && IsValidMoney(b)
    ensures r.Err? ==> r.error == InvalidAmount
    ensures r.Ok? ==> IsResultText(r.value, Value(Operand(a)) - Value(Operand(b)), precision)
  {
    match ValidateInput(a, b)
    case Fail(e) => Err(e)
    case Pass =>
      Ok(Render(BcMath.Sub(Operand(a), Operand(b), precision), precision))
  }

  function MultiplyMoney(a: string, b: string, precision: nat): (r: Result<string>)
    ensures r.Ok? <==> IsValidMoney(a) && IsValidMoney(b)
    ensures r.Err? ==> r.error == InvalidAmount
    ensures r.Ok? ==> IsResultText(r.value, Value(Operand(a)) * Value(Operand(b)), precision)
  {
    match ValidateInput(a, b)
    case Fail(e) => Err(e)
    case Pass =>
      Ok(Render(BcMath.Mul(Operand(a), Operand(b), precision), precision))
  }

  /** The literal '0' the divisor is compared with. */
  const Zero := Decimal(0, 0)

  /** The divisor guard: bccomp(b, '0', precision) == 0. */
  function IsZeroAt(b: Decimal, precision: nat): (z: bool)
    ensures z <==> TruncReal(Value(b), precision) == 0
    ensures !z ==> b.units != 0
  {
    BcMath.Comp(b, Zero, precision) == 0
  }

  function DivideMoney(a: string, b: string, precision: nat): (r: Result<string>)
    ensures r == Err(InvalidAmount) <==> !IsValidMoney(a) || !IsValidMoney(b)
    ensures r == Err(ZeroDivisor) <==> IsValidMoney(a) && IsValidMoney(b) && TruncReal(Value(Operand(b)), precision) == 0
    ensures r.Ok? ==> Value(Operand(b)) != 0.0 && IsResultText(r.value, Value(Operand(a)) / Value(Operand(b)), precision)
  {
    match ValidateInput(a, b)
    case Fail(e) => Err(e)
    case Pass =>
      if IsZeroAt(Operand(b), precision) then Err(ZeroDivisor)
      else Ok(Render(BcMath.Div(Operand(a), Operand(b), precision), precision))
  }

  /** The remainder itself comes from `bcmod`, which is called on the
      operand texts without a scale; it is passed in. */
  function ModulusMoney(a: string, b: string, precision: nat, bcmod: (string, string) -> string): (r: Result<string>)
    ensures r == Err(InvalidAmount) <==> !IsValidMoney(a) || !IsValidMoney(b)
    ensures r == Err(ZeroDivisor) <==> IsValidMoney(a) && IsValidMoney(b) && TruncReal(Value(Operand(b)), precision) == 0
    ensures r.Ok? ==> r.value == bcmod(a, b)
  {
    match ValidateInput(a, b)
    case Fail(e) => Err(e)
    case Pass =>
      if IsZeroAt(Operand(b), precision) then Err(ZeroDivisor) else Ok(bcmod(a, b))
  }

  function CompareMoney(a: string, b: string, precision: nat): (r: Result<int>)
    ensures r.Ok? <==> IsValidMoney(a) && IsValidMoney(b)
    ensures r.Err? ==> r.error == InvalidAmount
    ensures r.Ok? ==> -1 <= r.value <= 1
    ensures r.Ok? ==> (r.value == 0 <==> TruncReal(Value(Operand(a)), precision) == TruncReal(Value(Operand(b)), precision))
    ensures r.Ok? ==> (r.value < 0 <==> TruncReal(Value(Operand(a)), precision) < TruncReal(Value(Operand(b)), precision))
  {
    match ValidateInput(a, b)
    case Fail(e) => Err(e)
    case Pass => Ok(BcMath.Comp(Operand(a), Operand(b), precision))
  }

  /** Only the validation is modelled: the formatting goes through a
      binary float and is passed in. */
  function RoundMoney(value: string, precision: nat, formatFloat: (string, nat) -> string): (r: Result<string>)
    ensures r.Ok? <==> IsValidMoney(value)
    ensures r.Err? ==> r.error == InvalidAmount
    ensures r.Ok? ==> r.value == formatFloat(value, precision)
  {
    if !IsValidMoney(value) then Err(InvalidAmount) else Ok(formatFloat(value, precision))
  }

  // Properties of the operations

  /** Whatever the operation, an invalid operand fails it with an
      invalid-amount error before anything is computed. */
  lemma InvalidOperandFailsAll(a: string, b: string, precision: nat, bcmod: (string, string) -> string)
    requires !IsValidMoney(a) || !IsValidMoney(b)
    ensures AddMoney(a, b, precision) == Err(InvalidAmount)
    ensures SubtractMoney(a, b, precision) == Err(InvalidAmount)
    ensures MultiplyMoney(a, b, precision) == Err(InvalidAmount)
    ensures DivideMoney(a, b, precision) == Err(InvalidAmount)
    ensures ModulusMoney(a, b, precision, bcmod) == Err(InvalidAmount)
    ensures CompareMoney(a, b, precision) == Err(InvalidAmount)
  {
  }

  lemma AddCommutative(a: string, b: string, precision: nat)
    ensures AddMoney(a, b, precision) == AddMoney(b, a, precision)
  {
    if IsValidMoney(a) && IsValidMoney(b) {
      var x, y := Operand(a), Operand(b);
      assert Value(x) + Value(y) == Value(y) + Value(x);
    }
  }

  /** The product is taken in full before it is cut, so the order of the
      operands does not matter. */
  lemma MultiplyCommutative(a: string, b: string, precision: nat)
    ensures MultiplyMoney(a, b, precision) == MultiplyMoney(b, a, precision)
  {
    if IsValidMoney(a) && IsValidMoney(b) {
      var x, y := Value(Operand(a)), Value(Operand(b));
      SameTrunc(x * y, y * x, precision);
    }
  }

  /** Adding zero cuts the amount to the precision. */
  lemma AddZeroCuts(a: string, precision: nat)
    requires IsValidMoney(a)
    ensures AddMoney(a, "0", precision) == Ok(Render(Trunc(Operand(a), precision), precision))
  {
    assert Render(0, 0) == "0";
    ParseRender(0, 0);
    BcMath.AddZero(Operand(a), precision);
  }

  /** Multiplying by one cuts the amount to the precision. */
  lemma MultiplyOneCuts(a: string, precision: nat)
    requires IsValidMoney(a)
    ensures MultiplyMoney(a, "1", precision) == Ok(Render(Trunc(Operand(a), precision), precision))
  {
    assert Render(1, 0) == "1";
    ParseRender(1, 0);
    BcMath.MulOne(Operand(a), precision);
  }

  lemma CompareReflexive(a: string, precision: nat)
    requires IsValidMoney(a)
    ensures CompareMoney(a, a, precision) == Ok(0)
  {
  }

  lemma CompareAntisymmetric(a: string, b: string, precision: nat)
    requires IsValidMoney(a) && IsValidMoney(b)
    ensures CompareMoney(a, b, precision).Ok? && CompareMoney(b, a, precision).Ok?
    ensures CompareMoney(a, b, precision).value == -CompareMoney(b, a, precision).value
  {
  }

  lemma CompareTransitive(a: string, b: string, c: string, precision: nat)
    requires CompareMoney(a, b, precision) == Ok(-1) && CompareMoney(b, c, precision) == Ok(-1)
    ensures CompareMoney(a, c, precision) == Ok(-1)
  {
  }

  /** A divisor is refused exactly when it lies less than one unit of the
      last kept digit away from zero. */
  lemma DivisorRefusedIff(a: string, b: string, precision: nat)
    requires IsValidMoney(a) && IsValidMoney(b)
    ensures DivideMoney(a, b, precision) == Err(ZeroDivisor)
        <==> -1.0 < Value(Operand(b)) * Pow10(precision) as real < 1.0
  {
    var x := Value(Operand(b));
    TruncZeroIff(x, precision);
    assert DivideMoney(a, b, precision) == Err(ZeroDivisor) <==> TruncReal(x, precision) == 0;
  }

  /** Swapping the operands of a subtraction gives the negated amount. */
  lemma SubtractSwapped(a: string, b: string, precision: nat)
    requires IsValidMoney(a) && IsValidMoney(b)
    ensures var u := BcMath.Sub(Operand(a), Operand(b), precision);
      SubtractMoney(a, b, precision) == Ok(Render(u, precision))
      && SubtractMoney(b, a, precision) == Ok(Render(-u, precision))
  {
    BcMath.SubSwapped(Operand(a), Operand(b), precision);
  }

  /** A result is already cut: cutting it again by adding zero returns it
      unchanged. */
  lemma CutTwiceIsCutOnce(a: string, precision: nat)
    requires IsValidMoney(a)
    ensures AddMoney(a, "0", precision).Ok?
    ensures var r := AddMoney(a, "0", precision).value;
      IsValidMoney(r) && AddMoney(r, "0", precision) == Ok(r)
  {
    var u := Trunc(Operand(a), precision);
    AddZeroCuts(a, precision);
    ParseRender(u, precision);
    AddZeroCuts(Render(u, precision), precision);
    CutIsIdempotent(u, precision);
  }

  /** Modulus refuses exactly the operands division refuses, with the same
      error. */
  lemma ModulusGuardIsDivideGuard(a: string, b: string, precision: nat, bcmod: (string, string) -> string)
    ensures ModulusMoney(a, b, precision, bcmod).Err? <==> DivideMoney(a, b, precision).Err?
    ensures ModulusMoney(a, b, precision, bcmod).Err? ==> ModulusMoney(a, b, precision, bcmod).error == DivideMoney(a, b, precision).error
  {
  }
}
