/** The calculator object: it owns the precision, which starts at 2 and can
    be changed, and every operation reads the precision current at the time
    of the call. A PHP exception is an `Err` result here. */
module MoneyCalculator {
  import opened Decimals
  import Money

  class Calculator {
    /** Fractional digits kept by every operation. */
    var precision: nat

    constructor ()
      ensures precision == 2
    {
      precision := 2;
    }

    method SetPrecision(n: nat)
      modifies this
      ensures precision == n
    {
      precision := n;
    }

    method GetPrecision() returns (p: nat)
      ensures p == precision
    {
      p := precision;
    }

    method IsValidMoney(value: string) returns (ok: bool)
      ensures ok <==> IsPlainDecimal(value)
    {
      ok := Money.IsValidMoney(value);
    }

    method AddMoney(a: string, b: string) returns (r: Money.Result<string>)
      ensures r.Ok? <==> IsPlainDecimal(a) && IsPlainDecimal(b)
      ensures r.Err? ==> r.error == Money.InvalidAmount
      ensures r.Ok? ==> Money.IsResultText(r.value, Value(Money.Operand(a)) + Value(Money.Operand(b)), precision)
    {
      r := Money.AddMoney(a, b, precision);
    }

    method SubtractMoney(a: string, b: string) returns (r: Money.Result<string>)
      ensures r.Ok? <==> IsPlainDecimal(a) && IsPlainDecimal(b)
      ensures r.Err? ==> r.error == Money.InvalidAmount
      ensures r.Ok? ==> Money.IsResultText(r.value, Value(Money.Operand(a)) - Value(Money.Operand(b)), precision)
    {
      r := Money.SubtractMoney(a, b, precision);
    }

    method MultiplyMoney(a: string, b: string) returns (r: Money.Result<string>)
      ensures r.Ok? <==> IsPlainDecimal(a) && IsPlainDecimal(b)
      ensures r.Err? ==> r.error == Money.InvalidAmount
      ensures r.Ok? ==> Money.IsResultText(r.value, Value(Money.Operand(a)) * Value(Money.Operand(b)), precision)
    {
      r := Money.MultiplyMoney(a, b, precision);
    }

    method DivideMoney(a: string, b: string) returns (r: Money.Result<string>)
      ensures r == Money.Err(Money.InvalidAmount) <==> !IsPlainDecimal(a) || !IsPlainDecimal(b)
      ensures r == Money.Err(Money.ZeroDivisor)
          <==> IsPlainDecimal(a) && IsPlainDecimal(b) && TruncReal(Value(Money.Operand(b)), precision) == 0
      ensures r.Ok? ==> (Value(Money.Operand(b)) != 0.0
          && Money.IsResultText(r.value, Value(Money.Operand(a)) / Value(Money.Operand(b)), precision))
    {
      r := Money.DivideMoney(a, b, precision);
    }

    /** bcmod is given the operand texts; its result is not modelled. */
    method ModulusMoney(a: string, b: string, bcmod: (string, string) -> string) returns (r: Money.Result<string>)
      ensures r == Money.Err(Money.InvalidAmount) <==> !IsPlainDecimal(a) || !IsPlainDecimal(b)
      ensures r == Money.Err(Money.ZeroDivisor)
          <==> IsPlainDecimal(a) && IsPlainDecimal(b) && TruncReal(Value(Money.Operand(b)), precision) == 0
      ensures r.Ok? ==> r.value == bcmod(a, b)
    {
      r := Money.ModulusMoney(a, b, precision, bcmod);
    }

    method CompareMoney(a: string, b: string) returns (r: Money.Result<int>)
      ensures r.Ok? <==> IsPlainDecimal(a) && IsPlainDecimal(b)
      ensures r.Err? ==> r.error == Money.InvalidAmount
      ensures r.Ok? ==> -1 <= r.value <= 1
      ensures r.Ok? ==> (r.value == 0 <==> TruncReal(Value(Money.Operand(a)), precision) == TruncReal(Value(Money.Operand(b)), precision))
      ensures r.Ok? ==> (r.value < 0 <==> TruncReal(Value(Money.Operand(a)), precision) < TruncReal(Value(Money.Operand(b)), precision))
    {
      r := Money.CompareMoney(a, b, precision);
    }

    /** The float formatting is given; only the validation is modelled. */
    method RoundMoney(value: string, formatFloat: (string, nat) -> string) returns (r: Money.Result<string>)
      ensures r.Ok? <==> IsPlainDecimal(value)
      ensures r.Err? ==> r.error == Money.InvalidAmount
      ensures r.Ok? ==> r.value == formatFloat(value, precision)
    {
      r := Money.RoundMoney(value, precision, formatFloat);
    }
  }

  /** A precision that is set is the one read back, and it is the one the
      next operation uses. */
  method PrecisionRoundTrip(c: Calculator, n: nat, a: string, b: string) returns (p: nat, r: Money.Result<string>)
    modifies c
    ensures p == n && c.precision == n
    ensures r == Money.AddMoney(a, b, n)
  {
    c.SetPrecision(n);
    p := c.GetPrecision();
    r := c.AddMoney(a, b);
  }
}
