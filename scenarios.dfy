/** Worked examples at the default precision of 2 and at precision 3. They
    show the results cut toward zero, never rounded. Each example reads its
    operand texts as the canonical texts of their amounts, so that the
    general facts below apply to it. */
module Scenarios {
  import opened Decimals
  import opened Money
  import BcMath

  // On canonical operand texts, each operation is its BCMath function.

  lemma AddOnTexts(a: Decimal, b: Decimal, p: nat)
    ensures AddMoney(Render(a.units, a.scale), Render(b.units, b.scale), p) == Ok(Render(BcMath.Add(a, b, p), p))
  {
    ParseRender(a.units, a.scale);
    ParseRender(b.units, b.scale);
  }

  lemma SubtractOnTexts(a: Decimal, b: Decimal, p: nat)
    ensures SubtractMoney(Render(a.units, a.scale), Render(b.units, b.scale), p) == Ok(Render(BcMath.Sub(a, b, p), p))
  {
    ParseRender(a.units, a.scale);
    ParseRender(b.units, b.scale);
  }

  lemma MultiplyOnTexts(a: Decimal, b: Decimal, p: nat)
    ensures MultiplyMoney(Render(a.units, a.scale), Render(b.units, b.scale), p) == Ok(Render(BcMath.Mul(a, b, p), p))
  {
    ParseRender(a.units, a.scale);
    ParseRender(b.units, b.scale);
  }

  lemma DivideOnTexts(a: Decimal, b: Decimal, p: nat)
    ensures BcMath.Comp(b, Zero, p) == 0 ==> DivideMoney(Render(a.units, a.scale), Render(b.units, b.scale), p) == Err(ZeroDivisor)
    ensures BcMath.Comp(b, Zero, p) != 0 ==> (b.units != 0
        && DivideMoney(Render(a.units, a.scale), Render(b.units, b.scale), p) == Ok(Render(BcMath.Div(a, b, p), p)))
  {
    ParseRender(a.units, a.scale);
    ParseRender(b.units, b.scale);
  }

  lemma CompareOnTexts(a: Decimal, b: Decimal, p: nat)
    ensures CompareMoney(Render(a.units, a.scale), Render(b.units, b.scale), p) == Ok(BcMath.Comp(a, b, p))
  {
    ParseRender(a.units, a.scale);
    ParseRender(b.units, b.scale);
  }

  // The texts of the amounts in the examples. Each literal gets a lemma of
  // its own, and the arithmetic of each example another, so that every
  // example only chains facts already established and no proof has to
  // unfold the digit functions on several literals at once.

  /** A rendered amount is its padded digits with the point put in. */
  lemma RenderDigits(units: int, p: nat, ds: string)
    requires Padded(Abs(units), p) == ds
    ensures Render(units, p)
      == (if units < 0 then "-" else "") + ds[..|ds| - p] + (if p == 0 then "" else "." + ds[|ds| - p..])
  {
  }

  lemma Text10005At3()
    ensures Render(10005, 3) == "10.005"
  {
    RenderDigits(10005, 3, "10005");
  }

  lemma Text4At3()
    ensures Render(4, 3) == "0.004"
  {
    RenderDigits(4, 3, "0004");
  }

  lemma Text1000At2()
    ensures Render(1000, 2) == "10.00"
  {
    RenderDigits(1000, 2, "1000");
  }

  lemma Text500At2()
    ensures Render(500, 2) == "5.00"
  {
    RenderDigits(500, 2, "500");
  }

  lemma Text750At2()
    ensures Render(750, 2) == "7.50"
  {
    RenderDigits(750, 2, "750");
  }

  lemma TextMinus250At2()
    ensures Render(-250, 2) == "-2.50"
  {
    assert Abs(-250) == 250;
    RenderDigits(-250, 2, "250");
  }

  lemma Text3333At3()
    ensures Render(3333, 3) == "3.333"
  {
    RenderDigits(3333, 3, "3333");
  }

  lemma Text3At0()
    ensures Render(3, 0) == "3"
  {
    RenderDigits(3, 0, "3");
  }

  lemma Text999At2()
    ensures Render(999, 2) == "9.99"
  {
    RenderDigits(999, 2, "999");
  }

  lemma Text5At3()
    ensures Render(5, 3) == "0.005"
  {
    RenderDigits(5, 3, "0005");
  }

  lemma Text200At0()
    ensures Render(200, 0) == "200"
  {
    RenderDigits(200, 0, "200");
  }

  lemma Text100At2()
    ensures Render(100, 2) == "1.00"
  {
    RenderDigits(100, 2, "100");
  }

  lemma Text300At2()
    ensures Render(300, 2) == "3.00"
  {
    RenderDigits(300, 2, "300");
  }

  lemma Text33At2()
    ensures Render(33, 2) == "0.33"
  {
    RenderDigits(33, 2, "033");
  }

  lemma Text1At3()
    ensures Render(1, 3) == "0.001"
  {
    RenderDigits(1, 3, "0001");
  }

  lemma Text1At2()
    ensures Render(1, 2) == "0.01"
  {
    RenderDigits(1, 2, "001");
  }

  lemma Text10000At3()
    ensures Render(10000, 3) == "10.000"
  {
    RenderDigits(10000, 3, "10000");
  }

  lemma Text250At2()
    ensures Render(250, 2) == "2.50"
  {
    RenderDigits(250, 2, "250");
  }

  lemma Text25At1()
    ensures Render(25, 1) == "2.5"
  {
    RenderDigits(25, 1, "25");
  }

  lemma TextMinus7At2()
    ensures Render(-7, 2) == "-0.07"
  {
    assert Abs(-7) == 7;
    RenderDigits(-7, 2, "007");
  }

  // The arithmetic of the examples.

  lemma AddCutsTowardZeroArith()
    ensures BcMath.Add(Decimal(10005, 3), Decimal(4, 3), 2) == 1000
  {
  }

  lemma SubtractGoesNegativeArith()
    ensures BcMath.Sub(Decimal(500, 2), Decimal(750, 2), 2) == -250
  {
  }

  lemma MultiplyCutsTowardZeroArith()
    ensures BcMath.Mul(Decimal(3333, 3), Decimal(3, 0), 2) == 999
  {
  }

  lemma MultiplyCutsOnceArith()
    ensures BcMath.Mul(Decimal(5, 3), Decimal(200, 0), 2) == 100
  {
  }

  lemma DivideCutsTowardZeroArith()
    ensures BcMath.Div(Decimal(100, 2), Decimal(300, 2), 2) == 33
    ensures BcMath.Comp(Decimal(300, 2), Zero, 2) != 0
  {
  }

  lemma TinyDivisorRefusedArith()
    ensures BcMath.Comp(Decimal(1, 3), Zero, 2) == 0
  {
  }

  lemma TinyDivisorAcceptedAtThreeArith()
    ensures BcMath.Div(Decimal(1, 2), Decimal(1, 3), 3) == 10000
    ensures BcMath.Comp(Decimal(1, 3), Zero, 3) != 0
  {
  }

  lemma CompareIgnoresTrailingZerosArith()
    ensures BcMath.Comp(Decimal(250, 2), Decimal(25, 1), 2) == 0
  {
  }

  // The examples.

  /** 10.009 is cut, not rounded, to 10.00. */
  lemma AddCutsTowardZero()
    ensures AddMoney("10.005", "0.004", 2) == Ok("10.00")
  {
    Text10005At3();
    Text4At3();
    Text1000At2();
    AddOnTexts(Decimal(10005, 3), Decimal(4, 3), 2);
    AddCutsTowardZeroArith();
  }

  /** A negative difference is a valid result. */
  lemma SubtractGoesNegative()
    ensures SubtractMoney("5.00", "7.50", 2) == Ok("-2.50")
  {
    Text500At2();
    Text750At2();
    TextMinus250At2();
    SubtractOnTexts(Decimal(500, 2), Decimal(750, 2), 2);
    SubtractGoesNegativeArith();
  }

  /** 9.999 is cut to 9.99. */
  lemma MultiplyCutsTowardZero()
    ensures MultiplyMoney("3.333", "3", 2) == Ok("9.99")
  {
    Text3333At3();
    Text3At0();
    Text999At2();
    MultiplyOnTexts(Decimal(3333, 3), Decimal(3, 0), 2);
    MultiplyCutsTowardZeroArith();
  }

  /** The product is formed in full before it is cut: 0.005 alone would cut
      to 0.00, but 0.005 * 200 is 1.00. */
  lemma MultiplyCutsOnce()
    ensures MultiplyMoney("0.005", "200", 2) == Ok("1.00")
  {
    Text5At3();
    Text200At0();
    Text100At2();
    MultiplyOnTexts(Decimal(5, 3), Decimal(200, 0), 2);
    MultiplyCutsOnceArith();
  }

  /** One third is cut to 0.33. */
  lemma DivideCutsTowardZero()
    ensures DivideMoney("1.00", "3.00", 2) == Ok("0.33")
  {
    Text100At2();
    Text300At2();
    Text33At2();
    DivideOnTexts(Decimal(100, 2), Decimal(300, 2), 2);
    DivideCutsTowardZeroArith();
  }

  /** A divisor that is not zero but cuts to zero at the precision is
      refused. */
  lemma TinyDivisorRefused()
    ensures DivideMoney("10.00", "0.001", 2) == Err(ZeroDivisor)
  {
    Text1000At2();
    Text1At3();
    DivideOnTexts(Decimal(1000, 2), Decimal(1, 3), 2);
    TinyDivisorRefusedArith();
  }

  /** The same divisor is accepted once the precision keeps its digit. */
  lemma TinyDivisorAcceptedAtThree()
    ensures DivideMoney("0.01", "0.001", 3) == Ok("10.000")
  {
    Text1At2();
    Text1At3();
    Text10000At3();
    DivideOnTexts(Decimal(1, 2), Decimal(1, 3), 3);
    TinyDivisorAcceptedAtThreeArith();
  }

  /** Trailing zeros do not change an amount. */
  lemma CompareIgnoresTrailingZeros()
    ensures CompareMoney("2.50", "2.5", 2) == Ok(0)
  {
    Text250At2();
    Text25At1();
    CompareOnTexts(Decimal(250, 2), Decimal(25, 1), 2);
    CompareIgnoresTrailingZerosArith();
  }

  // Which texts are amounts.

  /** A negative amount is valid: it stands for a debt or an overpayment. */
  lemma NegativeIsValid()
    ensures IsValidMoney("-0.07")
  {
    TextMinus7At2();
    ParseRender(-7, 2);
  }

  /** A point with digits on one side only is accepted. */
  lemma BarePointIsValid()
    ensures IsValidMoney("5.") && IsValidMoney(".5")
  {
    assert Unsigned("5.") == "5.";
    assert multiset("5.")['.'] == 1;
    assert Unsigned(".5") == ".5";
    assert multiset(".5")['.'] == 1;
  }

  lemma TwoPointsAreInvalid()
    ensures !IsValidMoney("12.3.4")
  {
    assert Unsigned("12.3.4") == "12.3.4";
    assert multiset("12.3.4")['.'] == 2;
  }

  lemma LettersAreInvalid()
    ensures !IsValidMoney("abc")
  {
    assert Unsigned("abc") == "abc";
    assert !IsDigit("abc"[0]);
  }

  lemma EmptyIsInvalid()
    ensures !IsValidMoney("")
  {
    assert Unsigned("") == "";
  }

  /** A sign or a point needs at least one digit with it. */
  lemma NoDigitIsInvalid()
    ensures !IsValidMoney("-") && !IsValidMoney(".")
  {
    assert Unsigned("-") == "";
    assert Unsigned(".") == ".";
    assert multiset(".")['.'] == 1;
  }
}
