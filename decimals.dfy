/** Decimal amounts as BCMath sees them: a sign, a string of digits and a
    count of fractional digits. A parsed amount is an integer of units
    scaled by a power of ten, its exact meaning is a real number, and
    cutting it to a number of fractional digits drops the rest toward zero. */
module Decimals {

  datatype Option<+T> = None | Some(value: T)

  function Abs(n: int): (r: nat)
    ensures r == n || r == -n
  {
    if n < 0 then -n else n
  }

  /** 10^n. The recursion lives in TenTo, so that every occurrence of
      Pow10(n) in a product is one and the same term to the solver. */
  function Pow10(n: nat): (r: nat)
    ensures r >= 1
  {
    TenTo(n)
  }

  function TenTo(n: nat): (r: nat)
    ensures r >= 1
  {
    if n == 0 then 1 else 10 * TenTo(n - 1)
  }

  lemma {:induction false} Pow10Add(m: nat, n: nat)
    ensures Pow10(m + n) == Pow10(m) * Pow10(n)
  {
    if n > 0 {
      Pow10Add(m, n - 1);
      assert Pow10(m + n) == 10 * Pow10(m + n - 1);
    }
  }

  /** An amount worth units / 10^scale; scale is the number of fractional
      digits it was written with. */
  datatype Decimal = Decimal(units: int, scale: nat)

  /** The exact value of an amount: its units with the point moved left
      one digit per fractional digit. Like Pow10, it keeps the recursion in a
      helper. */
  ghost function Value(d: Decimal): (v: real)
    ensures v == 0.0 <==> d.units == 0
    ensures v > 0.0 <==> d.units > 0
  {
    Shifted(d.units, d.scale)
  }

  /** u with the point moved k digits to the left. */
  ghost function Shifted(u: int, k: nat): (v: real)
    ensures v == 0.0 <==> u == 0
    ensures v > 0.0 <==> u > 0
  {
    if k == 0 then u as real else Shifted(u, k - 1) / 10.0
  }

  /** The value of an amount is its units over 10^scale. */
  lemma ValueAsRatio(d: Decimal)
    ensures Value(d) == d.units as real / Pow10(d.scale) as real
  {
    ShiftedAsRatio(d.units, d.scale);
  }

  lemma {:induction false} ShiftedAsRatio(u: int, k: nat)
    ensures Shifted(u, k) == u as real / Pow10(k) as real
  {
    if k > 0 {
      var e := Pow10(k - 1) as real;
      ShiftedAsRatio(u, k - 1);
      assert Pow10(k) as real == 10.0 * e;
      ShiftedRatio(u as real, e);
    }
  }

  lemma ShiftedRatio(u: real, e: real)
    requires e > 0.0
    ensures (u / e) / 10.0 == u / (10.0 * e)
  {
  }

  /** The whole units of y, with the fraction dropped toward zero. */
  ghost function TruncUnits(y: real): int
  {
    if y >= 0.0 then y.Floor else -((-y).Floor)
  }

  /** The reference meaning of cutting to p fractional digits: the units of
      x * 10^p, with the fraction of a unit dropped toward zero. */
  ghost function TruncReal(x: real, p: nat): int
  {
    TruncUnits(x * Pow10(p) as real)
  }

  /** A cut amount brackets the exact one: it lies between zero and x * 10^p,
      less than one unit away. */
  lemma TruncBrackets(x: real, p: nat)
    ensures var y, t := x * Pow10(p) as real, TruncReal(x, p) as real;
      (y >= 0.0 ==> 0.0 <= t <= y < t + 1.0) && (y < 0.0 ==> t - 1.0 < y <= t <= 0.0)
  {
  }

  /** An amount is zero at p digits exactly when it is less than one unit of
      the p-th fractional digit away from zero. */
  lemma TruncZeroIff(x: real, p: nat)
    ensures TruncReal(x, p) == 0 <==> -1.0 < x * Pow10(p) as real < 1.0
  {
    TruncBrackets(x, p);
  }

  lemma FloorOfRatio(n: nat, d: nat)
    requires d > 0
    ensures (n as real / d as real).Floor == n / d
  {
    var q, r := n / d, n % d;
    assert n == q * d + r;
    assert (n as real) == (q as real) * (d as real) + (r as real);
    assert (n as real) / (d as real) == (q as real) + (r as real) / (d as real);
    assert 0.0 <= (r as real) / (d as real) < 1.0;
  }

  lemma RatioOfMagnitudes(n: int, d: int)
    requires d != 0
    ensures var m := Abs(n) as real / Abs(d) as real;
      n as real / d as real == (if (n < 0) == (d < 0) then m else -m)
  {
    assert (-n) as real == -(n as real) && (-d) as real == -(d as real);
    RealQuotientSigns(n as real, d as real);
  }

  lemma RealQuotientSigns(x: real, y: real)
    requires y != 0.0
    ensures x / y == (-x) / (-y) && x / y == -((-x) / y) && x / y == -(x / (-y))
  {
  }

  /** Integer quotient cut toward zero, as BCMath divides magnitudes and then
      attaches the sign. */
  function TruncQuot(n: int, d: int): (q: int)
    requires d != 0
    ensures q == TruncUnits(n as real / d as real)
  {
    var m := Abs(n) / Abs(d);
    FloorOfRatio(Abs(n), Abs(d));
    RatioOfMagnitudes(n, d);
    if (n < 0) == (d < 0) then m else -m
  }

  lemma ScaledRatio(u: int, k: int, e: int)
    requires e > 0
    ensures (u as real / e as real) * k as real == (u * k) as real / e as real
  {
    assert (u * k) as real == u as real * k as real;
  }

  lemma ValueTimesPow(d: Decimal, p: nat)
    ensures Value(d) * Pow10(p) as real == (d.units * Pow10(p)) as real / Pow10(d.scale) as real
  {
    ValueAsRatio(d);
    RatioTimesPow(d.units, d.scale, p);
    Chain(Value(d), d.units as real / Pow10(d.scale) as real, Pow10(p) as real,
          (d.units * Pow10(p)) as real / Pow10(d.scale) as real);
  }

  lemma RatioTimesPow(u: int, s: nat, p: nat)
    ensures (u as real / Pow10(s) as real) * Pow10(p) as real == (u * Pow10(p)) as real / Pow10(s) as real
  {
    ScaledRatio(u, Pow10(p), Pow10(s));
  }

  // Equalities carried through a product, on plain variables: the solver
  // does not carry them through products of function terms by itself.

  lemma Chain(v: real, q: real, k: real, r: real)
    requires v == q && q * k == r
    ensures v * k == r
  {
  }

  lemma EqualProducts(x1: real, x2: real, y1: real, y2: real)
    requires x1 == x2 && y1 == y2
    ensures x1 * y1 == x2 * y2
  {
  }

  /** Cutting x to p digits is cutting the shifted value y to whole units. */
  lemma TruncShifted(x: real, p: nat, y: real)
    requires x * Pow10(p) as real == y
    ensures TruncReal(x, p) == TruncUnits(y)
  {
  }

  /** Equal exact values cut to equal units; stated apart so that the
      solver meets it without the terms inside. */
  lemma TruncOfEqual(t: int, x1: real, x2: real, p: nat)
    requires t == TruncReal(x1, p) && x1 == x2
    ensures t == TruncReal(x2, p)
  {
  }

  lemma SameTrunc(x1: real, x2: real, p: nat)
    requires x1 == x2
    ensures TruncReal(x1, p) == TruncReal(x2, p)
  {
  }

  /** The units of d at p fractional digits, cut toward zero. */
  function Trunc(d: Decimal, p: nat): (r: int)
    ensures r == TruncReal(Value(d), p)
  {
    var n, e := d.units * Pow10(p), Pow10(d.scale);
    ValueTimesPow(d, p);
    TruncShifted(Value(d), p, n as real / e as real);
    TruncQuot(n, e)
  }

  /** An amount already written with p fractional digits is left as it is
      by cutting to p digits. */
  lemma CutIsIdempotent(u: int, p: nat)
    ensures Trunc(Decimal(u, p), p) == u
  {
    var d := Decimal(u, p);
    ValueTimesPow(d, p);
    CancelUnits(u, Pow10(p));
    TruncShifted(Value(d), p, u as real);
  }

  lemma CancelUnits(u: int, e: int)
    requires e > 0
    ensures (u * e) as real / e as real == u as real
  {
    assert (u * e) as real == u as real * e as real;
  }

  /** Cutting toward zero commutes with negation. */
  lemma TruncNegated(x: real, p: nat)
    ensures TruncReal(-x, p) == -TruncReal(x, p)
  {
    assert -x * Pow10(p) as real == -(x * Pow10(p) as real);
  }

  // Text form

  predicate IsDigit(c: char)
  {
    '0' <= c <= '9'
  }

  predicate AllDigits(s: string)
  {
    forall i :: 0 <= i < |s| ==> IsDigit(s[i])
  }

  /** The number a string of decimal digits denotes, leading zeros allowed. */
  function DigitsValue(s: string): nat
    requires AllDigits(s)
  {
    if s == [] then 0 else 10 * DigitsValue(s[..|s| - 1]) + (s[|s| - 1] as int - '0' as int)
  }

  /** Reading a + b digit by digit: the digits of a count 10^|b| times. */
  lemma {:induction false} DigitsValueAppend(a: string, b: string)
    requires AllDigits(a) && AllDigits(b)
    ensures AllDigits(a + b)
    ensures DigitsValue(a + b) == DigitsValue(a) * Pow10(|b|) + DigitsValue(b)
  {
    if b != [] {
      var ab, front := a + b, b[..|b| - 1];
      var d := b[|b| - 1] as int - '0' as int;
      assert ab[..|ab| - 1] == a + front;
      DigitsValueAppend(a, front);
      var x, y, q := DigitsValue(a), DigitsValue(front), Pow10(|front|);
      assert DigitsValue(ab) == 10 * (x * q + y) + d;
      assert DigitsValue(b) == 10 * y + d;
      assert Pow10(|b|) == 10 * q;
      ShiftDigit(x, y, q, d, DigitsValue(ab), DigitsValue(b), Pow10(|b|));
    } else {
      assert a + b == a;
    }
  }

  lemma ShiftDigit(x: int, y: int, q: int, d: int, v: int, w: int, e: int)
    requires v == 10 * (x * q + y) + d && w == 10 * y + d && e == 10 * q
    ensures v == x * e + w
  {
  }

  function Zeros(k: nat): (z: string)
    ensures |z| == k && AllDigits(z)
  {
    seq(k, _ => '0')
  }

  lemma {:induction false} ZerosValue(k: nat)
    ensures DigitsValue(Zeros(k)) == 0
  {
    if k > 0 {
      assert Zeros(k)[..k - 1] == Zeros(k - 1);
      ZerosValue(k - 1);
    }
  }

  /** The shortest digit string of n. */
  function NatToDigits(n: nat): string
  {
    var last := [(('0' as int) + n % 10) as char];
    if n < 10 then last else NatToDigits(n / 10) + last
  }

  /** The digit string of n reads back as n. */
  lemma {:induction false} NatToDigitsValue(n: nat)
    ensures |NatToDigits(n)| >= 1 && AllDigits(NatToDigits(n)) && DigitsValue(NatToDigits(n)) == n
  {
    var s := NatToDigits(n);
    if n >= 10 {
      var front := NatToDigits(n / 10);
      NatToDigitsValue(n / 10);
      assert s[..|s| - 1] == front;
    }
  }

  /** The first position of c in s, or |s| when there is none. */
  function IndexOf(s: string, c: char): (k: nat)
    ensures k <= |s| && (k < |s| ==> s[k] == c)
    ensures forall i :: 0 <= i < k ==> s[i] != c
  {
    if s == [] then 0 else if s[0] == c then 0 else 1 + IndexOf(s[1..], c)
  }

  function Unsigned(s: string): string
  {
    if |s| > 0 && (s[0] == '+' || s[0] == '-') then s[1..] else s
  }

  predicate DigitsAndPoints(s: string)
  {
    forall i :: 0 <= i < |s| ==> IsDigit(s[i]) || s[i] == '.'
  }

  /** The accepted grammar: an optional sign, then digits and at most one
      decimal point, with at least one digit. */
  ghost predicate IsPlainDecimal(s: string)
  {
    var body := Unsigned(s);
    DigitsAndPoints(body) && multiset(body)['.'] <= 1 && multiset(body)['.'] < |body|
  }

  lemma DigitsHaveNoPoint(s: string)
    requires AllDigits(s)
    ensures multiset(s)['.'] == 0
  {
    assert '.' !in s;
  }

  lemma NoPointMeansDigits(s: string)
    requires DigitsAndPoints(s) && multiset(s)['.'] == 0
    ensures AllDigits(s)
  {
    assert '.' !in multiset(s);
    forall i | 0 <= i < |s| ensures IsDigit(s[i]) {
      assert s[i] in multiset(s);
    }
  }

  /** The grammar read through the first point: digits before it, digits
      after it, and at least one digit in all. */
  lemma PlainBody(body: string)
    ensures var k := IndexOf(body, '.');
      var whole := body[..k];
      var fraction := if k < |body| then body[k + 1..] else [];
      (AllDigits(whole) && AllDigits(fraction) && |whole| + |fraction| > 0)
      <==>
      (DigitsAndPoints(body) && multiset(body)['.'] <= 1 && multiset(body)['.'] < |body|)
  {
    var k := IndexOf(body, '.');
    if k == |body| {
      PlainBodyWithoutPoint(body);
    } else {
      PlainBodyWithPoint(body, k);
    }
  }

  lemma PlainBodyWithoutPoint(body: string)
    requires '.' !in body
    ensures AllDigits(body) <==> DigitsAndPoints(body) && multiset(body)['.'] == 0
  {
    assert multiset(body)['.'] == 0;
    if DigitsAndPoints(body) {
      NoPointMeansDigits(body);
    }
  }

  lemma PlainBodyWithPoint(body: string, k: nat)
    requires k < |body| && body[k] == '.' && '.' !in body[..k]
    ensures var whole, fraction := body[..k], body[k + 1..];
      (AllDigits(whole) && AllDigits(fraction) && |whole| + |fraction| > 0)
      <==>
      (DigitsAndPoints(body) && multiset(body)['.'] <= 1 && multiset(body)['.'] < |body|)
  {
    var whole, fraction := body[..k], body[k + 1..];
    assert body == whole + ['.'] + fraction;
    assert multiset(body)['.'] == multiset(whole)['.'] + 1 + multiset(fraction)['.'];
    assert multiset(whole)['.'] == 0;
    if AllDigits(whole) && AllDigits(fraction) {
      DigitsHaveNoPoint(fraction);
      forall i | 0 <= i < |body| ensures IsDigit(body[i]) || body[i] == '.' {
        if i > k {
          assert body[i] == fraction[i - k - 1];
        }
      }
    }
    if DigitsAndPoints(body) && multiset(body)['.'] <= 1 {
      assert DigitsAndPoints(whole);
      assert DigitsAndPoints(fraction);
      NoPointMeansDigits(whole);
      NoPointMeansDigits(fraction);
    }
  }

  /** The digits before the point, all of them when there is no point. */
  function WholeDigits(body: string): string
  {
    body[..IndexOf(body, '.')]
  }

  /** The digits after the point, none when there is no point. */
  function FractionDigits(body: string): string
  {
    var k := IndexOf(body, '.');
    if k < |body| then body[k + 1..] else []
  }

  /** Reads an unsigned plain decimal: the units are all its digits read as
      one number, the scale is the count of digits after the point. */
  function ParseUnsigned(body: string): (r: Option<Decimal>)
    ensures r.Some? <==> DigitsAndPoints(body) && multiset(body)['.'] <= 1 && multiset(body)['.'] < |body|
    ensures r.Some? ==> r.value.units >= 0
  {
    var whole := WholeDigits(body);
    var fraction := FractionDigits(body);
    PlainBody(body);
    if AllDigits(whole) && AllDigits(fraction) && |whole| + |fraction| > 0 then
      DigitsValueAppend(whole, fraction);
      Some(Decimal(DigitsValue(whole + fraction), |fraction|))
    else
      None
  }

  /** Reads a plain decimal with an optional sign; a leading minus negates
      the units. */
  function Parse(s: string): (r: Option<Decimal>)
    ensures r.Some? <==> IsPlainDecimal(s)
  {
    match ParseUnsigned(Unsigned(s))
    case None => None
    case Some(d) => Some(if |s| > 0 && s[0] == '-' then Decimal(-d.units, d.scale) else d)
  }

  /** An accepted text denotes its sign applied to the whole digits plus the
      fraction digits over ten to the number of fraction digits: "007.50"
      is 7 + 50/100 and "-.5" is -(0 + 5/10). */
  lemma ParseValue(s: string)
    requires IsPlainDecimal(s)
    ensures var whole, fraction := WholeDigits(Unsigned(s)), FractionDigits(Unsigned(s));
      Parse(s).Some? && AllDigits(whole) && AllDigits(fraction)
      && Value(Parse(s).value)
         == (if s[0] == '-' then -1.0 else 1.0)
            * (DigitsValue(whole) as real + DigitsValue(fraction) as real / Pow10(|fraction|) as real)
  {
    var body := Unsigned(s);
    UnsignedValue(body);
    var d := ParseUnsigned(body).value;
    if s[0] == '-' {
      NegValue(d.units, d.scale);
    }
  }

  lemma UnsignedValue(body: string)
    requires DigitsAndPoints(body) && multiset(body)['.'] <= 1 && multiset(body)['.'] < |body|
    ensures var whole, fraction := WholeDigits(body), FractionDigits(body);
      ParseUnsigned(body).Some? && AllDigits(whole) && AllDigits(fraction)
      && Value(ParseUnsigned(body).value)
         == DigitsValue(whole) as real + DigitsValue(fraction) as real / Pow10(|fraction|) as real
  {
    var whole, fraction := WholeDigits(body), FractionDigits(body);
    PlainBody(body);
    DigitsValueAppend(whole, fraction);
    var d := ParseUnsigned(body).value;
    ValueAsRatio(d);
    SplitRatio(DigitsValue(whole), DigitsValue(fraction), Pow10(|fraction|));
  }

  lemma SplitRatio(w: int, f: int, e: int)
    requires e > 0
    ensures (w * e + f) as real / e as real == w as real + f as real / e as real
  {
  }

  /** Negating the units negates the amount. */
  lemma NegValue(u: int, k: nat)
    ensures Value(Decimal(-u, k)) == -Value(Decimal(u, k))
  {
    ValueAsRatio(Decimal(-u, k));
    ValueAsRatio(Decimal(u, k));
  }

  /** The digits of n, padded with leading zeros to more than p digits so
      that there is at least one digit before the point. */
  function Padded(n: nat, p: nat): (ds: string)
    ensures |ds| > p && AllDigits(ds) && DigitsValue(ds) == n
  {
    var digits := NatToDigits(n);
    NatToDigitsValue(n);
    if |digits| > p then
      digits
    else
      var z := Zeros(p + 1 - |digits|);
      DigitsValueAppend(z, digits);
      ZerosValue(p + 1 - |digits|);
      z + digits
  }

  /** The text BCMath writes for units at scale p: a minus sign for a
      negative amount, the whole digits, and, when p > 0, a point followed by
      exactly p fractional digits. */
  function Render(units: int, p: nat): string
  {
    (if units < 0 then "-" else "") + CutAt(Padded(Abs(units), p), p)
  }

  lemma ReadWhole(w: string)
    requires AllDigits(w) && |w| > 0
    ensures ParseUnsigned(w) == Some(Decimal(DigitsValue(w), 0))
  {
    assert '.' !in w;
    assert IndexOf(w, '.') == |w|;
    assert w[..|w|] + [] == w;
  }

  lemma ReadPointed(w: string, f: string)
    requires AllDigits(w) && AllDigits(f) && |w| > 0
    ensures ParseUnsigned(w + "." + f) == Some(Decimal(DigitsValue(w + f), |f|))
  {
    var body := w + "." + f;
    assert forall i :: 0 <= i < |w| ==> body[i] == w[i] && body[i] != '.';
    assert body[|w|] == '.';
    assert IndexOf(body, '.') == |w|;
    assert body[..|w|] == w;
    assert body[|w| + 1..] == f;
  }

  /** Digits with a point placed before the last p of them read back as
      their value at scale p. */
  lemma ReadCut(ds: string, p: nat)
    requires AllDigits(ds) && |ds| > p
    ensures ParseUnsigned(CutAt(ds, p)) == Some(Decimal(DigitsValue(ds), p))
  {
    if p == 0 {
      assert CutAt(ds, p) == ds;
      ReadWhole(ds);
    } else {
      ReadCutPointed(ds, p);
    }
  }

  lemma ReadCutPointed(ds: string, p: nat)
    requires AllDigits(ds) && |ds| > p > 0
    ensures ParseUnsigned(CutAt(ds, p)) == Some(Decimal(DigitsValue(ds), p))
  {
    var cut := |ds| - p;
    var w, f := ds[..cut], ds[cut..];
    Rejoin(ds, cut);
    assert CutAt(ds, p) == w + "." + f;
    ReadPointed(w, f);
  }

  lemma Rejoin(s: string, k: nat)
    requires k <= |s|
    ensures s[..k] + s[k..] == s
  {
  }

  /** Digits with the point placed before the last p of them. */
  function CutAt(ds: string, p: nat): string
    requires |ds| > p
  {
    var cut := |ds| - p;
    ds[..cut] + (if p == 0 then "" else "." + ds[cut..])
  }

  /** Rendering and reading back gives the same units at the same scale. */
  lemma ParseRender(units: int, p: nat)
    ensures Parse(Render(units, p)) == Some(Decimal(units, p))
  {
    var ds := Padded(Abs(units), p);
    var body := CutAt(ds, p);
    ReadCut(ds, p);
    assert body[0] == ds[0];
    ReadSigned(body, Decimal(Abs(units), p));
    if units < 0 {
      assert Render(units, p) == "-" + body;
    } else {
      assert Render(units, p) == body;
    }
  }

  /** A body that starts with a digit reads the same alone and, negated,
      after a minus sign. */
  lemma ReadSigned(body: string, d: Decimal)
    requires ParseUnsigned(body) == Some(d) && |body| > 0 && IsDigit(body[0])
    ensures Parse(body) == Some(d) && Parse("-" + body) == Some(Decimal(-d.units, d.scale))
  {
    assert Unsigned(body) == body;
    assert Unsigned("-" + body) == body;
  }

  /** The written form of an amount: a minus sign exactly for a negative
      amount, no point at all when p is 0, and otherwise exactly p digits
      after the only point. */
  lemma RenderShape(units: int, p: nat)
    ensures var t := Render(units, p);
      |t| > p && (t[0] == '-' <==> units < 0)
      && (p == 0 ==> '.' !in t)
      && (p > 0 ==> t[|t| - p - 1] == '.' && AllDigits(t[|t| - p..]) && '.' !in t[..|t| - p - 1])
    ensures var t := Render(units, p);
      var lead := if units < 0 then 1 else 0;
      var end := if p == 0 then |t| else |t| - p - 1;
      lead < end <= |t| && AllDigits(t[lead..end]) && (end - lead == 1 || t[lead] != '0')
  {
    var ds := Padded(Abs(units), p);
    var sign := if units < 0 then "-" else "";
    assert Render(units, p) == sign + CutAt(ds, p);
    PaddedLead(Abs(units), p);
    if p == 0 {
      WholeShape(sign, ds);
    } else {
      PointedShape(sign, ds, p);
    }
    WholePart(sign, ds, p);
  }

  /** The digits between the sign and the point are the padded digits
      without the last p. */
  lemma WholePart(sign: string, ds: string, p: nat)
    requires AllDigits(ds) && |ds| > p && (|ds| - p == 1 || ds[0] != '0')
    ensures var t := sign + CutAt(ds, p);
      var end := if p == 0 then |t| else |t| - p - 1;
      |sign| < end <= |t| && AllDigits(t[|sign|..end]) && (end - |sign| == 1 || t[|sign|] != '0')
  {
    var t := sign + CutAt(ds, p);
    var w := ds[..|ds| - p];
    assert AllDigits(w) && |w| >= 1 && w[0] == ds[0];
    var end := if p == 0 then |t| else |t| - p - 1;
    assert t == sign + w + (if p == 0 then "" else "." + ds[|ds| - p..]);
    assert end == |sign| + |w|;
    assert t[|sign|..end] == w;
  }

  /** The digits of a positive number do not start with a zero. */
  lemma {:induction false} NatToDigitsLead(n: nat)
    requires n >= 1
    ensures NatToDigits(n)[0] != '0'
  {
    if n >= 10 {
      NatToDigitsLead(n / 10);
    }
  }

  /** Padding leaves a single digit before the point or a nonzero first digit. */
  lemma PaddedLead(n: nat, p: nat)
    ensures var ds := Padded(n, p);
      |ds| - p == 1 || ds[0] != '0'
  {
    if n >= 1 {
      NatToDigitsLead(n);
    }
  }

  lemma WholeShape(sign: string, ds: string)
    requires AllDigits(ds) && |ds| > 0
    ensures var t := sign + CutAt(ds, 0);
      |t| > 0 && t[0] == (if sign == [] then ds[0] else sign[0]) && '.' !in t[|sign|..]
  {
    var t := sign + CutAt(ds, 0);
    assert CutAt(ds, 0) == ds;
    assert t[|sign|..] == ds;
    assert forall i :: 0 <= i < |ds| ==> ds[i] != '.';
  }

  lemma PointedShape(sign: string, ds: string, p: nat)
    requires AllDigits(ds) && |ds| > p > 0
    ensures var t := sign + CutAt(ds, p);
      |t| > p + 1 && t[0] == (if sign == [] then ds[0] else sign[0])
      && t[|t| - p - 1] == '.' && AllDigits(t[|t| - p..]) && t[..|t| - p - 1] == sign + ds[..|ds| - p]
  {
    var cut := |ds| - p;
    var w, f := ds[..cut], ds[cut..];
    var t := sign + CutAt(ds, p);
    assert t == sign + w + "." + f;
    assert t[|t| - p..] == f;
    assert t[..|t| - p - 1] == sign + w;
  }
}
