/** dmath/bq.cc: rational numbers and their text. A rational is a numerator and a positive denominator
    (mpq keeps them in lowest terms; nothing below depends on that); its value is a real. */
module Rational {
  import opened Text
  import opened NumberTheory

  function Abs(x: int): nat { if x < 0 then -x else x }

  function Fraction(num: int, den: int): real
    requires den != 0
  {
    num as real / den as real
  }

  // ---------- _to_decimal ----------

  datatype Scaled = Scaled(den: nat, num: nat, exp: nat)

  /** The first loop: divide the denominator by 5 as long as that goes. */
  function Fives(s: Scaled): Scaled
    requires s.den > 0
    ensures Fives(s).den > 0
    decreases s.den
  {
    if s.den % 5 == 0 then Fives(Scaled(s.den / 5, s.num * 2, s.exp + 1)) else s
  }

  /** The second loop, the same for 2. */
  function Twos(s: Scaled): Scaled
    requires s.den > 0
    ensures Twos(s).den > 0
    decreases s.den
  {
    if s.den % 2 == 0 then Twos(Scaled(s.den / 2, s.num * 5, s.exp + 1)) else s
  }

  function Decimal(num: nat, den: nat): Scaled
    requires den > 0
  {
    Twos(Fives(Scaled(den, num, 0)))
  }

  method ToDecimal(num0: nat, den0: nat) returns (result: int, num: nat, exp: nat)
    requires den0 > 0
    ensures result == if Decimal(num0, den0).den == 1 then 0 else 1
    ensures num == Decimal(num0, den0).num && exp == Decimal(num0, den0).exp
  {
    var den := den0;
    num, exp := num0, 0;
    while den % 5 == 0
      invariant den > 0
      invariant Fives(Scaled(den, num, exp)) == Fives(Scaled(den0, num0, 0))
      decreases den
    {
      exp := exp + 1;
      den := den / 5;
      num := num * 2;
    }
    while den % 2 == 0
      invariant den > 0
      invariant Twos(Scaled(den, num, exp)) == Decimal(num0, den0)
      decreases den
    {
      exp := exp + 1;
      den := den / 2;
      num := num * 5;
    }
    result := if den == 1 then 0 else 1;
  }

  /** num / (den * 10^exp) does not change, and den keeps its quotient by powers of 5 and 2. */
  ghost predicate SameScale(a: Scaled, b: Scaled) {
    a.exp <= b.exp && b.num * a.den == a.num * b.den * Pow(10, b.exp - a.exp)
  }

  lemma PowNat(b: nat, e: nat)
    requires b > 0
    ensures Pow(b, e) > 0
  {}

  lemma {:induction false} FivesFacts(s: Scaled) returns (b: nat)
    requires s.den > 0
    ensures SameScale(s, Fives(s))
    ensures Fives(s).den % 5 != 0
    ensures s.den == Fives(s).den * Pow(5, b) && Fives(s).exp == s.exp + b
    decreases s.den
  {
    if s.den % 5 == 0 {
      var t := Scaled(s.den / 5, s.num * 2, s.exp + 1);
      var c := FivesFacts(t);
      b := c + 1;
      var r := Fives(s);
      ScaleStep(s.den / 5, s.num * 2, r.den, r.num, 5, 2, s.den, s.num, Pow(10, r.exp - t.exp));
      assert Pow(10, r.exp - s.exp) == 10 * Pow(10, r.exp - t.exp);
      assert s.den == 5 * t.den;
      assert r.den * Pow(5, b) == 5 * (r.den * Pow(5, c)) by {
        assert Pow(5, b) == 5 * Pow(5, c);
      }
    } else {
      b := 0;
      assert Pow(5, 0) == 1 && Pow(10, 0) == 1;
    }
  }

  lemma {:induction false} TwosFacts(s: Scaled) returns (a: nat)
    requires s.den > 0
    ensures SameScale(s, Twos(s))
    ensures Twos(s).den % 2 != 0
    ensures s.den == Twos(s).den * Pow(2, a) && Twos(s).exp == s.exp + a
    decreases s.den
  {
    if s.den % 2 == 0 {
      var t := Scaled(s.den / 2, s.num * 5, s.exp + 1);
      var c := TwosFacts(t);
      a := c + 1;
      var r := Twos(s);
      ScaleStep(s.den / 2, s.num * 5, r.den, r.num, 2, 5, s.den, s.num, Pow(10, r.exp - t.exp));
      assert Pow(10, r.exp - s.exp) == 10 * Pow(10, r.exp - t.exp);
      assert s.den == 2 * t.den;
      assert r.den * Pow(2, a) == 2 * (r.den * Pow(2, c)) by {
        assert Pow(2, a) == 2 * Pow(2, c);
      }
    } else {
      a := 0;
      assert Pow(2, 0) == 1 && Pow(10, 0) == 1;
    }
  }

  lemma ScaleStep(d: int, n: int, rd: int, rn: int, f: int, g: int, d0: int, n0: int, w: int)
    requires rn * d == n * rd * w && f * g == 10 && d0 == f * d && n == n0 * g
    ensures rn * d0 == n0 * rd * (10 * w)
  {
    calc {
      rn * d0;
      rn * (f * d);
      f * (rn * d);
      f * (n0 * g * rd * w);
      (f * g) * (n0 * rd * w);
      10 * (n0 * rd * w);
      n0 * rd * (10 * w);
    }
  }

  /** den = 2^a * 5^b. */
  ghost predicate DecimalDenominator(den: nat, a: nat, b: nat) {
    den == Pow(2, a) * Pow(5, b)
  }

  /** When it succeeds, k / 10^exp is the fraction, and the number of loop rounds is a + b. */
  lemma DecimalValue(num: nat, den: nat) returns (a: nat, b: nat)
    requires den > 0 && Decimal(num, den).den == 1
    ensures DecimalDenominator(den, a, b) && Decimal(num, den).exp == a + b
    ensures Decimal(num, den).num * den == num * Pow(10, Decimal(num, den).exp)
  {
    var s := Scaled(den, num, 0);
    b := FivesFacts(s);
    var f := Fives(s);
    a := TwosFacts(f);
    var r := Twos(f);
    assert f.den == Pow(2, a);
    PowAdd(10, f.exp, r.exp - f.exp);
    // r.num * f.den == f.num * 10^a and f.num * den == num * f.den * 10^b
    assert r.num * f.den == f.num * Pow(10, r.exp - f.exp);
    assert f.num * den == num * f.den * Pow(10, f.exp);
    ScaleCompose(r.num, f.num, num, f.den, den, Pow(10, r.exp - f.exp), Pow(10, f.exp));
  }

  lemma ScaleCompose(rn: int, fn: int, n: int, fd: int, d: int, x: int, y: int)
    requires rn * fd == fn * x && fn * d == n * fd * y && fd > 0
    ensures rn * d == n * (y * x)
  {
    calc {
      (rn * d) * fd;
      (rn * fd) * d;
      (fn * x) * d;
      (fn * d) * x;
      (n * fd * y) * x;
      (n * (y * x)) * fd;
    }
    CancelFactor(rn * d, n * (y * x), fd);
  }

  lemma CancelFactor(x: int, y: int, f: int)
    requires f > 0 && x * f == y * f
    ensures x == y
  {
    SmallMultiple(f, x - y);
  }

  /** It succeeds exactly for the denominators 2^a * 5^b. */
  lemma DecimalIff(num: nat, den: nat)
    requires den > 0
    ensures Decimal(num, den).den == 1 <==> exists a, b :: DecimalDenominator(den, a, b)
  {
    if Decimal(num, den).den == 1 {
      var a, b := DecimalValue(num, den);
    }
    if exists a, b :: DecimalDenominator(den, a, b) {
      var a, b :| DecimalDenominator(den, a, b);
      FivesOfProduct(Scaled(den, num, 0), a, b);
      TwosOfPower(Fives(Scaled(den, num, 0)), a);
    }
  }

  lemma {:induction false} PowerOfTwoMod5(a: nat)
    ensures Pow(2, a) % 5 != 0
  {
    if a == 0 {
    } else {
      PowerOfTwoMod5(a - 1);
    }
  }

  lemma {:induction false} FivesOfProduct(s: Scaled, a: nat, b: nat)
    requires s.den > 0 && DecimalDenominator(s.den, a, b)
    ensures Fives(s).den == Pow(2, a)
    decreases b
  {
    if b == 0 {
      assert Pow(5, 0) == 1;
      PowerOfTwoMod5(a);
    } else {
      assert s.den == 5 * (Pow(2, a) * Pow(5, b - 1)) by {
        assert Pow(5, b) == 5 * Pow(5, b - 1);
      }
      FivesOfProduct(Scaled(s.den / 5, s.num * 2, s.exp + 1), a, b - 1);
    }
  }

  lemma {:induction false} TwosOfPower(s: Scaled, a: nat)
    requires s.den > 0 && s.den == Pow(2, a)
    ensures Twos(s).den == 1
    decreases a
  {
    if a == 0 {
    } else {
      assert s.den == 2 * Pow(2, a - 1);
      TwosOfPower(Scaled(s.den / 2, s.num * 5, s.exp + 1), a - 1);
    }
  }

  // ---------- bq_to_string ----------

  /** The %0<n>s of sprintf on a string: fill up on the left. C leaves open what it fills with, so
      the fill character is a parameter: '0' or a blank. */
  function PadLeft(s: string, n: nat, fill: char): string {
    if |s| >= n then s else [fill] + PadLeft(s, n - 1, fill)
  }

  /** Whole part z and rest n/den. */
  function Form(z: nat, n: nat, den: nat, fill: char): string
    requires den > 0
  {
    var d := Decimal(n, den);
    if d.den != 1 && n > 0 then
      if z > 0 then Dec(z) + "+" + (Dec(n) + "/" + Dec(den)) else Dec(n) + "/" + Dec(den)
    else if d.den == 1 && d.exp > 0 then
      (if z > 0 then Dec(z) else "0") + "." + PadLeft(Dec(d.num), d.exp, fill)
    else if z > 0 then
      Dec(z)
    else
      "0"
  }

  function Unsigned(a: nat, den: nat, fill: char): string
    requires den > 0
  {
    Form(a / den, a % den, den, fill)
  }

  /** The last branch of bq_to_string prints a plain "0"; no negative number gets there. */
  function BqText(num: int, den: nat, fill: char): string
    requires den > 0
  {
    (if num < 0 then "-" else "") + Unsigned(Abs(num), den, fill)
  }

  /** Neither a fraction nor decimals to print: then there is no fraction part. */
  lemma NoFractionPart(n: nat, den: nat)
    requires n < den
    requires !(Decimal(n, den).den != 1 && n > 0) && !(Decimal(n, den).den == 1 && Decimal(n, den).exp > 0)
    ensures n == 0
  {
    if Decimal(n, den).den == 1 {
      var x, y := DecimalValue(n, den);
      assert Pow(2, 0) == 1 && Pow(5, 0) == 1;
    }
  }

  method BqToString(num0: int, den0: nat, fill: char) returns (s: string)
    requires den0 > 0
    ensures s == BqText(num0, den0, fill)
  {
    var q := num0;
    var neg := false;
    if q < 0 {
      q := -q;
      neg := true;
    }
    var z := q / den0;
    var num := q - z * den0;
    assert q == Abs(num0) && num == Abs(num0) % den0;
    var result, k, exp := ToDecimal(num, den0);
    var zs := z > 0;
    var ns := result != 0 && num > 0;
    var ks := if result == 0 then exp else 0;
    var sign := if neg then "-" else "";
    if zs && ns {
      s := sign + (Dec(z) + "+" + (Dec(num) + "/" + Dec(den0)));
    } else if ns {
      s := sign + (Dec(num) + "/" + Dec(den0));
    } else if zs && ks > 0 {
      s := sign + (Dec(z) + "." + PadLeft(Dec(k), ks, fill));
    } else if ks > 0 {
      s := sign + ("0" + "." + PadLeft(Dec(k), ks, fill));
    } else if zs {
      s := sign + Dec(z);
    } else {
      NoFractionPart(num, den0);
      s := "0";
    }
  }

  // ---------- string_to_bq ----------

  /** r / 10 / 10 / ... */
  function Tenths(r: real, n: nat): real
    decreases n
  {
    if n == 0 then r else Tenths(r / 10.0, n - 1)
  }

  function OrZero(o: Option<int>): int {
    if o.Some? then o.value else 0
  }

  /** A part of a decimal that is refused counts as 0. */
  function ParseDecimal(a: string, b: string): Option<real> {
    Some(OrZero(SetStr(a)) as real + Tenths(OrZero(SetStr(b)) as real, |b|))
  }

  function ParseMixed(a: string, rest: string): Option<real> {
    match Cut(rest, '/')
    case None => None
    case Some((b, c)) =>
      var x, z, w := SetStr(c), SetStr(a), SetStr(b);
      if x.None? || x.value == 0 || z.None? || w.None? then None
      else Some(z.value as real + Fraction(w.value, x.value))
  }

  /** Denominator 0 is refused here. string_to_bq refuses it only after a '+' and leaves it to GMP
      otherwise. */
  function ParseRatio(a: string, b: string): Option<real> {
    var z, w := SetStr(a), SetStr(b);
    if z.None? || w.None? || w.value == 0 then None else Some(Fraction(z.value, w.value))
  }

  function ParseWhole(s: string): Option<real> {
    match SetStr(s)
    case None => None
    case Some(z) => Some(z as real)
  }

  function ParseUnsigned(s: string): Option<real> {
    match Cut(s, '.')
    case Some((a, b)) => ParseDecimal(a, b)
    case None =>
    match Cut(s, '+')
    case Some((a, rest)) => ParseMixed(a, rest)
    case None =>
    match Cut(s, '/')
    case Some((a, b)) => ParseRatio(a, b)
    case None => ParseWhole(s)
  }

  function Parse(s: string): Option<real> {
    var neg := s != "" && s[0] == '-';
    match ParseUnsigned(if neg then s[1..] else s)
    case None => None
    case Some(q) => Some(if neg then -q else q)
  }

  method ReadDecimals(a: string, p: string) returns (q: real)
    ensures Some(q) == ParseDecimal(a, p)
  {
    q := OrZero(SetStr(a)) as real;
    var r := OrZero(SetStr(p)) as real;
    var i := |p|;
    while i > 0
      invariant 0 <= i <= |p|
      invariant Tenths(r, i) == Tenths(OrZero(SetStr(p)) as real, |p|)
    {
      r := r / 10.0;
      i := i - 1;
    }
    q := q + r;
  }

  method StringToBq(s: string) returns (q: Option<real>)
    ensures q == Parse(s)
  {
    hide ParseDecimal, ParseMixed, ParseRatio, ParseWhole, Find;
    var neg := false;
    var sp := s;
    if s != "" && s[0] == '-' {
      neg := true;
      sp := s[1..];
    }
    var dot, plus, slash := Cut(sp, '.'), Cut(sp, '+'), Cut(sp, '/');
    if dot.Some? {
      var r := ReadDecimals(dot.value.0, dot.value.1);
      q := Some(r);
    } else if plus.Some? {
      q := ParseMixed(plus.value.0, plus.value.1);
    } else if slash.Some? {
      q := ParseRatio(slash.value.0, slash.value.1);
    } else {
      q := ParseWhole(sp);
    }
    if q.Some? && neg {
      q := Some(-q.value);
    }
  }

  // ---------- the round trip ----------

  lemma {:induction false} TenthsIsDivision(r: real, n: nat)
    ensures Pow(10, n) > 0
    ensures Tenths(r, n) == r / Pow(10, n) as real
    decreases n
  {
    PowNat(10, n);
    if n == 0 {
    } else {
      TenthsIsDivision(r / 10.0, n - 1);
      DivideTwice(r, 10.0, Pow(10, n - 1) as real);
      assert Pow(10, n) as real == 10.0 * Pow(10, n - 1) as real;
    }
  }

  lemma DivideTwice(r: real, x: real, y: real)
    requires x > 0.0 && y > 0.0
    ensures x * y > 0.0
    ensures r / x / y == r / (x * y)
  {
    var q := r / x / y;
    assert q * y == r / x;
    assert (q * y) * x == r;
    assert q * (x * y) == r;
  }

  lemma QuotientIs(q: real, n: real, d: real)
    requires d > 0.0 && q * d == n
    ensures q == n / d
  {}

  /** Cross-multiplied equality of two fractions. */
  lemma SameFraction(k: nat, p: nat, n: nat, den: nat)
    requires p > 0 && den > 0 && k * den == n * p
    ensures Fraction(k, p) == Fraction(n, den)
  {
    var q := Fraction(n, den);
    var kr, pr, nr, dr := k as real, p as real, n as real, den as real;
    assert kr * dr == nr * pr by {
      assert kr * dr == (k * den) as real;
      assert nr * pr == (n * p) as real;
    }
    assert q * dr == nr;
    assert (q * pr) * dr == kr * dr;
    CancelReal(q * pr, kr, dr);
    QuotientIs(q, kr, pr);
  }

  lemma CancelReal(x: real, y: real, f: real)
    requires f > 0.0 && x * f == y * f
    ensures x == y
  {}

  /** Integer part and rest put together. */
  lemma WholeAndRest(a: nat, den: nat)
    requires den > 0
    ensures (a / den) as real + Fraction(a % den, den) == Fraction(a, den)
  {
    var z, n, d := (a / den) as real, (a % den) as real, den as real;
    var f := Fraction(a % den, den);
    assert f * d == n;
    assert a == (a / den) * den + a % den;
    assert a as real == z * d + n by {
      assert ((a / den) * den) as real == z * d;
    }
    assert (z + f) * d == z * d + f * d;
    QuotientIs(z + f, a as real, d);
  }

  lemma {:induction false} DecLength(n: nat, e: nat)
    requires e >= 1 && n < Pow(10, e)
    ensures |Dec(n)| <= e
    decreases n
  {
    if n < 10 {
    } else {
      assert e > 1 by {
        assert Pow(10, 1) == 10 * Pow(10, 0) == 10;
      }
      assert Pow(10, e) == 10 * Pow(10, e - 1);
      DecLength(n / 10, e - 1);
    }
  }

  lemma {:induction false} PadLength(s: string, n: nat, fill: char)
    requires |s| <= n
    ensures |PadLeft(s, n, fill)| == n
    decreases n
  {
    if |s| >= n {
    } else {
      PadLength(s, n - 1, fill);
    }
  }

  predicate Fill(c: char) { c == '0' || c == ' ' }

  lemma {:induction false} PadZeros(s: string, n: nat)
    requires AllDigits(s) && s != ""
    ensures AllDigits(PadLeft(s, n, '0')) && PadLeft(s, n, '0') != ""
    ensures Number(PadLeft(s, n, '0')) == Number(s)
    decreases n
  {
    if |s| >= n {
    } else {
      PadZeros(s, n - 1);
      LeadingZero(PadLeft(s, n - 1, '0'));
    }
  }

  lemma {:induction false} LeadingZero(s: string)
    requires AllDigits(s)
    ensures Number(['0'] + s) == Number(s)
  {
    var t := ['0'] + s;
    if s == "" {
      assert t[..0] == "";
      assert Number("") == 0;
    } else {
      assert t[..|t| - 1] == ['0'] + s[..|s| - 1];
      LeadingZero(s[..|s| - 1]);
    }
  }

  lemma {:induction false} PadBlanks(s: string, n: nat)
    requires s != "" && !IsSpace(s[0])
    ensures SkipSpace(PadLeft(s, n, ' ')) == s
    decreases n
  {
    if |s| >= n {
    } else {
      PadBlanks(s, n - 1);
      var t := PadLeft(s, n, ' ');
      assert t[1..] == PadLeft(s, n - 1, ' ');
    }
  }

  /** A padded number is read back as the number, whatever it is padded with. */
  lemma PaddedNumber(k: nat, n: nat, fill: char)
    requires Fill(fill)
    ensures SetStr(PadLeft(Dec(k), n, fill)) == Some(k)
  {
    hide Dec;
    NumberOfDec(k);
    var s := Dec(k);
    if fill == '0' {
      PadZeros(s, n);
      SetStrOfDigits(PadLeft(s, n, '0'));
    } else {
      PadBlanks(s, n);
      SpacedDigits(s);
    }
  }

  /** For a fraction below 1 the decimal digits fit, so the padded field has exactly exp characters. */
  lemma FieldWidth(num: nat, den: nat, fill: char)
    requires den > 0 && num < den && Decimal(num, den).den == 1 && Decimal(num, den).exp > 0
    ensures Decimal(num, den).num < Pow(10, Decimal(num, den).exp)
    ensures |PadLeft(Dec(Decimal(num, den).num), Decimal(num, den).exp, fill)| == Decimal(num, den).exp
  {
    var a, b := DecimalValue(num, den);
    var k, e := Decimal(num, den).num, Decimal(num, den).exp;
    PowNat(10, e);
    BelowOne(k, num, den, Pow(10, e));
    DecLength(k, e);
    PadLength(Dec(k), e, fill);
  }

  lemma BelowOne(k: nat, n: nat, den: nat, p: nat)
    requires n < den && p > 0 && k * den == n * p
    ensures k < p
  {
    LessTimes(n, den, p);
    LessByProduct(k, p, den);
  }

  lemma LessTimes(x: nat, y: nat, f: nat)
    requires x < y && f > 0
    ensures x * f < y * f
  {}

  lemma LessByProduct(x: nat, y: nat, f: nat)
    requires x * f < y * f
    ensures x < y
  {}

  predicate Clean(s: string) { '.' !in s && '+' !in s && '/' !in s }

  lemma DigitsClean(s: string)
    requires AllDigits(s)
    ensures Clean(s)
  {}

  /** How the parser takes the four forms of text apart. */
  lemma FractionForm(a: string, b: string)
    requires Clean(a) && Clean(b)
    ensures ParseUnsigned(a + "/" + b) == ParseRatio(a, b)
  {
    hide ParseRatio, ParseMixed, ParseDecimal, ParseWhole;
    NotInside('.', a, '/', b);
    NotInside('+', a, '/', b);
    CutAt(a, '/', b);
  }

  lemma MixedForm(a: string, rest: string)
    requires Clean(a) && '.' !in rest
    ensures ParseUnsigned(a + "+" + rest) == ParseMixed(a, rest)
  {
    hide ParseRatio, ParseMixed, ParseDecimal, ParseWhole;
    NotInside('.', a, '+', rest);
    CutAt(a, '+', rest);
  }

  lemma DecimalForm(a: string, b: string)
    requires Clean(a)
    ensures ParseUnsigned(a + "." + b) == ParseDecimal(a, b)
  {
    hide ParseRatio, ParseMixed, ParseDecimal, ParseWhole;
    CutAt(a, '.', b);
  }

  lemma WholeForm(a: string)
    requires Clean(a)
    ensures ParseUnsigned(a) == ParseWhole(a)
  {
    hide ParseRatio, ParseMixed, ParseDecimal, ParseWhole;
  }

  lemma ReadFraction(n: nat, den: nat)
    requires den > 0
    ensures ParseUnsigned(Dec(n) + "/" + Dec(den)) == Some(Fraction(n, den))
  {
    hide Dec, SetStr, Fraction, ParseUnsigned;
    DigitsClean(Dec(n));
    DigitsClean(Dec(den));
    FractionForm(Dec(n), Dec(den));
    SetStrOfDec(n);
    SetStrOfDec(den);
  }

  lemma ReadMixed(z: nat, n: nat, den: nat)
    requires den > 0
    ensures ParseUnsigned(Dec(z) + "+" + (Dec(n) + "/" + Dec(den))) == Some(z as real + Fraction(n, den))
  {
    hide Dec, SetStr, Fraction, ParseUnsigned;
    DigitsClean(Dec(z));
    DigitsClean(Dec(n));
    DigitsClean(Dec(den));
    var rest := Dec(n) + "/" + Dec(den);
    NotInside('.', Dec(n), '/', Dec(den));
    MixedForm(Dec(z), rest);
    CutAt(Dec(n), '/', Dec(den));
    SetStrOfDec(z);
    SetStrOfDec(n);
    SetStrOfDec(den);
  }

  lemma ReadDecimal(z: nat, n: nat, den: nat, fill: char)
    requires den > 0 && n < den && Fill(fill) && Decimal(n, den).den == 1 && Decimal(n, den).exp > 0
    ensures ParseUnsigned(Dec(z) + "." + PadLeft(Dec(Decimal(n, den).num), Decimal(n, den).exp, fill))
            == Some(z as real + Fraction(n, den))
  {
    hide Dec, SetStr, Fraction, ParseUnsigned, Decimal, PadLeft, Tenths, Pow;
    var d := Decimal(n, den);
    var field := PadLeft(Dec(d.num), d.exp, fill);
    DigitsClean(Dec(z));
    DecimalForm(Dec(z), field);
    SetStrOfDec(z);
    PaddedNumber(d.num, d.exp, fill);
    FieldWidth(n, den, fill);
    TenthsIsDivision(d.num as real, d.exp);
    var a, b := DecimalValue(n, den);
    SameFraction(d.num, Pow(10, d.exp), n, den);
    FractionByPower(d.num, Pow(10, d.exp));
  }

  lemma FractionByPower(k: nat, p: nat)
    requires p > 0
    ensures Fraction(k, p) == k as real / p as real
  {}

  lemma ReadWhole(z: nat)
    ensures ParseUnsigned(Dec(z)) == Some(z as real)
  {
    hide Dec, SetStr, ParseUnsigned;
    DigitsClean(Dec(z));
    WholeForm(Dec(z));
    SetStrOfDec(z);
  }

  lemma ZeroFraction(den: nat)
    requires den > 0
    ensures Fraction(0, den) == 0.0
  {}

  lemma FractionCase(z: nat, n: nat, den: nat, fill: char)
    requires n < den && Decimal(n, den).den != 1 && n > 0
    ensures ParseUnsigned(Form(z, n, den, fill)) == Some(z as real + Fraction(n, den))
  {
    hide ParseUnsigned, Dec, Decimal, PadLeft, Fraction;
    if z > 0 { ReadMixed(z, n, den); } else { ReadFraction(n, den); }
  }

  lemma DecimalCase(z: nat, n: nat, den: nat, fill: char)
    requires n < den && Fill(fill) && Decimal(n, den).den == 1 && Decimal(n, den).exp > 0
    ensures ParseUnsigned(Form(z, n, den, fill)) == Some(z as real + Fraction(n, den))
  {
    hide *;
    DecimalShape(z, n, den, fill);
    ReadDecimal(z, n, den, fill);
  }

  lemma DecimalShape(z: nat, n: nat, den: nat, fill: char)
    requires den > 0 && Decimal(n, den).den == 1 && Decimal(n, den).exp > 0
    ensures Form(z, n, den, fill) == Dec(z) + "." + PadLeft(Dec(Decimal(n, den).num), Decimal(n, den).exp, fill)
  {
    assert Dec(0) == "0";
    hide Dec, Decimal, PadLeft;
  }

  lemma WholeCase(z: nat, n: nat, den: nat, fill: char)
    requires n < den
    requires !(Decimal(n, den).den != 1 && n > 0) && !(Decimal(n, den).den == 1 && Decimal(n, den).exp > 0)
    ensures ParseUnsigned(Form(z, n, den, fill)) == Some(z as real + Fraction(n, den))
  {
    assert Dec(0) == "0";
    hide ParseUnsigned, Dec, Decimal, PadLeft, Fraction;
    NoFractionPart(n, den);
    ZeroFraction(den);
    ReadWhole(z);
  }

  lemma FormRoundTrip(z: nat, n: nat, den: nat, fill: char)
    requires n < den && Fill(fill)
    ensures ParseUnsigned(Form(z, n, den, fill)) == Some(z as real + Fraction(n, den))
  {
    hide *;
    if Decimal(n, den).den != 1 && n > 0 {
      FractionCase(z, n, den, fill);
    } else if Decimal(n, den).den == 1 && Decimal(n, den).exp > 0 {
      DecimalCase(z, n, den, fill);
    } else {
      WholeCase(z, n, den, fill);
    }
  }

  /** The text starts with the digits of some number. */
  lemma StartsWithDigit(z: nat, n: nat, den: nat, fill: char)
    requires den > 0
    ensures Form(z, n, den, fill) != "" && IsDigit(Form(z, n, den, fill)[0])
  {
    hide Dec, Decimal, PadLeft;
  }

  lemma UnsignedRoundTrip(a: nat, den: nat, fill: char)
    requires den > 0 && Fill(fill)
    ensures ParseUnsigned(Unsigned(a, den, fill)) == Some(Fraction(a, den))
    ensures Unsigned(a, den, fill) != "" && IsDigit(Unsigned(a, den, fill)[0])
  {
    hide ParseUnsigned, Form, Fraction;
    FormRoundTrip(a / den, a % den, den, fill);
    StartsWithDigit(a / den, a % den, den, fill);
    WholeAndRest(a, den);
  }

  /** Every rational is read back from its text, in all the forms the text can take. */
  lemma RoundTrip(num: int, den: nat, fill: char)
    requires den > 0 && Fill(fill)
    ensures Parse(BqText(num, den, fill)) == Some(Fraction(num, den))
  {
    hide ParseUnsigned, Unsigned;
    var u := Unsigned(Abs(num), den, fill);
    UnsignedRoundTrip(Abs(num), den, fill);
    if num < 0 {
      assert ("-" + u)[1..] == u;
      NegatedFraction(num, den);
    } else {
      assert "" + u == u;
    }
  }

  lemma NegatedFraction(num: int, den: nat)
    requires den > 0
    ensures Fraction(num, den) == -Fraction(-num, den)
  {
    var d := den as real;
    QuotientIs(-Fraction(-num, den), num as real, d);
  }

  // ---------- texts nobody prints ----------

  lemma DigitsOrZero(s: string)
    requires AllDigits(s)
    ensures OrZero(SetStr(s)) == Number(s)
    ensures s != "" ==> SetStr(s) == Some(Number(s))
  {
    if s == "" {
      assert SetStr("") == None;
    } else {
      SetStrOfDigits(s);
    }
  }

  /** Digits around a point, also none on one side or on both. */
  lemma DecimalText(a: string, b: string)
    requires AllDigits(a) && AllDigits(b)
    ensures Pow(10, |b|) > 0
    ensures ParseUnsigned(a + "." + b) == Some(Number(a) as real + Number(b) as real / Pow(10, |b|) as real)
  {
    hide SetStr, ParseUnsigned, Number, Tenths, OrZero;
    DigitsClean(a);
    DecimalForm(a, b);
    DigitsOrZero(a);
    DigitsOrZero(b);
    TenthsIsDivision(Number(b) as real, |b|);
  }

  lemma FractionText(a: string, b: string)
    requires AllDigits(a) && AllDigits(b) && a != "" && b != ""
    ensures ParseUnsigned(a + "/" + b) == if Number(b) == 0 then None else Some(Fraction(Number(a), Number(b)))
  {
    hide SetStr, ParseUnsigned, Number, Fraction;
    DigitsClean(a);
    DigitsClean(b);
    FractionForm(a, b);
    DigitsOrZero(a);
    DigitsOrZero(b);
  }

  lemma MixedText(a: string, b: string, c: string)
    requires AllDigits(a) && AllDigits(b) && AllDigits(c) && a != "" && b != "" && c != ""
    ensures ParseUnsigned(a + "+" + (b + "/" + c))
            == if Number(c) == 0 then None else Some(Number(a) as real + Fraction(Number(b), Number(c)))
  {
    hide SetStr, ParseUnsigned, Number, Fraction;
    DigitsClean(a);
    DigitsClean(b);
    DigitsClean(c);
    NotInside('.', b, '/', c);
    MixedForm(a, b + "/" + c);
    CutAt(b, '/', c);
    DigitsOrZero(a);
    DigitsOrZero(b);
    DigitsOrZero(c);
  }

  lemma WholeText(a: string)
    requires AllDigits(a)
    ensures ParseUnsigned(a) == if a == "" then None else Some(Number(a) as real)
  {
    hide SetStr, ParseUnsigned, Number;
    DigitsClean(a);
    WholeForm(a);
    DigitsOrZero(a);
    assert a == "" ==> SetStr(a) == None by { NothingRead(); }
  }

  lemma NothingRead()
    ensures SetStr("") == None
  {}

  /** A minus in front negates whatever stands behind it. */
  lemma NegativeText(s: string)
    ensures Parse("-" + s) == match ParseUnsigned(s) case None => None case Some(q) => Some(-q)
  {
    hide ParseUnsigned;
    assert ("-" + s)[1..] == s;
  }

  lemma {:induction false} SpacedRefuses(s: string, i: nat)
    requires i < |s| && !IsDigit(s[i]) && !IsSpace(s[i])
    ensures SpacedNumber(s) == None
    decreases |s|
  {
    if i == |s| - 1 {
    } else {
      SpacedRefuses(s[..|s| - 1], i);
    }
  }

  lemma {:induction false} SkipKeeps(s: string, i: nat) returns (j: nat)
    requires i < |s| && !IsSpace(s[i])
    ensures j < |SkipSpace(s)| && SkipSpace(s)[j] == s[i]
    decreases |s|
  {
    if !IsSpace(s[0]) {
      j := i;
    } else {
      j := SkipKeeps(s[1..], i - 1);
    }
  }

  lemma SetStrRefuses(s: string, i: nat)
    requires i < |s| && !IsDigit(s[i]) && !IsSpace(s[i]) && s[i] != '-'
    ensures SetStr(s) == None
  {
    hide SpacedNumber, SkipSpace;
    var t := SkipSpace(s);
    var j := SkipKeeps(s, i);
    if t[0] == '-' {
      assert t[1..][j - 1] == t[j];
      SpacedRefuses(t[1..], j - 1);
    } else {
      SpacedRefuses(t, j);
    }
  }

  /** A character that is no digit, no white space, no minus and no mark of a form makes a text no number. */
  lemma BadCharacter(s: string, i: nat)
    requires Clean(s) && i < |s| && !IsDigit(s[i]) && !IsSpace(s[i]) && s[i] != '-'
    ensures ParseUnsigned(s) == None
  {
    hide SetStr, ParseUnsigned;
    WholeForm(s);
    SetStrRefuses(s, i);
  }

  lemma OneDigit(c: char)
    requires IsDigit(c)
    ensures AllDigits([c]) && Number([c]) == DigitValue(c)
  {
    assert [c][..0] == "" && Number("") == 0;
  }

  lemma PointExamples()
    ensures ParseUnsigned("5.") == Some(5.0) && ParseUnsigned(".5") == Some(0.5)
  {
    hide ParseUnsigned;
    OneDigit('5');
    assert Number("") == 0 && Pow(10, 0) == 1 && Pow(10, 1) == 10;
    DecimalText("5", "");
    DecimalText("", "5");
    assert "5" + "." + "" == "5." && "" + "." + "5" == ".5";
  }

  lemma FractionExamples()
    ensures ParseUnsigned("1/2") == Some(0.5) && ParseUnsigned("1/0") == None && ParseUnsigned("1+1/2") == Some(1.5)
  {
    hide ParseUnsigned, Number;
    OneDigit('0');
    OneDigit('1');
    OneDigit('2');
    FractionText("1", "2");
    FractionText("1", "0");
    MixedText("1", "1", "2");
    assert "1" + "/" + "2" == "1/2" && "1" + "/" + "0" == "1/0";
    assert "1" + "+" + ("1" + "/" + "2") == "1+1/2";
  }

  // ---------- which form is printed ----------

  ghost predicate IsDecimal(den: nat) { exists a, b :: DecimalDenominator(den, a, b) }

  /** Fractions below 1: how many rounds the loops take. */
  lemma RoundsOf(n: nat, den: nat)
    requires den > 0
    ensures Decimal(n, den).den == 1 <==> IsDecimal(den)
    ensures Decimal(n, den).den == 1 ==> (Decimal(n, den).exp > 0 <==> den > 1)
  {
    hide Decimal;
    DecimalIff(n, den);
    if Decimal(n, den).den == 1 {
      var a, b := DecimalValue(n, den);
      PowerBeyondOne(2, a);
      PowerBeyondOne(5, b);
      ProductOfOnes(Pow(2, a), Pow(5, b));
    }
  }

  lemma PowerBeyondOne(b: nat, e: nat)
    requires b >= 2
    ensures Pow(b, e) >= 1 && (Pow(b, e) == 1 <==> e == 0)
  {
    if e > 0 { PowNat(b, e - 1); }
  }

  lemma ProductOfOnes(x: nat, y: nat)
    requires x >= 1 && y >= 1
    ensures x * y == 1 <==> x == 1 && y == 1
  {
    if x > 1 { LessTimes(1, x, y); }
  }

  lemma FormShape(z: nat, n: nat, den: nat)
    requires n < den
    ensures
      var s := Form(z, n, den, '0');
      && ('/' in s <==> n > 0 && !IsDecimal(den))
      && ('+' in s <==> n > 0 && !IsDecimal(den) && z > 0)
      && ('.' in s <==> den > 1 && IsDecimal(den))
      && '-' !in s
  {
    RoundsOf(n, den);
    hide IsDecimal, Decimal, Dec, PadLeft;
    DigitsClean(Dec(z));
    DigitsClean(Dec(n));
    DigitsClean(Dec(den));
    NoMinus(Dec(z));
    NoMinus(Dec(n));
    NoMinus(Dec(den));
    var d := Decimal(n, den);
    PadZeros(Dec(d.num), d.exp);
    DigitsClean(PadLeft(Dec(d.num), d.exp, '0'));
    NoMinus(PadLeft(Dec(d.num), d.exp, '0'));
  }

  lemma NoMinus(s: string)
    requires AllDigits(s)
    ensures '-' !in s
  {}

  /** Which form a number is printed in: a decimal if the denominator has one, otherwise a fraction, mixed
      from 1 on; negative numbers have a minus in front and nowhere else. */
  lemma TextShape(num: int, den: nat)
    requires den > 0
    ensures
      var s, z, n := BqText(num, den, '0'), Abs(num) / den, Abs(num) % den;
      && ('/' in s <==> n > 0 && !IsDecimal(den))
      && ('+' in s <==> n > 0 && !IsDecimal(den) && z > 0)
      && ('.' in s <==> den > 1 && IsDecimal(den))
      && s != "" && (s[0] == '-' <==> num < 0) && '-' !in s[1..]
  {
    var z, n := Abs(num) / den, Abs(num) % den;
    FormShape(z, n, den);
    StartsWithDigit(z, n, den, '0');
    hide Form, IsDecimal;
    var u := Form(z, n, den, '0');
    if num < 0 {
      assert ("-" + u)[1..] == u;
    } else {
      assert "" + u == u;
    }
  }
}
