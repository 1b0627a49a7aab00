/** dmath/rsa.cc: RSA on numbers of any size. A number is cut into base-km digits, each digit is
    raised to the key, and the results are put together again by Horner's rule. For one digit this
    is RSAEP and RSADP of RFC 8017, sections 5.1.1 and 5.1.2. */
module Rsa {
  import opened NumberTheory

  /** mpz_powm on a base that is already reduced. */
  function PowMod(b: int, e: nat, m: int): (r: int)
    requires m >= 2
    ensures 0 <= r < m
  {
    Pow(b, e) % m
  }

  /** What rsa_crypt computes, digit by digit from the least significant one. With the modulus 1 a positive
      number has no last digit. */
  function Crypt(x: int, e: nat, km: int): (r: nat)
    requires km >= 2 || x <= 0
    decreases if x <= 0 then 0 else x
  {
    if x <= 0 then 0 else
    Shrinks(x, km);
    PowMod(x % km, e, km) + km * Crypt(x / km, e, km)
  }

  lemma Shrinks(x: int, km: int)
    requires x > 0 && km >= 2
    ensures 0 <= x / km < x
  {
    var y := x / km;
    assert x == km * y + x % km;
    TwiceAtMost(km, y);
  }

  lemma TwiceAtMost(km: int, y: int)
    requires km >= 2
    ensures y >= 0 ==> km * y >= 2 * y
    ensures y < 0 ==> km * y <= -km
  {}

  /** The number whose digits are given most significant first (the list built by prepending). */
  function Horner(ds: seq<int>, km: int): int {
    if ds == [] then 0 else Horner(ds[..|ds| - 1], km) * km + ds[|ds| - 1]
  }

  lemma {:induction false} HornerCons(d: int, ds: seq<int>, km: int)
    ensures Horner([d] + ds, km) == d * Pow(km, |ds|) + Horner(ds, km)
  {
    var all := [d] + ds;
    if ds == [] {
      assert all[..0] == [];
      assert Horner([], km) == 0 && Pow(km, 0) == 1;
    } else {
      var front, last := ds[..|ds| - 1], ds[|ds| - 1];
      assert all[..|all| - 1] == [d] + front;
      HornerCons(d, front, km);
      assert Pow(km, |ds|) == km * Pow(km, |front|);
      calc {
        Horner(all, km);
        (d * Pow(km, |front|) + Horner(front, km)) * km + last;
        d * Pow(km, |front|) * km + Horner(front, km) * km + last;
        { assert d * Pow(km, |front|) * km == d * (km * Pow(km, |front|)); }
        d * Pow(km, |ds|) + Horner(ds, km);
      }
    }
  }

  /** rsa_crypt. The first loop pushes the encrypted digits on the front of a list, the second
      walks the list. */
  method RsaCrypt(input: int, ke: nat, km: int) returns (out: int)
    requires km >= 2 || input <= 0
    ensures out == Crypt(input, ke, km)
  {
    var x := input;
    var list: seq<int> := [];
    while x > 0
      invariant x > 0 || x == 0 || x == input
      invariant x > 0 ==> km >= 2
      invariant Crypt(input, ke, km) == Crypt(x, ke, km) * Pow(km, |list|) + Horner(list, km)
      decreases if x <= 0 then 0 else x
    {
      var digit := PowMod(x % km, ke, km);
      Shrinks(x, km);
      HornerCons(digit, list, km);
      RebuildStep(Crypt(x / km, ke, km), digit, km, Pow(km, |list|));
      list := [digit] + list;
      x := x / km;
    }
    assert Crypt(x, ke, km) == 0;
    out := 0;
    var i := 0;
    while i < |list|
      invariant 0 <= i <= |list|
      invariant out == Horner(list[..i], km)
    {
      assert list[..i + 1][..i] == list[..i];
      out := out * km;
      out := out + list[i];
      i := i + 1;
    }
    assert list[..i] == list;
  }

  lemma RebuildStep(rest: int, d: int, km: int, w: int)
    ensures (d + km * rest) * w == rest * (km * w) + d * w
  {
    assert (km * rest) * w == rest * (km * w);
  }

  // ---------- keys ----------

  /** What rsa_keygen promises about its result: km is a product of two primes and the exponents
      are inverse modulo (p-1)(q-1). */
  ghost predicate KeyPair(p: int, q: int, ks: nat, kp: nat) {
    Prime(p) && Prime(q) && (ks * kp) % ((p - 1) * (q - 1)) == 1 % ((p - 1) * (q - 1))
  }

  lemma TotientPositive(p: int, q: int)
    requires p >= 2 && q >= 2
    ensures (p - 1) * (q - 1) >= 1 && p * q >= 4
    ensures p != q ==> (p - 1) * (q - 1) >= 2
  {
    assert p * q >= 2 * q;
    assert (p - 1) * (q - 1) >= q - 1;
    if p > 2 { assert (p - 1) * (q - 1) >= 2 * (q - 1); }
  }

  /** rsa_keygen after the random numbers are drawn: ks is the drawn exponent, inverse is the
      number mpz_invert returned for it. */
  method RsaKeygen(p: int, q: int, ks: nat, inverse: nat) returns (kp: nat, km: int)
    requires Prime(p) && Prime(q)
    requires (ks * inverse) % ((p - 1) * (q - 1)) == 1 % ((p - 1) * (q - 1))
    ensures km == p * q >= 4
    ensures KeyPair(p, q, ks, kp) && kp < (p - 1) * (q - 1)
  {
    TotientPositive(p, q);
    var phin := (p - 1) * (q - 1);
    kp := inverse % phin;
    km := p * q;
    CongruentMod(inverse, phin);
    CongruentRefl(ks, phin);
    CongruentMul(ks, ks, kp, inverse, phin);
    SameResidue(ks * kp, ks * inverse, phin);
  }

  lemma SameResidue(a: int, b: int, m: int)
    requires m > 0
    ensures Congruent(a, b, m) <==> a % m == b % m
  {
    CongruentMod(a, m);
    CongruentMod(b, m);
    CongruentSym(a % m, a, m);
    CongruentSym(b % m, b, m);
    if Congruent(a, b, m) {
      CongruentTrans(a % m, a, b, m);
      CongruentTrans(a % m, b, b % m, m);
      CongruentResidues(a % m, b % m, m);
    }
    if a % m == b % m {
      CongruentTrans(a, a % m, b, m);
    }
  }

  /** One prime: raising to ks and then to kp gives back the base. */
  lemma OnePrime(p: int, phi: int, a: nat, e: nat)
    requires Prime(p) && phi > 0 && Divides(p - 1, phi) && e >= 1 && e % phi == 1 % phi
    ensures Congruent(Pow(a, e), a, p)
  {
    var t := Cofactor(p - 1, phi);
    SameResidue(e, 1, phi);
    var u := Cofactor(phi, e - 1);
    assert e - 1 == (t * u) * (p - 1) by {
      assert e - 1 == ((p - 1) * t) * u;
      assert ((p - 1) * t) * u == (t * u) * (p - 1);
    }
    NonNegativeFactor(t * u, p - 1);
    FermatRepeated(p, a, t * u);
    assert 1 + (t * u) * (p - 1) == e;
  }

  lemma NonNegativeFactor(x: int, y: int)
    requires y > 0 && x * y >= 0
    ensures x >= 0
  {}

  /** One digit goes through both exponentiations unchanged. */
  lemma DigitRoundTrip(p: int, q: int, ks: nat, kp: nat, d: int)
    requires KeyPair(p, q, ks, kp) && p != q && 0 <= d < p * q
    ensures p * q >= 2
    ensures PowMod(PowMod(d, ks, p * q), kp, p * q) == d
  {
    TotientPositive(p, q);
    var km, phi := p * q, (p - 1) * (q - 1);
    var e := ks * kp;
    assert e >= 1 by {
      assert e % phi == 1;
      assert e >= 0;
    }
    DividesIntro(p - 1, q - 1);
    DividesIntro(q - 1, p - 1);
    OnePrime(p, phi, d, e);
    OnePrime(q, phi, d, e);
    PrimeProduct(p, q, Pow(d, e) - d);
    PowMul(d, ks, kp);
    CongruentMod(Pow(d, ks), km);
    CongruentPow(PowMod(d, ks, km), Pow(d, ks), kp, km);
    var c := Pow(PowMod(d, ks, km), kp);
    CongruentTrans(c, Pow(d, e), d, km);
    CongruentMod(c, km);
    CongruentTrans(c % km, c, d, km);
    CongruentResidues(c % km, d, km);
  }

  lemma KeysPositive(p: int, q: int, ks: nat, kp: nat)
    requires KeyPair(p, q, ks, kp) && p != q
    ensures ks >= 1 && kp >= 1
  {
    TotientPositive(p, q);
    var phi := (p - 1) * (q - 1);
    assert 1 % phi == 1;
    if ks == 0 || kp == 0 { ZeroProduct(ks, kp); }
  }

  lemma ZeroProduct(x: int, y: int)
    requires x == 0 || y == 0
    ensures x * y == 0
  {}

  /** The digit recurrence also describes 0, because no positive power of 0 is anything else. */
  lemma CryptDigits(y: nat, e: nat, km: int)
    requires km >= 2 && e >= 1
    ensures 0 <= y / km
    ensures Crypt(y, e, km) == PowMod(y % km, e, km) + km * Crypt(y / km, e, km)
  {
    if y == 0 { PowZero(e); }
  }

  lemma RoundTripStep(rest: nat, d: int, e: nat, km: int)
    requires km >= 2 && e >= 1 && 0 <= d < km
    ensures 0 <= d + km * rest
    ensures Crypt(d + km * rest, e, km) == PowMod(d, e, km) + km * Crypt(rest, e, km)
  {
    assert d + km * rest == rest * km + d;
    TwiceAtMost(km, rest);
    QuotientUnique(km, rest, d);
    CryptDigits(rest * km + d, e, km);
  }

  ghost predicate DigitsSurvive(ks: nat, kp: nat, km: int)
    requires km >= 2
  {
    forall d :: 0 <= d < km ==> PowMod(PowMod(d, ks, km), kp, km) == d
  }

  /** If one digit survives both exponentiations then so does every number. */
  lemma {:induction false} Digitwise(ks: nat, kp: nat, km: int, x: nat)
    requires km >= 2 && kp >= 1 && DigitsSurvive(ks, kp, km)
    ensures Crypt(Crypt(x, ks, km), kp, km) == x
    decreases x
  {
    if x == 0 {
    } else {
      Shrinks(x, km);
      var high, low := x / km, x % km;
      assert x == km * high + low;
      Digitwise(ks, kp, km, high);
      var rest, d := Crypt(high, ks, km), PowMod(low, ks, km);
      assert Crypt(x, ks, km) == d + km * rest;
      RoundTripStep(rest, d, kp, km);
    }
  }

  /** rsa_crypt with one key undoes rsa_crypt with the other, for numbers of any length. */
  lemma RoundTrip(p: int, q: int, ks: nat, kp: nat, x: nat)
    requires KeyPair(p, q, ks, kp) && p != q
    ensures p * q >= 2
    ensures Crypt(Crypt(x, ks, p * q), kp, p * q) == x
  {
    TotientPositive(p, q);
    KeysPositive(p, q, ks, kp);
    var km := p * q;
    assert DigitsSurvive(ks, kp, km) by {
      forall d | 0 <= d < km
        ensures PowMod(PowMod(d, ks, km), kp, km) == d
      {
        DigitRoundTrip(p, q, ks, kp, d);
      }
    }
    Digitwise(ks, kp, km, x);
  }

  /** rsa_keygen does not compare its two primes. With one prime taken twice the scheme works only
      for the trivial keys, so the two primes being different is exactly what it needs. */
  lemma RoundTripIffPrimesDiffer(p: int, q: int, ks: nat, kp: nat)
    requires KeyPair(p, q, ks, kp)
    ensures p * q >= 2
    ensures (forall x: nat :: Crypt(Crypt(x, ks, p * q), kp, p * q) == x) <==> (p != q || (ks == 1 && kp == 1))
  {
    TotientPositive(p, q);
    var km := p * q;
    if p != q {
      forall x: nat ensures Crypt(Crypt(x, ks, km), kp, km) == x {
        RoundTrip(p, q, ks, kp, x);
      }
    } else if ks == 1 && kp == 1 {
      forall x: nat ensures Crypt(Crypt(x, 1, km), 1, km) == x {
        TrivialKey(x, km);
      }
    } else {
      SquareLosesPrime(p, ks, kp);
    }
  }

  lemma {:induction false} TrivialKey(x: nat, km: int)
    requires km >= 2
    ensures Crypt(x, 1, km) == x
    decreases x
  {
    if x == 0 {
    } else {
      Shrinks(x, km);
      TrivialKey(x / km, km);
      TrivialDigit(x % km, km);
      assert x == km * (x / km) + x % km;
    }
  }

  lemma TrivialDigit(d: int, km: int)
    requires km >= 2 && 0 <= d < km
    ensures PowMod(d, 1, km) == d
  {
    PowOne(d);
    QuotientUnique(km, 0, d);
  }

  /** One digit is encrypted as in RSAEP: it is raised to the key modulo km. The exception is 0 with the
      key 0, which has no digit. */
  lemma SingleDigit(x: nat, e: nat, km: int)
    requires km >= 2 && x < km
    ensures Crypt(x, e, km) == Pow(x, e) % km <==> x > 0 || e > 0
  {
    if x == 0 {
      if e == 0 { QuotientUnique(km, 0, 1); } else { PowZero(e); }
    } else {
      QuotientUnique(km, 0, x);
      assert Crypt(0, e, km) == 0;
    }
  }

  /** Every digit is encrypted for itself, and the results are the digits of the result. */
  lemma EveryDigit(high: nat, low: nat, e: nat, km: int)
    requires km >= 2 && low < km && e >= 1
    ensures Crypt(low + km * high, e, km) == Pow(low, e) % km + km * Crypt(high, e, km)
  {
    RoundTripStep(high, low, e, km);
  }

  /** A number of any length is encrypted to a power of itself, modulo km. */
  lemma CryptIsPower(x: nat, e: nat, km: int)
    requires km >= 2 && (x > 0 || e > 0)
    ensures Congruent(Crypt(x, e, km), Pow(x, e), km)
  {
    var low, high := x % km, x / km;
    assert x == low + km * high && high >= 0;
    if x == 0 {
      PowZero(e);
      CongruentRefl(0, km);
    } else {
      assert Crypt(x, e, km) == Pow(low, e) % km + km * Crypt(high, e, km);
      LowDigit(Pow(low, e) % km, Crypt(high, e, km), km);
      CongruentMod(Pow(low, e), km);
      CongruentTrans(Crypt(x, e, km), Pow(low, e) % km, Pow(low, e), km);
      CongruentMod(x, km);
      CongruentPow(low, x, e, km);
      CongruentTrans(Crypt(x, e, km), Pow(low, e), Pow(x, e), km);
    }
  }

  lemma LowDigit(d: int, rest: int, km: int)
    ensures Congruent(d + km * rest, d, km)
  {
    DividesIntro(km, rest);
  }

  /** Modulo p*p the number p is lost by every power but the first. */
  lemma SquareLosesPrime(p: int, ks: nat, kp: nat)
    requires p >= 2 && !(ks == 1 && kp == 1)
    ensures p * p >= 2
    ensures Crypt(Crypt(p, ks, p * p), kp, p * p) != p
  {
    var km := p * p;
    assert km >= 2 * p;
    SingleDigit(p, ks, km);
    PowerOfRoot(p, ks);
    PowerOfRoot(p, kp);
    if ks == 1 {
      SingleDigit(p, kp, km);
    } else if ks == 0 {
      SingleDigit(1, kp, km);
      PowOfOne(kp);
      QuotientUnique(km, 0, 1);
    }
  }

  lemma PowerOfRoot(p: int, e: nat)
    requires p >= 2
    ensures p * p >= 4
    ensures PowMod(p, e, p * p) == if e == 0 then 1 else if e == 1 then p else 0
  {
    assert p * p >= 2 * p;
    var km := p * p;
    if e == 0 {
      QuotientUnique(km, 0, 1);
    } else if e == 1 {
      PowOne(p);
      QuotientUnique(km, 0, p);
    } else {
      assert Pow(p, e) == p * Pow(p, e - 1) == p * (p * Pow(p, e - 2));
      assert p * (p * Pow(p, e - 2)) == Pow(p, e - 2) * km;
      QuotientUnique(km, Pow(p, e - 2), 0);
    }
  }

  // ---------- challenge and response ----------

  /** rsa_challenge: a random number reduced modulo km. */
  function Challenge(random: nat, km: int): (c: int)
    requires km >= 2
    ensures 0 <= c < km && Congruent(c, random, km)
  {
    CongruentMod(random, km);
    random % km
  }

  /** acct::verify_reponse: a modulus that is not positive is refused, otherwise the response is
      encrypted with the public key and compared. With the modulus 1 and a positive response it never
      answers. */
  method VerifyResponse(c0: int, r: int, kp: nat, km: int) returns (success: bool)
    requires km != 1 || r <= 0
    ensures success == Verifies(c0, r, kp, km)
  {
    success := false;
    if km <= 0 {
      return;
    }
    var c1 := RsaCrypt(r, kp, km);
    success := c0 == c1;
  }

  predicate Verifies(c0: int, r: int, kp: nat, km: int)
    requires km != 1 || r <= 0
  {
    km > 0 && c0 == Crypt(r, kp, km)
  }

  /** The owner of the secret key is always accepted, and among the non-negative numbers the signed
      challenge is the only response that is. */
  lemma OnlyTheSignature(p: int, q: int, ks: nat, kp: nat, random: nat, r: nat)
    requires KeyPair(p, q, ks, kp) && p != q
    ensures p * q >= 2
    ensures Verifies(Challenge(random, p * q), r, kp, p * q)
            <==> r == Crypt(Challenge(random, p * q), ks, p * q)
  {
    TotientPositive(p, q);
    var c := Challenge(random, p * q);
    RoundTrip(p, q, ks, kp, c);
    assert kp * ks == ks * kp;
    RoundTrip(p, q, kp, ks, r);
  }
}
