/** C strings and the decimal text of integers, as the C library and mpz_set_str / mpz_get_str read and
    write them. A C string is a sequence of characters without NUL; its end plays the NUL. */
module Text {

  datatype Option<+T> = None | Some(value: T)

  type CString = s: string | '\0' !in s witness ""

  /** isspace and isprint in the C locale. */
  predicate IsSpace(c: char) { c == ' ' || 9 <= c as int <= 13 }
  predicate IsPrint(c: char) { 32 <= c as int <= 126 }
  predicate IsDigit(c: char) { '0' <= c <= '9' }

  predicate AllDigits(s: string) { forall i :: 0 <= i < |s| ==> IsDigit(s[i]) }

  // ---------- searching ----------

  predicate First(s: string, c: char, i: nat) {
    i < |s| && s[i] == c && c !in s[..i]
  }

  lemma {:induction false} FirstExists(s: string, c: char) returns (i: nat)
    requires c in s
    ensures First(s, c, i)
  {
    if s[0] == c {
      i := 0;
    } else {
      assert s == [s[0]] + s[1..];
      var j := FirstExists(s[1..], c);
      i := j + 1;
      assert s[..i] == [s[0]] + s[1..][..j];
    }
  }

  /** strchr: the index of the first c, or the length of the string. */
  function Find(s: string, c: char): (i: nat)
    ensures i <= |s| && c !in s[..i]
    ensures i == |s| <==> c !in s
    ensures i < |s| ==> s[i] == c
  {
    if c !in s then
      assert s[..|s|] == s;
      |s|
    else
      assert exists i :: First(s, c, i) by { var i := FirstExists(s, c); }
      assert forall i, j :: First(s, c, i) && First(s, c, j) ==> i == j by {
        forall i, j | First(s, c, i) && First(s, c, j) ensures i == j { FirstUnique(s, c, i, j); }
      }
      var i: nat :| i < |s| && First(s, c, i);
      i
  }

  /** strchr followed by cutting the string there: what stands before and after the first c. */
  function Cut(s: string, c: char): (r: Option<(string, string)>)
    ensures r.None? <==> c !in s
    ensures r.Some? ==> c !in r.value.0 && s == r.value.0 + [c] + r.value.1
  {
    var i := Find(s, c);
    if i == |s| then None else Some((s[..i], s[i + 1..]))
  }

  lemma CutAt(a: string, c: char, b: string)
    requires c !in a
    ensures Cut(a + [c] + b, c) == Some((a, b))
  {
    var s := a + [c] + b;
    assert s[|a|] == c && s[..|a|] == a;
    FirstUnique(s, c, Find(s, c), |a|);
    assert s[|a| + 1..] == b;
  }

  lemma NotBefore(s: string, i: nat, j: nat)
    requires i < j <= |s|
    ensures s[i] in s[..j]
  {
    assert s[..j][i] == s[i];
  }

  lemma FirstUnique(s: string, c: char, i: nat, j: nat)
    requires First(s, c, i) && First(s, c, j)
    ensures i == j
  {
    if i < j {
      NotBefore(s, i, j);
    } else if j < i {
      NotBefore(s, j, i);
    }
  }

  lemma NotInside(x: char, a: string, d: char, b: string)
    requires x !in a && x != d && x !in b
    ensures x !in a + [d] + b
  {}

  function SkipSpace(s: string): (r: string)
    ensures |r| <= |s|
    ensures r == s[|s| - |r|..]
    ensures r != "" ==> !IsSpace(r[0])
  {
    if s != "" && IsSpace(s[0]) then SkipSpace(s[1..]) else s
  }

  // ---------- numbers ----------

  function DigitChar(d: nat): (c: char)
    requires d < 10
    ensures IsDigit(c) && c as int - '0' as int == d
  {
    '0' + d as char
  }

  function DigitValue(c: char): (d: nat)
    requires IsDigit(c)
    ensures d < 10
  {
    c as int - '0' as int
  }

  /** mpz_get_str and the %d of sprintf, for numbers that are not negative. */
  function Dec(n: nat): (s: string)
    ensures s != "" && AllDigits(s)
  {
    if n < 10 then [DigitChar(n)] else Dec(n / 10) + [DigitChar(n % 10)]
  }

  /** The number a string of digits stands for. */
  function Number(s: string): nat
    requires AllDigits(s)
  {
    if s == "" then 0 else 10 * Number(s[..|s| - 1]) + DigitValue(s[|s| - 1])
  }

  lemma {:induction false} NumberOfDec(n: nat)
    ensures Number(Dec(n)) == n
  {
    var s := Dec(n);
    if n < 10 {
      assert s[..0] == "";
      assert Number("") == 0;
    } else {
      assert s[..|s| - 1] == Dec(n / 10);
      NumberOfDec(n / 10);
    }
  }

  /** Digits with white space anywhere among them. */
  function SpacedNumber(s: string): Option<nat> {
    if s == "" then Some(0)
    else
      var last := s[|s| - 1];
      match SpacedNumber(s[..|s| - 1])
      case None => None
      case Some(n) =>
        if IsSpace(last) then Some(n)
        else if IsDigit(last) then Some(10 * n + DigitValue(last))
        else None
  }

  lemma {:induction false} SpacedDigits(s: string)
    requires AllDigits(s)
    ensures SpacedNumber(s) == Some(Number(s))
  {
    if s == "" {
    } else {
      SpacedDigits(s[..|s| - 1]);
    }
  }

  /** mpz_set_str in base 10: leading white space, an optional minus, a digit, and then digits with
      white space anywhere among them. Anything else is refused. */
  function SetStr(s: string): Option<int> {
    var t := SkipSpace(s);
    var neg := t != "" && t[0] == '-';
    var u := if neg then t[1..] else t;
    if u == "" || !IsDigit(u[0]) then None
    else
      match SpacedNumber(u)
      case None => None
      case Some(n) => var i: int := n; Some(if neg then -i else i)
  }

  lemma SetStrOfDigits(s: string)
    requires s != "" && AllDigits(s)
    ensures SetStr(s) == Some(Number(s))
  {
    SpacedDigits(s);
  }

  lemma SetStrOfDec(n: nat)
    ensures SetStr(Dec(n)) == Some(n)
  {
    SetStrOfDigits(Dec(n));
    NumberOfDec(n);
  }

  /** The longest prefix of digits. */
  function DigitPrefix(s: string): (r: string)
    ensures AllDigits(r)
  {
    if s != "" && IsDigit(s[0]) then [s[0]] + DigitPrefix(s[1..]) else ""
  }

  /** atoi: white space, an optional sign, then as many digits as there are. */
  function Atoi(s: string): int {
    var t := SkipSpace(s);
    if t != "" && t[0] == '-' then
      var n: int := Number(DigitPrefix(t[1..]));
      -n
    else Number(DigitPrefix(if t != "" && t[0] == '+' then t[1..] else t))
  }

  lemma {:induction false} DigitPrefixStops(s: string, t: string)
    requires AllDigits(s) && (t == "" || !IsDigit(t[0]))
    ensures DigitPrefix(s + t) == s
  {
    if s == "" {
      assert s + t == t;
    } else {
      assert (s + t)[1..] == s[1..] + t;
      DigitPrefixStops(s[1..], t);
      assert [s[0]] + s[1..] == s;
    }
  }

  /** atoi stops at the first character that is no digit. */
  lemma AtoiOfPrefix(n: nat, t: string)
    requires t == "" || !IsDigit(t[0])
    ensures Atoi(Dec(n) + t) == n
  {
    hide Dec, Number, DigitPrefix, Atoi;
    DigitPrefixStops(Dec(n), t);
    NumberOfDec(n);
    AtoiOfDigits(Dec(n) + t);
  }

  lemma AtoiOfDigits(s: string)
    requires s != "" && IsDigit(s[0])
    ensures Atoi(s) == Number(DigitPrefix(s))
  {
    hide DigitPrefix, Number;
  }

  lemma AtoiOfDec(n: nat)
    ensures Atoi(Dec(n)) == n
  {
    hide Dec, Atoi;
    AtoiOfPrefix(n, "");
    assert Dec(n) + "" == Dec(n);
  }

  lemma {:induction false} SkipsBlanks(w: string, s: string)
    requires (forall i :: 0 <= i < |w| ==> IsSpace(w[i])) && (s == "" || !IsSpace(s[0]))
    ensures SkipSpace(w + s) == s
  {
    if w == "" {
      assert w + s == s;
    } else {
      assert (w + s)[1..] == w[1..] + s;
      SkipsBlanks(w[1..], s);
    }
  }

  /** atoi reads white space and a sign in front. */
  lemma AtoiOfSigned(w: string, sign: string, n: nat, t: string)
    requires (forall i :: 0 <= i < |w| ==> IsSpace(w[i])) && sign in {"", "+", "-"}
    requires t == "" || !IsDigit(t[0])
    ensures Atoi(w + (sign + (Dec(n) + t))) == (if sign == "-" then 0 - n as int else n as int)
  {
    hide Dec, Number, DigitPrefix, SkipSpace;
    var digits := Dec(n) + t;
    var s := sign + digits;
    DigitPrefixStops(Dec(n), t);
    NumberOfDec(n);
    SkipsBlanks(w, s);
    if sign == "" {
      assert s == digits;
    } else {
      assert s[1..] == digits;
    }
  }
}
