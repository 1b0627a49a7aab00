/** bom/value.cc: a value is a quantity of a denomination, a portfolio is a list of values, and both
    have a text form that is stored in the database and spoken on the wire. */
module Portfolio {
  import opened Text
  import opened Rational

  type Id = CString

  /** A value as the server computes with it. */
  datatype Value = Value(denom: Id, quant: real)

  /** A value as it is printed: the quantity with its numerator and denominator. */
  datatype Printed = Printed(denom: Id, num: int, den: nat)

  predicate Printable(v: Printed) { v.den > 0 }

  function Meaning(v: Printed): Value
    requires Printable(v)
  {
    Value(v.denom, Fraction(v.num, v.den))
  }

  function StringToValue(s: CString): Option<Value> {
    match Cut(s, '{')
    case None => None
    case Some((id, rest)) =>
    match Cut(rest, '}')
    case None => None
    case Some((q, tail)) =>
    if tail != "" then None
    else
      match Parse(q)
      case None => None
      case Some(quant) => Some(Value(id, quant))
  }

  // ---------- single values ----------

  /** The characters a printed quantity is made of. */
  predicate QuantityChar(c: char) { IsDigit(c) || c == '.' || c == '+' || c == '/' || c == '-' }

  predicate QuantityText(s: string) { forall i :: 0 <= i < |s| ==> QuantityChar(s[i]) }

  lemma {:induction false} PadIsDigits(s: string, n: nat)
    requires AllDigits(s)
    ensures AllDigits(PadLeft(s, n, '0'))
    decreases n
  {
    if |s| >= n {
    } else {
      PadIsDigits(s, n - 1);
    }
  }

  lemma DigitsAreQuantity(s: string)
    requires AllDigits(s)
    ensures QuantityText(s)
  {}

  lemma Appended(a: string, b: string)
    requires QuantityText(a) && QuantityText(b)
    ensures QuantityText(a + b)
  {}

  lemma FormCharacters(z: nat, n: nat, den: nat)
    requires den > 0
    ensures QuantityText(Form(z, n, den, '0'))
  {
    var d := Decimal(n, den);
    PadIsDigits(Dec(d.num), d.exp);
    hide Dec, Decimal, PadLeft, QuantityText;
    DigitsAreQuantity(Dec(z));
    DigitsAreQuantity(Dec(n));
    DigitsAreQuantity(Dec(den));
    DigitsAreQuantity(PadLeft(Dec(d.num), d.exp, '0'));
    Marks();
    Appended(Dec(n) + "/", Dec(den));
    Appended(Dec(n), "/");
    Appended(Dec(z), "+");
    Appended(Dec(z) + "+", Dec(n) + "/" + Dec(den));
    Appended(Dec(z), ".");
    Appended(Dec(z) + ".", PadLeft(Dec(d.num), d.exp, '0'));
    Appended("0", ".");
    Appended("0" + ".", PadLeft(Dec(d.num), d.exp, '0'));
  }

  lemma Marks()
    ensures QuantityText("/") && QuantityText("+") && QuantityText(".") && QuantityText("0")
    ensures QuantityText("-") && QuantityText("")
  {}

  lemma UnsignedCharacters(a: nat, den: nat)
    requires den > 0
    ensures QuantityText(Unsigned(a, den, '0'))
  {
    hide Form, QuantityText;
    FormCharacters(a / den, a % den, den);
  }

  lemma TextCharacters(num: int, den: nat)
    requires den > 0
    ensures QuantityText(BqText(num, den, '0'))
  {
    hide Unsigned, QuantityText;
    UnsignedCharacters(Abs(num), den);
    Marks();
    Appended(if num < 0 then "-" else "", Unsigned(Abs(num), den, '0'));
  }

  lemma QuantityAvoids(s: string)
    requires QuantityText(s)
    ensures ' ' !in s && '{' !in s && '}' !in s && '\0' !in s
  {}

  /** value_to_string. The quotes are for quantities with a blank; with zero filling there are none. */
  function ValueToString(v: Printed): CString
    requires Printable(v)
  {
    var q := BqText(v.num, v.den, '0');
    var quote := if ' ' in q then "\"" else "";
    TextCharacters(v.num, v.den);
    QuantityAvoids(q);
    v.denom + "{" + (quote + q + quote + "}")
  }

  lemma ValueShape(v: Printed)
    requires Printable(v)
    ensures ValueToString(v) == v.denom + "{" + (BqText(v.num, v.den, '0') + "}")
  {
    hide BqText;
    var q := BqText(v.num, v.den, '0');
    TextCharacters(v.num, v.den);
    QuantityAvoids(q);
    assert "" + q + "" == q;
  }

  /** A value is read back exactly when its denomination contains no opening brace. */
  lemma ValueRoundTrip(v: Printed)
    requires Printable(v)
    ensures StringToValue(ValueToString(v)) == Some(Meaning(v)) <==> '{' !in v.denom
  {
    hide BqText, Parse, Fraction, ValueToString, Find;
    var q := BqText(v.num, v.den, '0');
    ValueShape(v);
    if '{' !in v.denom {
      TextCharacters(v.num, v.den);
      QuantityAvoids(q);
      CutAt(v.denom, '{', q + "}");
      assert q + "}" == q + "}" + "";
      CutAt(q, '}', "");
      RoundTrip(v.num, v.den, '0');
    }
  }

  // ---------- lists ----------

  function Reverse<T>(s: seq<T>): seq<T> {
    if s == [] then [] else Reverse(s[1..]) + [s[0]]
  }

  lemma {:induction false} ReverseSnoc<T>(s: seq<T>, x: T)
    ensures Reverse(s + [x]) == [x] + Reverse(s)
  {
    if s == [] {
      assert [x][1..] == [];
      assert Reverse([x]) == Reverse<T>([]) + [x];
    } else {
      assert (s + [x])[1..] == s[1..] + [x];
      ReverseSnoc(s[1..], x);
    }
  }

  lemma {:induction false} ReverseTwice<T>(s: seq<T>)
    ensures Reverse(Reverse(s)) == s
  {
    if s == [] {
    } else {
      ReverseTwice(s[1..]);
      ReverseSnoc(Reverse(s[1..]), s[0]);
      assert [s[0]] + s[1..] == s;
    }
  }

  predicate AllPrintable(vl: seq<Printed>) { forall i :: 0 <= i < |vl| ==> Printable(vl[i]) }

  function Spaced(a: CString, b: CString): CString {
    NotInside('\0', a, ' ', b);
    a + " " + b
  }

  /** Values separated by single blanks. */
  function Join(vl: seq<Printed>): CString
    requires AllPrintable(vl)
  {
    if vl == [] then ""
    else if |vl| == 1 then ValueToString(vl[0])
    else Spaced(ValueToString(vl[0]), Join(vl[1..]))
  }

  lemma ReversePrintable(vl: seq<Printed>)
    requires AllPrintable(vl)
    ensures AllPrintable(Reverse(vl)) && |Reverse(vl)| == |vl|
  {
    if vl != [] { ReversePrintable(vl[1..]); }
  }

  /** portfolio_to_string collects the texts by prepending, so it prints the list backwards. */
  function PortfolioText(vl: seq<Printed>): CString
    requires AllPrintable(vl)
  {
    ReversePrintable(vl);
    Join(Reverse(vl))
  }

  method PortfolioToString(vl: seq<Printed>) returns (s: CString)
    requires AllPrintable(vl)
    ensures s == PortfolioText(vl)
  {
    hide ValueToString;
    ReversePrintable(vl);
    s := "";
    if vl != [] {
      var vsl: seq<Printed> := [];
      var i := 0;
      while i < |vl|
        invariant 0 <= i <= |vl|
        invariant vsl == Reverse(vl[..i])
      {
        assert vl[..i + 1] == vl[..i] + [vl[i]];
        ReverseSnoc(vl[..i], vl[i]);
        vsl := [vl[i]] + vsl;
        i := i + 1;
      }
      assert vl[..i] == vl;
      s := PrintAll(vsl);
    }
  }

  /** The second loop of portfolio_to_string, over the collected texts. */
  method PrintAll(vsl: seq<Printed>) returns (s: CString)
    requires AllPrintable(vsl) && vsl != []
    ensures s == Join(vsl)
  {
    hide ValueToString;
    s := ValueToString(vsl[0]);
    var j := 1;
    while j < |vsl|
      invariant 1 <= j <= |vsl|
      invariant s == Join(vsl[..j])
    {
      JoinSnoc(vsl[..j], vsl[j]);
      assert vsl[..j + 1] == vsl[..j] + [vsl[j]];
      s := Spaced(s, ValueToString(vsl[j]));
      j := j + 1;
    }
    assert vsl[..j] == vsl;
  }

  lemma SpacedAssociative(a: CString, b: CString, c: CString)
    ensures Spaced(a, Spaced(b, c)) == Spaced(Spaced(a, b), c)
  {
    assert a + " " + (b + " " + c) == (a + " " + b) + " " + c;
  }

  lemma {:induction false} JoinSnoc(vl: seq<Printed>, v: Printed)
    requires AllPrintable(vl) && Printable(v) && vl != []
    ensures Join(vl + [v]) == Spaced(Join(vl), ValueToString(v))
  {
    hide ValueToString;
    if |vl| == 1 {
      assert (vl + [v])[1..] == [v];
    } else {
      assert (vl + [v])[1..] == vl[1..] + [v];
      JoinSnoc(vl[1..], v);
      SpacedAssociative(ValueToString(vl[0]), Join(vl[1..]), ValueToString(v));
    }
  }

  /** The loop of string_to_portfolio with the values read so far. */
  function ParseList(q: CString, done: seq<Value>): Option<seq<Value>>
    decreases |q|
  {
    match Cut(q, ' ')
    case Some((token, rest)) => (
      match StringToValue(token)
      case None => None
      case Some(v) => ParseList(SkipSpace(rest), [v] + done)
    )
    case None =>
      match StringToValue(q)
      case None => None
      case Some(v) => Some([v] + done)
  }

  function StringToPortfolio(s: CString): Option<seq<Value>> {
    ParseList(s, [])
  }

  method ReadPortfolio(s: CString) returns (r: Option<seq<Value>>)
    ensures r == StringToPortfolio(s)
  {
    hide StringToValue;
    var q: CString := s;
    var vl: seq<Value> := [];
    var p := Cut(q, ' ');
    while p.Some?
      invariant p == Cut(q, ' ')
      invariant ParseList(q, vl) == StringToPortfolio(s)
      decreases |q|
    {
      var v := StringToValue(p.value.0);
      if v.None? { return None; }
      vl := [v.value] + vl;
      q := SkipSpace(p.value.1);
      p := Cut(q, ' ');
    }
    var v := StringToValue(q);
    if v.None? { return None; }
    return Some([v.value] + vl);
  }

  /** A denomination that is not cut in two, neither by the reader of lists nor by that of values. */
  predicate Whole(d: Id) { ' ' !in d && '{' !in d }

  predicate AllWhole(vl: seq<Printed>) { forall i :: 0 <= i < |vl| ==> Printable(vl[i]) && Whole(vl[i].denom) }

  /** White space at the front, which the reader skips behind a blank. */
  predicate Indented(d: Id) { d != "" && IsSpace(d[0]) }

  function Trim(v: Printed): Printed { v.(denom := SkipSpace(v.denom)) }

  function TrimAll(vl: seq<Printed>): seq<Printed> {
    if vl == [] then [] else [Trim(vl[0])] + TrimAll(vl[1..])
  }

  function Meanings(vl: seq<Printed>): seq<Value>
    requires AllPrintable(vl)
  {
    if vl == [] then [] else [Meaning(vl[0])] + Meanings(vl[1..])
  }

  lemma TokenFacts(v: Printed)
    requires Printable(v) && Whole(v.denom)
    ensures ' ' !in ValueToString(v)
  {
    hide BqText, ValueToString;
    ValueShape(v);
    TextCharacters(v.num, v.den);
    QuantityAvoids(BqText(v.num, v.den, '0'));
  }

  lemma {:induction false} SkipIn(a: string, b: string)
    requires b != "" && !IsSpace(b[0])
    ensures SkipSpace(a + b) == SkipSpace(a) + b
  {
    if a == "" {
      assert a + b == b;
    } else {
      assert (a + b)[1..] == a[1..] + b;
      SkipIn(a[1..], b);
    }
  }

  lemma TrimText(d: string, q: string)
    ensures SkipSpace(d + "{" + (q + "}")) == SkipSpace(d) + "{" + (q + "}")
  {
    hide SkipSpace;
    SkipIn(d, "{" + (q + "}"));
    Grouped(d, "{", q + "}");
    Grouped(SkipSpace(d), "{", q + "}");
  }

  lemma Grouped(a: string, b: string, c: string)
    ensures a + b + c == a + (b + c)
  {}

  lemma TrimToken(v: Printed)
    requires Printable(v)
    ensures SkipSpace(ValueToString(v)) == ValueToString(Trim(v))
  {
    hide BqText, ValueToString, SkipSpace;
    ValueShape(v);
    ValueShape(Trim(v));
    TrimText(v.denom, BqText(v.num, v.den, '0'));
  }

  /** Text that is not all white space. */
  lemma {:induction false} SkipFront(a: string, b: string)
    requires SkipSpace(a) != ""
    ensures SkipSpace(a + b) == SkipSpace(a) + b
  {
    if a == "" {
    } else {
      assert (a + b)[1..] == a[1..] + b;
      if IsSpace(a[0]) { SkipFront(a[1..], b); }
    }
  }

  lemma SkipSpaced(a: CString, a': CString, b: CString)
    requires SkipSpace(a) == a' != ""
    ensures SkipSpace(Spaced(a, b)) == Spaced(a', b)
  {
    SkipFront(a, " " + b);
    hide SkipSpace;
    assert a + " " + b == a + (" " + b) && a' + " " + b == a' + (" " + b);
  }

  /** Behind a blank the reader drops the white space at the front of the next denomination. */
  lemma TrimJoined(vl: seq<Printed>)
    requires AllPrintable(vl) && vl != []
    ensures SkipSpace(Join(vl)) == Join([Trim(vl[0])] + vl[1..])
  {
    hide ValueToString, SkipSpace, Spaced, Trim;
    TrimPrintable(vl[0]);
    var vl' := [Trim(vl[0])] + vl[1..];
    assert vl'[1..] == vl[1..];
    TrimToken(vl[0]);
    if |vl| > 1 {
      TokenNotEmpty(Trim(vl[0]));
      SkipSpaced(ValueToString(vl[0]), ValueToString(Trim(vl[0])), Join(vl[1..]));
    }
  }

  lemma TrimPrintable(v: Printed)
    requires Printable(v)
    ensures Printable(Trim(v))
  {}

  lemma TokenNotEmpty(v: Printed)
    requires Printable(v)
    ensures ValueToString(v) != ""
  {
    hide BqText, ValueToString;
    ValueShape(v);
  }

  lemma {:induction false} ParseJoined(vl: seq<Printed>, done: seq<Value>)
    requires AllWhole(vl) && vl != []
    ensures AllPrintable([vl[0]] + TrimAll(vl[1..]))
    ensures ParseList(Join(vl), done) == Some(Reverse(Meanings([vl[0]] + TrimAll(vl[1..]))) + done)
    decreases |vl|
  {
    hide ValueToString, StringToValue, Meaning, ParseList, Cut, SkipSpace, Spaced;
    var v, rest := vl[0], vl[1..];
    var token, m := ValueToString(v), Meaning(v);
    var trimmed := [v] + TrimAll(rest);
    TokenFacts(v);
    ValueRoundTrip(v);
    assert trimmed[1..] == TrimAll(rest);
    if |vl| == 1 {
      assert rest == [] && trimmed == [v];
      OneMeaning(v);
      LastToken(token, done);
    } else {
      var next := [Trim(rest[0])] + rest[1..];
      assert next[1..] == rest[1..];
      TrimWhole(rest[0]);
      NextJoined(token, rest, m, done);
      ParseJoined(next, [m] + done);
      assert TrimAll(rest) == [next[0]] + TrimAll(next[1..]);
      assert Meanings(trimmed) == [m] + Meanings(TrimAll(rest));
      ConsReverse(m, Meanings(TrimAll(rest)), done);
    }
  }

  lemma OneMeaning(v: Printed)
    requires Printable(v)
    ensures Reverse(Meanings([v])) == [Meaning(v)]
  {
    assert [v][1..] == [] && Meanings([]) == [];
    assert Meanings([v]) == [Meaning(v)];
    assert [Meaning(v)][1..] == [];
  }

  lemma ConsReverse(m: Value, ms: seq<Value>, done: seq<Value>)
    ensures Reverse([m] + ms) + done == Reverse(ms) + ([m] + done)
  {
    assert ([m] + ms)[1..] == ms;
  }

  lemma TrimWhole(v: Printed)
    requires Printable(v) && Whole(v.denom)
    ensures Printable(Trim(v)) && Whole(Trim(v).denom)
  {}

  lemma LastToken(token: CString, done: seq<Value>)
    requires ' ' !in token && StringToValue(token).Some?
    ensures ParseList(token, done) == Some([StringToValue(token).value] + done)
  {
    hide StringToValue, Find;
  }

  lemma NextToken(q: CString, token: CString, text: CString, m: Value, done: seq<Value>)
    requires Cut(q, ' ') == Some((token, text)) && StringToValue(token) == Some(m)
    ensures ParseList(q, done) == ParseList(SkipSpace(text), [m] + done)
  {
    hide StringToValue, Cut, SkipSpace;
  }

  lemma NextJoined(token: CString, rest: seq<Printed>, m: Value, done: seq<Value>)
    requires ' ' !in token && StringToValue(token) == Some(m)
    requires AllPrintable(rest) && rest != []
    ensures ParseList(Spaced(token, Join(rest)), done) == ParseList(Join([Trim(rest[0])] + rest[1..]), [m] + done)
  {
    hide ParseList, StringToValue, Cut, SkipSpace, Join;
    CutAt(token, ' ', Join(rest));
    TrimJoined(rest);
    NextToken(Spaced(token, Join(rest)), token, Join(rest), m, done);
  }

  /** The denominations a reader of lists can return. */
  lemma {:induction false} ParsedWhole(q: CString, done: seq<Value>)
    requires forall i :: 0 <= i < |done| ==> Whole(done[i].denom)
    ensures ParseList(q, done).Some? ==> forall v :: v in ParseList(q, done).value ==> Whole(v.denom)
    decreases |q|
  {
    hide StringToValue, Find, SkipSpace, Whole;
    match Cut(q, ' ')
    case Some((token, rest)) =>
      TokenWhole(token);
      if StringToValue(token).Some? {
        var next := [StringToValue(token).value] + done;
        forall i | 0 <= i < |next| ensures Whole(next[i].denom) {
          if i > 0 { assert next[i] == done[i - 1]; }
        }
        ParsedWhole(SkipSpace(rest), next);
      }
    case None =>
      TokenWhole(q);
  }

  lemma TokenWhole(token: CString)
    requires ' ' !in token
    ensures StringToValue(token).Some? ==> Whole(StringToValue(token).value.denom)
  {
    hide Find, Parse;
  }

  lemma {:induction false} MeaningsAt(vl: seq<Printed>)
    requires AllPrintable(vl)
    ensures |Meanings(vl)| == |vl|
    ensures forall i :: 0 <= i < |vl| ==> Meanings(vl)[i] == Meaning(vl[i])
  {
    hide Meaning;
    if vl == [] {
    } else {
      MeaningsAt(vl[1..]);
    }
  }

  lemma {:induction false} TrimAllAt(vl: seq<Printed>)
    ensures |TrimAll(vl)| == |vl|
    ensures forall i :: 0 <= i < |vl| ==> TrimAll(vl)[i] == Trim(vl[i])
  {
    hide Trim;
    if vl == [] {
    } else {
      TrimAllAt(vl[1..]);
    }
  }

  lemma {:induction false} ReverseAt<T>(s: seq<T>)
    ensures |Reverse(s)| == |s|
    ensures forall i :: 0 <= i < |s| ==> Reverse(s)[i] == s[|s| - 1 - i]
  {
    if s == [] {
    } else {
      ReverseAt(s[1..]);
    }
  }

  /** What the reader makes of a list without cuts: the value printed first keeps its denomination, the
      others lose the white space at their front. */
  lemma ReadTrimmed(vl: seq<Printed>)
    requires AllWhole(vl) && vl != []
    ensures StringToPortfolio(PortfolioText(vl)).Some?
    ensures
      var ms := StringToPortfolio(PortfolioText(vl)).value;
      && |ms| == |vl|
      && forall i :: 0 <= i < |vl| ==> ms[i] == Meaning(if i == |vl| - 1 then vl[i] else Trim(vl[i]))
  {
    hide ParseList, Join, Meanings, Meaning, TrimAll, Reverse, SkipSpace;
    ReversePrintable(vl);
    ReverseAt(vl);
    var rev := Reverse(vl);
    ParseJoined(rev, []);
    var read := [rev[0]] + TrimAll(rev[1..]);
    TrimAllAt(rev[1..]);
    MeaningsAt(read);
    ReverseAt(Meanings(read));
    var ms := Reverse(Meanings(read)) + [];
    assert ms == StringToPortfolio(PortfolioText(vl)).value;
    forall i | 0 <= i < |vl|
      ensures ms[i] == Meaning(if i == |vl| - 1 then vl[i] else Trim(vl[i]))
    {
      var j := |vl| - 1 - i;
      assert ms[i] == Meaning(read[j]) && rev[j] == vl[i];
      if j > 0 { assert read[j] == Trim(rev[1..][j - 1]) && rev[1..][j - 1] == rev[j]; }
    }
  }

  lemma TrimChanges(d: Id)
    ensures SkipSpace(d) == d <==> !Indented(d)
  {}

  /** A portfolio is read back with its order (the reversal in the writer and the one in the reader cancel)
      exactly when it is not empty, no denomination is cut in two, and none is indented but perhaps the
      last, which is printed first. */
  lemma PortfolioRoundTrip(vl: seq<Printed>)
    requires AllPrintable(vl)
    ensures StringToPortfolio(PortfolioText(vl)) == Some(Meanings(vl)) <==>
      && vl != [] && AllWhole(vl)
      && (forall i :: 0 <= i < |vl| - 1 ==> !Indented(vl[i].denom))
  {
    hide StringToPortfolio, PortfolioText, Meanings, Whole, Indented, SkipSpace;
    MeaningsAt(vl);
    if vl == [] {
      EmptyPortfolio();
    } else if AllWhole(vl) {
      ReadTrimmed(vl);
      var ms := StringToPortfolio(PortfolioText(vl)).value;
      forall i | 0 <= i < |vl| - 1
        ensures ms[i] == Meanings(vl)[i] <==> !Indented(vl[i].denom)
      {
        TrimChanges(vl[i].denom);
      }
      assert ms[|vl| - 1] == Meanings(vl)[|vl| - 1];
      assert ms == Meanings(vl) <==> forall i :: 0 <= i < |vl| - 1 ==> ms[i] == Meanings(vl)[i];
    } else {
      ReadIsWhole(PortfolioText(vl));
      var i :| 0 <= i < |vl| && !Whole(vl[i].denom);
      assert Meanings(vl)[i].denom == vl[i].denom && Meanings(vl)[i] in Meanings(vl);
    }
  }

  lemma ReadIsWhole(s: CString)
    ensures StringToPortfolio(s).Some? ==> forall v :: v in StringToPortfolio(s).value ==> Whole(v.denom)
  {
    hide Whole, ParseList;
    ParsedWhole(s, []);
  }

  /** The empty list is printed as the empty string, which the reader refuses. */
  lemma EmptyPortfolio()
    ensures PortfolioText([]) == "" && StringToPortfolio("") == None
  {
    assert Cut("", ' ') == None;
    assert Cut("", '{') == None;
  }

  // ---------- what is accepted and what is printed ----------

  /** The texts of a value are exactly these: an id without an opening brace, a quantity in braces, and
      nothing behind. */
  lemma ValueText(s: CString, v: Value)
    ensures StringToValue(s) == Some(v) <==>
      exists q :: s == v.denom + "{" + (q + "}") && '{' !in v.denom && '}' !in q && Parse(q) == Some(v.quant)
  {
    hide Parse, Find;
    if StringToValue(s) == Some(v) {
      var q := Cut(Cut(s, '{').value.1, '}').value.0;
      assert q + ['}'] + "" == q + "}";
      assert s == v.denom + "{" + (q + "}");
    }
    forall q | s == v.denom + "{" + (q + "}") && '{' !in v.denom && '}' !in q && Parse(q) == Some(v.quant)
      ensures StringToValue(s) == Some(v)
    {
      CutAt(v.denom, '{', q + "}");
      CutAt(q, '}', "");
      assert q + ['}'] + "" == q + "}";
    }
  }

  /** White space behind a blank counts for nothing. */
  lemma MoreBlanks(token: CString, w: CString, text: CString, done: seq<Value>)
    requires ' ' !in token && StringToValue(token).Some?
    requires (forall i :: 0 <= i < |w| ==> IsSpace(w[i])) && (text == "" || !IsSpace(text[0]))
    ensures '\0' !in w + text
    ensures ParseList(Spaced(token, w + text), done) == ParseList(text, [StringToValue(token).value] + done)
  {
    SkipsBlanks(w, text);
    hide StringToValue, Cut, SkipSpace, ParseList;
    CutAt(token, ' ', w + text);
    NextToken(Spaced(token, w + text), token, w + text, StringToValue(token).value, done);
  }

  /** The text of a list starts with its last value; behind one blank follows the text of the others. */
  lemma LastFirst(vl: seq<Printed>)
    requires AllPrintable(vl) && |vl| > 1
    ensures AllPrintable(vl[..|vl| - 1])
    ensures PortfolioText(vl) == Spaced(ValueToString(vl[|vl| - 1]), PortfolioText(vl[..|vl| - 1]))
  {
    hide ValueToString, Spaced;
    var last, rest := vl[|vl| - 1], vl[..|vl| - 1];
    assert vl == rest + [last];
    ReverseSnoc(rest, last);
    ReversePrintable(rest);
    ReversePrintable(vl);
    assert ([last] + Reverse(rest))[1..] == Reverse(rest);
  }

  lemma OnePrinted(v: Printed)
    requires Printable(v)
    ensures PortfolioText([v]) == ValueToString(v)
  {
    hide ValueToString;
    assert [v][1..] == [] && Reverse([v]) == [v];
  }
}
