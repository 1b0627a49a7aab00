/** bif/common.cc: a command line is a list of arguments with quotes and escapes (dx/common.cc has the
    same code under the names encode_command and decode_command). */
module CommandLine {
  import opened Text

  /** An argument as C sees it: bytes, none of them NUL. */
  predicate IsArg(a: string) { forall i :: 0 <= i < |a| ==> 1 <= a[i] as int < 256 }

  type Arg = a: string | IsArg(a) witness ""

  const MAX_ARGS := 256

  const BELL := '\U{07}'
  const BACKSPACE := '\U{08}'
  const VTAB := '\U{0B}'
  const FORMFEED := '\U{0C}'

  // ---------- hexadecimal and octal ----------

  function HexDigit(n: nat): (c: char)
    requires n < 16
    ensures IsPrint(c)
  {
    if n < 10 then '0' + n as char else 'a' + (n - 10) as char
  }

  function HexValue(c: char): Option<nat> {
    if '0' <= c <= '9' then Some(c as int - '0' as int)
    else if 'a' <= c <= 'f' then Some(c as int + 10 - 'a' as int)
    else if 'A' <= c <= 'F' then Some(c as int + 10 - 'A' as int)
    else None
  }

  function EncodeHex(c: char): (s: string)
    requires c as int < 256
    ensures |s| == 2
  {
    [HexDigit(c as int / 16), HexDigit(c as int % 16)]
  }

  // ---------- one character ----------

  /** What stands under a cursor; past the end stands the terminating NUL. */
  function At(s: CString, i: nat): char { if i < |s| then s[i] else '\0' }

  function SkipFrom(s: CString, i: nat): (j: nat)
    requires i <= |s|
    ensures i <= j <= |s| && !IsSpace(At(s, j))
    ensures i < |s| && IsSpace(s[i]) ==> i < j
    decreases |s| - i
  {
    if i < |s| && IsSpace(s[i]) then SkipFrom(s, i + 1) else i
  }

  /** A decoded character, the cursor after it, and whether the cursor is inside quotes. NUL means
      that the argument has ended. */
  datatype Decoded = Decoded(c: char, pos: nat, quoted: bool)

  function OctAt(s: CString, i: nat): (r: Option<Decoded>)
    requires i <= |s|
    ensures r.Some? ==> i < r.value.pos <= |s|
  {
    var a, b, c := At(s, i), At(s, i + 1), At(s, i + 2);
    if !('0' <= a <= '3') || !('0' <= b <= '7') || !('0' <= c <= '7') then None
    else
      var n := (c as int - '0' as int) + 8 * (b as int - '0' as int) + 64 * (a as int - '0' as int);
      Some(Decoded(n as char, i + 3, true))
  }

  function HexAt(s: CString, i: nat): (r: Option<Decoded>)
    requires i <= |s|
    ensures r.Some? ==> i < r.value.pos <= |s|
  {
    match HexValue(At(s, i))
    case None => None
    case Some(a) =>
    match HexValue(At(s, i + 1))
    case None => None
    case Some(b) =>
      Some(Decoded((16 * a + b) as char, i + 2, true))
  }

  /** After a backslash inside quotes. */
  function EscapeAt(s: CString, i: nat): (r: Option<Decoded>)
    requires i <= |s|
    ensures r.Some? ==> i < r.value.pos <= |s|
  {
    var c := At(s, i);
    if c == '"' || c == '\\' then Some(Decoded(c, i + 1, true))
    else if c == 'f' then Some(Decoded(FORMFEED, i + 1, true))
    else if c == 'n' then Some(Decoded('\n', i + 1, true))
    else if c == 'r' then Some(Decoded('\r', i + 1, true))
    else if c == 't' then Some(Decoded('\t', i + 1, true))
    else if c == 'a' then Some(Decoded(BELL, i + 1, true))
    else if c == 'b' then Some(Decoded(BACKSPACE, i + 1, true))
    else if c == 'v' then Some(Decoded(VTAB, i + 1, true))
    else if '0' <= c <= '3' then OctAt(s, i)
    else if c == 'x' then HexAt(s, i + 1)
    else None
  }

  /** decode_character. */
  function CharacterAt(s: CString, i: nat, quoted: bool): (r: Option<Decoded>)
    requires i <= |s|
    ensures r.Some? ==> i <= r.value.pos <= |s|
    ensures r.Some? && i < |s| ==> i < r.value.pos
    ensures r.Some? && r.value.c != '\0' ==> i < r.value.pos
    decreases |s| - i
  {
    var c := At(s, i);
    if quoted && !IsPrint(c) then None
    else if !quoted && c != '\0' && !IsPrint(c) then None
    else if !quoted && (c == '\0' || IsSpace(c)) then Some(Decoded('\0', SkipFrom(s, i), quoted))
    else if IsSpace(c) then Some(Decoded(c, i + 1, quoted))
    else if c == '"' then CharacterAt(s, i + 1, !quoted)
    else if c == '\\' && quoted then EscapeAt(s, i + 1)
    else Some(Decoded(c, i + 1, quoted))
  }

  method DecodeCharacter(s: CString, pos0: nat, quoted0: bool) returns (r: Option<Decoded>)
    requires pos0 <= |s|
    ensures r == CharacterAt(s, pos0, quoted0)
  {
    var pos, quoted := pos0, quoted0;
    while true
      invariant pos <= |s|
      invariant CharacterAt(s, pos, quoted) == CharacterAt(s, pos0, quoted0)
      decreases |s| - pos
    {
      var c := At(s, pos);
      if quoted {
        if !IsPrint(c) { return None; }
      } else {
        if c != '\0' && !IsPrint(c) { return None; }
        if c == '\0' || IsSpace(c) {
          return Some(Decoded('\0', SkipFrom(s, pos), quoted));
        }
      }
      if IsSpace(c) {
        return Some(Decoded(c, pos + 1, quoted));
      } else if c == '"' {
        quoted := !quoted;
        pos := pos + 1;
      } else if c == '\\' && quoted {
        return EscapeAt(s, pos + 1);
      } else {
        return Some(Decoded(c, pos + 1, quoted));
      }
    }
  }

  // ---------- one argument ----------

  /** The loop of decode_argument with the characters read so far. */
  function Characters(s: CString, i: nat, quoted: bool, arg: string): (r: Option<(string, nat)>)
    requires i <= |s|
    ensures r.Some? ==> i <= r.value.1 <= |s|
    ensures r.Some? && i < |s| ==> i < r.value.1
    decreases |s| - i
  {
    match CharacterAt(s, i, quoted)
    case None => None
    case Some(d) =>
      if d.c == '\0' then Some((arg, d.pos)) else Characters(s, d.pos, d.quoted, arg + [d.c])
  }

  function ArgumentAt(s: CString, i: nat): (r: Option<(string, nat)>)
    requires i <= |s|
    ensures r.Some? ==> i <= r.value.1 <= |s|
    ensures r.Some? && i < |s| ==> i < r.value.1
  {
    match Characters(s, SkipFrom(s, i), false, "")
    case None => None
    case Some((arg, j)) => Some((arg, SkipFrom(s, j)))
  }

  method DecodeArgument(s: CString, pos0: nat) returns (r: Option<(string, nat)>)
    requires pos0 <= |s|
    ensures r == ArgumentAt(s, pos0)
  {
    hide CharacterAt;
    var pos := SkipFrom(s, pos0);
    var quoted := false;
    var arg := "";
    var more := true;
    while more
      invariant pos <= |s|
      invariant more ==> Characters(s, pos, quoted, arg) == Characters(s, SkipFrom(s, pos0), false, "")
      invariant !more ==> Characters(s, SkipFrom(s, pos0), false, "") == Some((arg, pos))
      decreases more, |s| - pos
    {
      var d := DecodeCharacter(s, pos, quoted);
      if d.None? { return None; }
      if d.value.c == '\0' {
        more := false;
      } else {
        arg := arg + [d.value.c];
        quoted := d.value.quoted;
      }
      pos := d.value.pos;
    }
    return Some((arg, SkipFrom(s, pos)));
  }

  // ---------- the whole line ----------

  function Arguments(s: CString, i: nat, args: seq<string>): Option<seq<string>>
    requires i <= |s|
    decreases |s| - i
  {
    if i == |s| then Some(args)
    else
      match ArgumentAt(s, i)
      case None => None
      case Some((arg, j)) =>
        if |args| >= MAX_ARGS then None else Arguments(s, j, args + [arg])
  }

  function Decode(s: CString): Option<seq<string>> {
    Arguments(s, SkipFrom(s, 0), [])
  }

  method DecodeString(s: CString) returns (r: Option<seq<string>>)
    ensures r == Decode(s)
  {
    hide ArgumentAt;
    var pos := SkipFrom(s, 0);
    var args: seq<string> := [];
    while pos < |s|
      invariant pos <= |s|
      invariant Arguments(s, pos, args) == Decode(s)
      decreases |s| - pos
    {
      var a := DecodeArgument(s, pos);
      if a.None? { return None; }
      if |args| >= MAX_ARGS { return None; }
      args := args + [a.value.0];
      pos := a.value.1;
    }
    return Some(args);
  }

  // ---------- encoding ----------

  predicate HasMeta(a: string) {
    exists i :: 0 <= i < |a| && (IsSpace(a[i]) || a[i] == '"' || !IsPrint(a[i]))
  }

  method ContainsMetacharacters(a: Arg) returns (b: bool)
    ensures b == HasMeta(a)
  {
    var i := 0;
    while i < |a|
      invariant 0 <= i <= |a|
      invariant !HasMeta(a[..i])
    {
      if IsSpace(a[i]) || a[i] == '"' || !IsPrint(a[i]) { return true; }
      i := i + 1;
    }
    assert a[..i] == a;
    return false;
  }

  /** One character inside quotes. */
  function Escape(c: char): string
    requires 1 <= c as int < 256
  {
    if c == BELL then "\\a"
    else if c == '\n' then "\\n"
    else if c == FORMFEED then "\\f"
    else if c == VTAB then "\\v"
    else if c == BACKSPACE then "\\b"
    else if c == '\t' then "\\t"
    else if c == '\r' then "\\r"
    else if c == '"' then "\\\""
    else if c == '\\' then "\\\\"
    else if IsPrint(c) then [c]
    else "\\x" + EncodeHex(c)
  }

  function EscapeAll(a: Arg): string {
    if a == "" then "" else Escape(a[0]) + EscapeAll(a[1..])
  }

  function EncodeArg(a: Arg): string {
    if a == "" || HasMeta(a) then "\"" + (EscapeAll(a) + "\"") else a
  }

  function Encode(args: seq<Arg>): string {
    if args == [] then ""
    else if |args| == 1 then EncodeArg(args[0])
    else EncodeArg(args[0]) + (" " + Encode(args[1..]))
  }

  method EncodeString(args: seq<Arg>) returns (src: string)
    ensures src == Encode(args)
  {
    hide EncodeArg;
    src := "";
    var i := 0;
    while i < |args|
      invariant 0 <= i <= |args|
      invariant src + Encode(args[i..]) == Encode(args)
    {
      var arg := args[i];
      var code := EncodeOne(arg);
      var rest := args[i..];
      assert rest[0] == arg && rest[1..] == args[i + 1..];
      if i < |args| - 1 {
        assert src + (code + (" " + Encode(rest[1..]))) == (src + (code + " ")) + Encode(rest[1..]);
        src := src + (code + " ");
      } else {
        assert Encode(args[i + 1..]) == "";
        src := src + code;
      }
      i := i + 1;
    }
  }

  method EncodeOne(arg: Arg) returns (src: string)
    ensures src == EncodeArg(arg)
  {
    hide Escape;
    var meta := ContainsMetacharacters(arg);
    if arg == "" || meta {
      var body := "";
      var j := 0;
      while j < |arg|
        invariant 0 <= j <= |arg|
        invariant body + EscapeAll(arg[j..]) == EscapeAll(arg)
      {
        var rest := arg[j..];
        assert rest[0] == arg[j] && rest[1..] == arg[j + 1..];
        assert body + (Escape(arg[j]) + EscapeAll(rest[1..])) == (body + Escape(arg[j])) + EscapeAll(rest[1..]);
        body := body + Escape(arg[j]);
        j := j + 1;
      }
      src := "\"" + (body + "\"");
    } else {
      src := arg;
    }
  }

  // ---------- the round trip ----------

  /** The text t stands in s at position i. */
  predicate Stands(s: string, i: nat, t: string) {
    i + |t| <= |s| && s[i..i + |t|] == t
  }

  lemma StandsSplit(s: string, i: nat, t: string, u: string)
    requires Stands(s, i, t + u)
    ensures Stands(s, i, t) && Stands(s, i + |t|, u)
  {
    var v := t + u;
    assert s[i..i + |v|] == v;
    assert s[i..i + |t|] == v[..|t|] == t;
    assert s[i + |t|..i + |v|] == v[|t|..] == u;
  }

  lemma StandsChar(s: string, i: nat, t: string, k: nat)
    requires Stands(s, i, t) && k < |t|
    ensures s[i + k] == t[k]
  {
    assert s[i..i + |t|][k] == s[i + k];
  }

  lemma HexRoundTrip(c: char)
    requires c as int < 256
    ensures HexValue(EncodeHex(c)[0]) == Some(c as int / 16)
    ensures HexValue(EncodeHex(c)[1]) == Some(c as int % 16)
    ensures (16 * (c as int / 16) + c as int % 16) as char == c
  {}

  /** Inside quotes every escaped character is read back. */
  lemma EscapeRoundTrip(s: CString, i: nat, c: char)
    requires 1 <= c as int < 256 && Stands(s, i, Escape(c))
    ensures |Escape(c)| > 0
    ensures CharacterAt(s, i, true) == Some(Decoded(c, i + |Escape(c)|, true))
  {
    var e := Escape(c);
    StandsChar(s, i, e, 0);
    if |e| > 1 { StandsChar(s, i, e, 1); }
    if |e| > 2 {
      StandsChar(s, i, e, 2);
      StandsChar(s, i, e, 3);
      HexRoundTrip(c);
    }
  }

  /** The cursor stands at the end of the line or at a blank. */
  predicate Ends(s: CString, i: nat) { i == |s| || (i < |s| && s[i] == ' ') }

  lemma ClosingQuote(s: CString, i: nat, done: string)
    requires Stands(s, i, "\"") && Ends(s, i + 1)
    ensures Characters(s, i, true, done) == Some((done, SkipFrom(s, i + 1)))
  {
    StandsChar(s, i, "\"", 0);
    assert CharacterAt(s, i, true) == CharacterAt(s, i + 1, false);
  }

  lemma NextCharacter(s: CString, i: nat, j: nat, quoted: bool, c: char, done: string)
    requires i <= |s| && c != '\0' && CharacterAt(s, i, quoted) == Some(Decoded(c, j, quoted))
    ensures Characters(s, i, quoted, done) == Characters(s, j, quoted, done + [c])
  {}

  lemma {:induction false} QuotedRoundTrip(s: CString, i: nat, a: Arg, done: string)
    requires Stands(s, i, EscapeAll(a) + "\"") && Ends(s, i + |EscapeAll(a)| + 1)
    ensures Characters(s, i, true, done) == Some((done + a, SkipFrom(s, i + |EscapeAll(a)| + 1)))
    decreases |a|
  {
    hide Escape, Characters, SkipFrom, CharacterAt;
    if a == "" {
      ClosingQuote(s, i, done);
      assert EscapeAll(a) + "\"" == "\"";
      assert done + a == done;
    } else {
      var e, rest := Escape(a[0]), EscapeAll(a[1..]);
      assert EscapeAll(a) == e + rest;
      assert (e + rest) + "\"" == e + (rest + "\"");
      StandsSplit(s, i, e, rest + "\"");
      EscapeRoundTrip(s, i, a[0]);
      NextCharacter(s, i, i + |e|, true, a[0], done);
      QuotedRoundTrip(s, i + |e|, a[1..], done + [a[0]]);
      assert (done + [a[0]]) + a[1..] == done + a;
    }
  }

  lemma {:induction false} PlainRoundTrip(s: CString, i: nat, a: Arg, done: string)
    requires Stands(s, i, a) && !HasMeta(a) && Ends(s, i + |a|)
    ensures Characters(s, i, false, done) == Some((done + a, SkipFrom(s, i + |a|)))
    decreases |a|
  {
    hide EscapeAt;
    if a == "" {
      assert done + a == done;
    } else {
      StandsChar(s, i, a, 0);
      assert a == [a[0]] + a[1..];
      StandsSplit(s, i, [a[0]], a[1..]);
      assert !HasMeta(a[1..]) by {
        assert forall k :: 0 <= k < |a[1..]| ==> a[1..][k] == a[k + 1];
      }
      PlainRoundTrip(s, i + 1, a[1..], done + [a[0]]);
      assert (done + [a[0]]) + a[1..] == done + a;
    }
  }

  lemma EncodeArgStart(a: Arg)
    ensures EncodeArg(a) != "" && !IsSpace(EncodeArg(a)[0])
  {}

  lemma SkipNothing(s: CString, i: nat)
    requires i <= |s| && !IsSpace(At(s, i))
    ensures SkipFrom(s, i) == i
  {}

  lemma QuotedCode(s: CString, i: nat, a: Arg, body: string)
    requires body == EscapeAll(a) && Stands(s, i, "\"" + (body + "\"")) && Ends(s, i + |body| + 2)
    ensures Characters(s, i, false, "") == Some((a, SkipFrom(s, i + |body| + 2)))
  {
    hide Characters, SkipFrom, EscapeAll;
    StandsSplit(s, i, "\"", body + "\"");
    StandsChar(s, i, "\"", 0);
    OpeningQuote(s, i);
    QuotedRoundTrip(s, i + 1, a, "");
    assert "" + a == a;
  }

  lemma CodeRoundTrip(s: CString, i: nat, a: Arg)
    requires Stands(s, i, EncodeArg(a)) && Ends(s, i + |EncodeArg(a)|)
    ensures Characters(s, i, false, "") == Some((a, SkipFrom(s, i + |EncodeArg(a)|)))
  {
    hide Characters, SkipFrom, HasMeta, EscapeAll, Stands, Ends;
    if a == "" || HasMeta(a) {
      QuotedCode(s, i, a, EscapeAll(a));
    } else {
      PlainRoundTrip(s, i, a, "");
      assert "" + a == a;
    }
  }

  lemma ArgumentRoundTrip(s: CString, i: nat, a: Arg)
    requires Stands(s, i, EncodeArg(a)) && Ends(s, i + |EncodeArg(a)|)
    ensures ArgumentAt(s, i) == Some((a, SkipFrom(s, i + |EncodeArg(a)|)))
  {
    hide Characters, EncodeArg, SkipFrom;
    var code := EncodeArg(a);
    EncodeArgStart(a);
    StandsChar(s, i, code, 0);
    SkipNothing(s, i);
    SkipNothing(s, SkipFrom(s, i + |code|));
    CodeRoundTrip(s, i, a);
  }

  lemma OpeningQuote(s: CString, i: nat)
    requires i < |s| && s[i] == '"'
    ensures Characters(s, i, false, "") == Characters(s, i + 1, true, "")
  {
    assert CharacterAt(s, i, false) == CharacterAt(s, i + 1, true);
  }

  /** The first argument is read, and the cursor stands at the code of the others. */
  lemma FirstArgument(s: CString, i: nat, args: seq<Arg>) returns (k: nat)
    requires i <= |s| && s[i..] == Encode(args) && args != []
    ensures i < k <= |s| && s[k..] == Encode(args[1..])
    ensures ArgumentAt(s, i) == Some((args[0], k))
  {
    hide EncodeArg, ArgumentAt;
    var code := EncodeArg(args[0]);
    EncodeArgStart(args[0]);
    var j := i + |code|;
    if |args| == 1 {
      assert Stands(s, i, code);
      ArgumentRoundTrip(s, i, args[0]);
      SkipNothing(s, j);
      k := j;
    } else {
      var more := " " + Encode(args[1..]);
      assert Stands(s, i, code + more);
      StandsSplit(s, i, code, more);
      StandsChar(s, j, more, 0);
      ArgumentRoundTrip(s, i, args[0]);
      NextStart(args[1..]);
      k := j + 1;
      assert s[k..] == Encode(args[1..]);
      SkipNothing(s, k);
    }
  }

  lemma {:induction false} ArgumentsRoundTrip(s: CString, i: nat, args: seq<Arg>, done: seq<string>)
    requires i <= |s| && s[i..] == Encode(args) && |done| <= MAX_ARGS
    ensures Arguments(s, i, done) == if |done| + |args| <= MAX_ARGS then Some(done + args) else None
    decreases |args|
  {
    hide EncodeArg, ArgumentAt;
    if args == [] {
      assert done + args == done;
    } else {
      var k := FirstArgument(s, i, args);
      if |done| < MAX_ARGS {
        ArgumentsRoundTrip(s, k, args[1..], done + [args[0]]);
        assert (done + [args[0]]) + args[1..] == done + args;
      }
    }
  }

  lemma NextStart(args: seq<Arg>)
    requires args != []
    ensures Encode(args) != "" && !IsSpace(Encode(args)[0])
  {
    hide EncodeArg;
    EncodeArgStart(args[0]);
  }

  lemma {:induction false} NoNulEscaped(a: Arg)
    ensures '\0' !in EscapeAll(a)
  {
    if a == "" {
    } else {
      NoNulEscaped(a[1..]);
    }
  }

  lemma {:induction false} EncodeIsCString(args: seq<Arg>)
    ensures '\0' !in Encode(args)
  {
    if args == [] {
    } else {
      NoNulEscaped(args[0]);
      hide EscapeAll;
      assert '\0' !in EncodeArg(args[0]);
      EncodeIsCString(args[1..]);
    }
  }

  /** Every list of arguments is read back, up to the 256 the decoder accepts; longer lists it refuses. */
  lemma RoundTrip(args: seq<Arg>)
    ensures '\0' !in Encode(args)
    ensures Decode(Encode(args)) == if |args| <= MAX_ARGS then Some(args) else None
  {
    hide Encode, Arguments;
    EncodeIsCString(args);
    var s := Encode(args);
    if args != [] { NextStart(args); }
    assert args == [] ==> s == "" by { EmptyLine(); }
    SkipNothing(s, 0);
    assert s[0..] == s;
    ArgumentsRoundTrip(s, 0, args, []);
    assert [] + args == args;
  }

  lemma EmptyLine()
    ensures Encode([]) == ""
  {}

  // ---------- what an encoded line looks like ----------

  predicate AllPrint(s: string) { forall i :: 0 <= i < |s| ==> IsPrint(s[i]) }

  lemma PrintAppend(s: string, t: string)
    requires AllPrint(s) && AllPrint(t)
    ensures AllPrint(s + t)
  {}

  /** Printable characters stand for themselves but for the quote and the backslash; the escapes with a
      letter take two characters, all others four. */
  lemma EscapeShape(c: char)
    requires 1 <= c as int < 256
    ensures AllPrint(Escape(c)) && Escape(c) != ""
    ensures Escape(c) == [c] <==> IsPrint(c) && c != '"' && c != '\\'
    ensures |Escape(c)| == 2 <==> c == '"' || c == '\\' || 7 <= c as int <= 13
    ensures |Escape(c)| == 4 <==> !IsPrint(c) && !(7 <= c as int <= 13)
  {}

  lemma {:induction false} EscapeAllPrint(a: Arg)
    ensures AllPrint(EscapeAll(a))
  {
    if a == "" {
    } else {
      hide Escape;
      EscapeShape(a[0]);
      EscapeAllPrint(a[1..]);
    }
  }

  /** An argument stands for itself exactly when it is not empty and has no metacharacters. */
  lemma EncodeArgShape(a: Arg)
    ensures AllPrint(EncodeArg(a))
    ensures EncodeArg(a) == a <==> a != "" && !HasMeta(a)
  {
    hide EscapeAll;
    EscapeAllPrint(a);
    EscapeAllLonger(a);
  }

  lemma {:induction false} EscapeAllLonger(a: Arg)
    ensures |EscapeAll(a)| >= |a|
  {
    if a == "" {
    } else {
      hide Escape;
      EscapeShape(a[0]);
      EscapeAllLonger(a[1..]);
    }
  }

  /** An encoded line is one line of printable characters, whatever the arguments are. */
  lemma {:induction false} EncodedIsPrintable(args: seq<Arg>)
    ensures AllPrint(Encode(args))
  {
    hide EncodeArg;
    if args == [] {
    } else {
      EncodeArgShape(args[0]);
      EncodedIsPrintable(args[1..]);
      PrintAppend(" ", Encode(args[1..]));
    }
  }

  // ---------- what the encoder never writes ----------

  function OctDigits(n: nat): string
    requires n < 256
  {
    ['0' + (n / 64) as char, '0' + (n / 8 % 8) as char, '0' + (n % 8) as char]
  }

  /** A backslash and three octal digits stand for the character of that number, up to 377. */
  lemma OctalEscape(s: CString, i: nat, n: nat)
    requires n < 256 && Stands(s, i, "\\" + OctDigits(n))
    ensures CharacterAt(s, i, true) == Some(Decoded(n as char, i + 4, true))
  {
    var e := "\\" + OctDigits(n);
    StandsChar(s, i, e, 0);
    StandsChar(s, i, e, 1);
    StandsChar(s, i, e, 2);
    StandsChar(s, i, e, 3);
    assert 64 * (n / 64) + 8 * (n / 8 % 8) + n % 8 == n;
  }

  function Upper(c: char): char { if 'a' <= c <= 'f' then c - 'a' + 'A' else c }

  /** Hexadecimal digits of either case, in any mixture. */
  lemma HexEscape(s: CString, i: nat, c: char, high: char, low: char)
    requires c as int < 256 && Stands(s, i, "\\x" + [high, low])
    requires high == EncodeHex(c)[0] || high == Upper(EncodeHex(c)[0])
    requires low == EncodeHex(c)[1] || low == Upper(EncodeHex(c)[1])
    ensures CharacterAt(s, i, true) == Some(Decoded(c, i + 4, true))
  {
    var e := "\\x" + [high, low];
    StandsChar(s, i, e, 0);
    StandsChar(s, i, e, 1);
    StandsChar(s, i, e, 2);
    StandsChar(s, i, e, 3);
    HexRoundTrip(c);
  }

  /** Plain characters are collected outside of quotes. */
  lemma {:induction false} PlainPrefix(s: CString, i: nat, a: Arg, done: string)
    requires Stands(s, i, a) && !HasMeta(a)
    ensures Characters(s, i, false, done) == Characters(s, i + |a|, false, done + a)
    decreases |a|
  {
    hide EscapeAt;
    if a == "" {
      assert done + a == done;
    } else {
      StandsChar(s, i, a, 0);
      assert a == [a[0]] + a[1..];
      StandsSplit(s, i, [a[0]], a[1..]);
      assert !HasMeta(a[1..]) by {
        assert forall k :: 0 <= k < |a[1..]| ==> a[1..][k] == a[k + 1];
      }
      PlainPrefix(s, i + 1, a[1..], done + [a[0]]);
      assert (done + [a[0]]) + a[1..] == done + a;
    }
  }

  lemma OpenQuote(s: CString, i: nat, done: string)
    requires i < |s| && s[i] == '"'
    ensures Characters(s, i, false, done) == Characters(s, i + 1, true, done)
  {
    assert CharacterAt(s, i, false) == CharacterAt(s, i + 1, true);
  }

  /** Quotes may open in the middle of an argument: both parts belong to it. */
  lemma Glued(a: Arg, b: Arg)
    requires !HasMeta(a)
    ensures '\0' !in a + ("\"" + (EscapeAll(b) + "\""))
    ensures Decode(a + ("\"" + (EscapeAll(b) + "\""))) == Some([a + b])
  {
    var quoted := "\"" + (EscapeAll(b) + "\"");
    var s := a + quoted;
    NoNulEscaped(b);
    hide Characters, EscapeAll, CharacterAt, SkipFrom, HasMeta;
    var n := |s|;
    assert Stands(s, 0, a + quoted);
    StandsSplit(s, 0, a, quoted);
    StandsSplit(s, |a|, "\"", EscapeAll(b) + "\"");
    StandsChar(s, |a|, "\"", 0);
    GluedStart(s, a);
    PlainPrefix(s, 0, a, "");
    OpenQuote(s, |a|, "" + a);
    QuotedRoundTrip(s, |a| + 1, b, "" + a);
    assert ("" + a) + b == a + b;
    SkipNothing(s, n);
    assert ArgumentAt(s, 0) == Some((a + b, n));
    assert Arguments(s, n, [a + b]) == Some([a + b]);
    assert [] + [a + b] == [a + b];
  }

  lemma GluedStart(s: CString, a: Arg)
    requires !HasMeta(a) && |a| < |s| && s[..|a|] == a && s[|a|] == '"'
    ensures SkipFrom(s, 0) == 0
  {
    assert a != "" ==> s[0] == a[0];
  }

  /** A quote that is never closed is refused. */
  lemma {:induction false} Unclosed(s: CString, i: nat, a: Arg, done: string)
    requires Stands(s, i, EscapeAll(a)) && i + |EscapeAll(a)| == |s|
    ensures Characters(s, i, true, done) == None
    decreases |a|
  {
    hide Escape, Characters, SkipFrom, CharacterAt;
    if a == "" {
      EndInQuotes(s, done);
    } else {
      StandsSplit(s, i, Escape(a[0]), EscapeAll(a[1..]));
      EscapeRoundTrip(s, i, a[0]);
      NextCharacter(s, i, i + |Escape(a[0])|, true, a[0], done);
      Unclosed(s, i + |Escape(a[0])|, a[1..], done + [a[0]]);
    }
  }

  lemma EndInQuotes(s: CString, done: string)
    ensures Characters(s, |s|, true, done) == None
  {
    assert CharacterAt(s, |s|, true) == None;
  }

  lemma UnclosedLine(a: Arg)
    ensures '\0' !in "\"" + EscapeAll(a)
    ensures Decode("\"" + EscapeAll(a)) == None
  {
    var s := "\"" + EscapeAll(a);
    NoNulEscaped(a);
    hide Characters, EscapeAll, CharacterAt;
    assert Stands(s, 0, "\"" + EscapeAll(a));
    StandsSplit(s, 0, "\"", EscapeAll(a));
    OpenQuote(s, 0, "");
    Unclosed(s, 1, a, "");
  }

  /** Unprintable characters are refused wherever a character is read, inside quotes or outside. */
  lemma UnprintableCharacter(s: CString, i: nat, quoted: bool)
    requires i < |s| && !IsPrint(s[i])
    ensures CharacterAt(s, i, quoted) == None
  {}

  lemma UnprintableLine(a: Arg, c: char, t: CString)
    requires !HasMeta(a) && !IsPrint(c) && c != '\0' && (a != "" || !IsSpace(c))
    ensures '\0' !in a + ([c] + t)
    ensures Decode(a + ([c] + t)) == None
  {
    var s := a + ([c] + t);
    hide CharacterAt, SkipFrom;
    assert Stands(s, 0, a);
    assert !IsSpace(s[0]) by { assert a != "" ==> s[0] == a[0]; }
    SkipNothing(s, 0);
    PlainPrefix(s, 0, a, "");
    UnprintableCharacter(s, |a|, false);
  }

  /** The characters that may stand behind a backslash in quotes; digits have to follow some of them. */
  predicate Escapable(c: char) {
    c in {'"', '\\', 'f', 'n', 'r', 't', 'a', 'b', 'v', '0', '1', '2', '3', 'x'}
  }

  lemma BadEscape(s: CString, i: nat)
    requires i < |s| && s[i] == '\\'
    ensures !Escapable(At(s, i + 1)) ==> CharacterAt(s, i, true) == None
    ensures '0' <= At(s, i + 1) <= '3' && !('0' <= At(s, i + 2) <= '7' && '0' <= At(s, i + 3) <= '7')
            ==> CharacterAt(s, i, true) == None
    ensures At(s, i + 1) == 'x' && (HexValue(At(s, i + 2)) == None || HexValue(At(s, i + 3)) == None)
            ==> CharacterAt(s, i, true) == None
  {}

  /** What is a hexadecimal digit, and its value. */
  lemma HexDigits(c: char)
    ensures HexValue(c) != None <==> '0' <= c <= '9' || 'a' <= c <= 'f' || 'A' <= c <= 'F'
    ensures forall n: nat :: n < 16 ==> (HexValue(c) == Some(n) <==> c == HexDigit(n) || Upper(HexDigit(n)) == c)
  {}
}
