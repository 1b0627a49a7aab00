/** bif/client.cc: reading replies off a connection, one byte at a time. A reply is a description line,
    a body of lines, and a line with a single dot. */
module Reply {
  import opened Text

  datatype Message = Message(code: int, desc: string, data: string)

  /** The test made on every newline: is the line just read a single dot? */
  predicate DotLine(data: string) {
    (|data| == 1 && data[0] == '.')
    || (|data| > 1 && data[|data| - 1] == '.' && data[|data| - 2] == '\n')
  }

  /** The second loop: what has been read, and what is left on the connection. */
  function Body(s: string, data: string): Option<(string, string)> {
    if s == "" then None
    else if s[0] == '\n' && DotLine(data) then Some((data, s[1..]))
    else Body(s[1..], data + [s[0]])
  }

  function One(s: string): Option<(Message, string)> {
    match Cut(s, '\n')
    case None => None
    case Some((desc, rest)) =>
      match Body(rest, "")
      case None => None
      case Some((data, left)) =>
        Some((Message(Atoi(desc), desc, if data == "" then "" else data[..|data| - 1]), left))
  }

  class Connection {
    /** The bytes the peer has sent and nobody has read. */
    var pending: string

    constructor (bytes: string)
      ensures pending == bytes
    {
      pending := bytes;
    }

    /** read(&c, 1): one byte, or nothing at the end. */
    method Read() returns (c: Option<char>)
      modifies this
      ensures old(pending) == "" ==> c == None && pending == ""
      ensures old(pending) != "" ==> c == Some(old(pending)[0]) && pending == old(pending)[1..]
    {
      if pending == "" { return None; }
      c := Some(pending[0]);
      pending := pending[1..];
    }

    method ReadDescription() returns (desc: Option<string>)
      modifies this
      ensures Cut(old(pending), '\n').None? ==> desc == None && pending == ""
      ensures Cut(old(pending), '\n').Some? ==>
        desc == Some(Cut(old(pending), '\n').value.0) && pending == Cut(old(pending), '\n').value.1
    {
      hide Find;
      ghost var whole := pending;
      var line := "";
      var c := Read();
      assert c.Some? ==> line + [c.value] + pending == whole;
      while c.Some? && c.value != '\n'
        invariant c.None? ==> line == whole && pending == ""
        invariant c.Some? ==> line + [c.value] + pending == whole
        invariant '\n' !in line
        decreases c.Some?, |pending|
      {
        ghost var before := line + [c.value] + pending;
        line := line + [c.value];
        c := Read();
        assert c.Some? ==> line + [c.value] + pending == before;
      }
      if c.None? { return None; }
      CutAt(line, '\n', pending);
      return Some(line);
    }

    method ReadData() returns (data: Option<string>)
      modifies this
      ensures Body(old(pending), "").None? ==> data == None && pending == ""
      ensures Body(old(pending), "").Some? ==>
        data == Some(Body(old(pending), "").value.0) && pending == Body(old(pending), "").value.1
    {
      ghost var whole := pending;
      var read := "";
      var c := Read();
      while c.Some? && !(c.value == '\n' && DotLine(read))
        invariant c.None? ==> Body(whole, "") == None && pending == ""
        invariant c.Some? ==> Body([c.value] + pending, read) == Body(whole, "")
        decreases c.Some?, |pending|
      {
        assert ([c.value] + pending)[1..] == pending;
        ghost var left := pending;
        read := read + [c.value];
        c := Read();
        assert c.Some? ==> [c.value] + pending == left;
      }
      if c.None? { return None; }
      assert ([c.value] + pending)[1..] == pending;
      return Some(read);
    }

    /** read_one_message: -1 when the connection ends too early, and then every byte is used up. */
    method ReadOneMessage() returns (m: Option<Message>)
      modifies this
      ensures One(old(pending)).None? ==> m == None && pending == ""
      ensures One(old(pending)).Some? ==>
        m == Some(One(old(pending)).value.0) && pending == One(old(pending)).value.1
    {
      hide Cut, Body;
      var desc := ReadDescription();
      if desc.None? { return None; }
      var data := ReadData();
      if data.None? { return None; }
      return Some(Message(Atoi(desc.value), desc.value,
                          if data.value == "" then "" else data.value[..|data.value| - 1]));
    }
  }

  // ---------- what is written is read ----------

  /** The server's "%s\n%s.\n". */
  function Written(desc: string, body: string): string {
    desc + ['\n'] + (body + ".\n")
  }

  /** A body is made of whole lines. */
  predicate WholeLines(body: string) {
    body == "" || body[|body| - 1] == '\n'
  }

  /** One of its lines is a single dot. */
  ghost predicate HasDotLine(body: string) {
    exists k :: 0 <= k < |body| && body[k] == '\n' && DotLine(body[..k])
  }

  lemma {:induction false} BodyStops(s: string, data: string, k: nat)
    requires k < |s| && s[k] == '\n' && DotLine(data + s[..k])
    requires forall j :: 0 <= j < k ==> !(s[j] == '\n' && DotLine(data + s[..j]))
    ensures Body(s, data) == Some((data + s[..k], s[k + 1..]))
    decreases k
  {
    if k == 0 {
      assert data + s[..0] == data;
    } else {
      assert data + s[..0] == data;
      var t, d := s[1..], data + [s[0]];
      assert forall j :: 0 <= j < k ==> d + t[..j] == data + s[..j + 1] by {
        forall j | 0 <= j < k ensures d + t[..j] == data + s[..j + 1] {
          assert s[..j + 1] == [s[0]] + t[..j];
        }
      }
      forall j | 0 <= j < k - 1
        ensures !(t[j] == '\n' && DotLine(d + t[..j]))
      {
        assert t[j] == s[j + 1];
      }
      BodyStops(t, d, k - 1);
    }
  }

  /** The first place where the reader stops. */
  lemma FirstStop(s: string, k: nat) returns (i: nat)
    requires k < |s| && s[k] == '\n' && DotLine(s[..k])
    ensures i <= k && s[i] == '\n' && DotLine(s[..i])
    ensures forall j :: 0 <= j < i ==> !(s[j] == '\n' && DotLine(s[..j]))
  {
    i := 0;
    while !(s[i] == '\n' && DotLine(s[..i]))
      invariant i <= k
      invariant forall j :: 0 <= j < i ==> !(s[j] == '\n' && DotLine(s[..j]))
      decreases k - i
    {
      i := i + 1;
    }
  }

  lemma BodyBack(body: string, rest: string)
    requires WholeLines(body)
    ensures
      var r := Body(body + ".\n" + rest, "");
      && r.Some?
      && if HasDotLine(body) then |r.value.0| < |body| else r.value == (body + ".", rest)
  {
    var s := body + ".\n" + rest;
    var n := |body| + 1;
    assert s[n] == '\n' && s[..n] == body + ".";
    var i := FirstStop(s, n);
    hide Body, DotLine;
    assert "" + s[..i] == s[..i];
    assert forall j :: 0 <= j < i ==> "" + s[..j] == s[..j];
    BodyStops(s, "", i);
    StopInside(body, rest, i);
    assert i == n ==> s[i + 1..] == rest;
  }

  /** One reply followed by anything: the reader takes exactly its bytes and gives back its two parts,
      if and only if no line of the body is a single dot. */
  lemma ReadsBack(desc: string, body: string, rest: string)
    requires '\n' !in desc && WholeLines(body)
    ensures One(Written(desc, body) + rest) == Some((Message(Atoi(desc), desc, body), rest)) <==> !HasDotLine(body)
  {
    hide Atoi, Find, Body, HasDotLine;
    var s := body + ".\n" + rest;
    assert Written(desc, body) + rest == desc + ['\n'] + s;
    CutAt(desc, '\n', s);
    BodyBack(body, rest);
    assert (body + ".")[..|body + "."| - 1] == body;
  }

  lemma StopInside(body: string, rest: string, i: nat)
    requires WholeLines(body)
    requires
      var s := body + ".\n" + rest;
      && i <= |body| + 1 && s[i] == '\n' && DotLine(s[..i])
      && forall j :: 0 <= j < i ==> !(s[j] == '\n' && DotLine(s[..j]))
    ensures i < |body| <==> HasDotLine(body)
    ensures i != |body|
  {
    var s := body + ".\n" + rest;
    if i < |body| {
      assert s[..i] == body[..i] && body[i] == '\n';
    }
    if HasDotLine(body) {
      var k :| 0 <= k < |body| && body[k] == '\n' && DotLine(body[..k]);
      assert s[k] == '\n' && s[..k] == body[..k];
    }
  }

  // ---------- many replies ----------

  datatype Sent = Sent(desc: string, body: string)

  ghost predicate WellFormed(r: Sent) {
    '\n' !in r.desc && WholeLines(r.body) && !HasDotLine(r.body)
  }

  function Stream(rs: seq<Sent>): string {
    if rs == [] then "" else Written(rs[0].desc, rs[0].body) + Stream(rs[1..])
  }

  function Received(r: Sent): Message { Message(Atoi(r.desc), r.desc, r.body) }

  /** n calls of read_one_message. */
  function Many(s: string, n: nat): Option<(seq<Message>, string)>
    decreases n
  {
    if n == 0 then Some(([], s))
    else
      match One(s)
      case None => None
      case Some((m, left)) =>
        match Many(left, n - 1)
        case None => None
        case Some((ms, end)) => Some(([m] + ms, end))
  }

  lemma {:induction false} ManyReadBack(rs: seq<Sent>, rest: string)
    requires forall r :: r in rs ==> WellFormed(r)
    ensures Many(Stream(rs) + rest, |rs|) == Some((seq(|rs|, i requires 0 <= i < |rs| => Received(rs[i])), rest))
    decreases |rs|
  {
    hide One, Atoi, WellFormed, Written;
    if rs == [] {
      assert Stream(rs) + rest == rest;
    } else {
      var r, others := rs[0], rs[1..];
      var tail := Stream(others) + rest;
      assert Stream(rs) + rest == Written(r.desc, r.body) + tail;
      FirstReadBack(r, tail);
      ManyReadBack(others, rest);
      var all := seq(|rs|, i requires 0 <= i < |rs| => Received(rs[i]));
      assert all == [Received(r)] + seq(|others|, i requires 0 <= i < |others| => Received(others[i]));
    }
  }

  lemma FirstReadBack(r: Sent, tail: string)
    requires WellFormed(r)
    ensures One(Written(r.desc, r.body) + tail) == Some((Received(r), tail))
  {
    ReadsBack(r.desc, r.body, tail);
  }

  /** Replies as the server writes them, a code and words behind it: the code is read as the number. */
  lemma CodedReply(code: nat, words: string, body: string, rest: string)
    requires '\n' !in words && WholeLines(body)
    ensures
      var desc := Dec(code) + ([' '] + words);
      One(Written(desc, body) + rest) == Some((Message(code, desc, body), rest)) <==> !HasDotLine(body)
  {
    hide Dec, Atoi, HasDotLine, One;
    var desc := Dec(code) + ([' '] + words);
    AtoiOfPrefix(code, [' '] + words);
    assert '\n' !in Dec(code);
    ReadsBack(desc, body, rest);
  }
}
