/** dx/log.cc and dx/x.cc: logged transactions. Every begin, commit and abort is one line appended to a
    file; opening the file replays it and appends an abort for whatever was left unfinished. */
module TxLog {
  import opened Text
  import CommandLine

  datatype XState = Null | Begun | Committed | Aborted

  datatype Verb = Begin | Commit | Abort

  datatype Record = Record(verb: Verb, id: nat)

  /** Ids are 32-bit; from 2^31 on they no longer fit the int that counts the state array. */
  const ID_LIMIT := 0x8000_0000
  const ID_MODULUS := 0x1_0000_0000

  function Word(v: Verb): string {
    match v
    case Begin => "begin"
    case Commit => "commit"
    case Abort => "abort"
  }

  function Outcome(v: Verb): XState {
    match v
    case Begin => Begun
    case Commit => Committed
    case Abort => Aborted
  }

  /** The sprintf of _write_begin and its siblings, without the newline. */
  function Line(r: Record): CString {
    Word(r.verb) + [' '] + Dec(r.id)
  }

  function Bytes(rs: seq<Record>): CString {
    if rs == [] then "" else Line(rs[0]) + ['\n'] + Bytes(rs[1..])
  }

  // ---------- the memory of a log ----------

  datatype Mem = Mem(state: seq<XState>, counter: nat)

  const FRESH := Mem([], 0)

  function Nulls(n: nat): seq<XState> { seq(n, i => Null) }

  /** The first allocation is for 64 entries, whatever the id; later ones double or reach the id. */
  function Grown(state: seq<XState>, id: nat): (r: seq<XState>)
    ensures |state| <= |r| && r[..|state|] == state
    ensures forall i :: |state| <= i < |r| ==> r[i] == Null
    ensures Fits(state, id) ==> id < |r|
  {
    if |state| == 0 then Nulls(64)
    else if |state| <= id then
      state + Nulls((if 2 * |state| <= id then id + 1 else 2 * |state|) - |state|)
    else state
  }

  /** Outside this _state_grow leaves an array into which the id does not fit. */
  predicate Fits(state: seq<XState>, id: nat) {
    id < ID_LIMIT && (|state| == 0 ==> id < 64)
  }

  /** The array reaches the id exactly when Fits says so, and it never more than doubles without need. */
  lemma GrownReaches(state: seq<XState>, id: nat)
    requires id < ID_LIMIT
    ensures id < |Grown(state, id)| <==> Fits(state, id)
    ensures |Grown(state, id)| <= 64 || |Grown(state, id)| <= 2 * |state| || |Grown(state, id)| == id + 1
  {}

  function Apply(m: Mem, r: Record): (m': Mem)
    requires Fits(m.state, r.id)
    ensures |m'.state| > r.id && m'.counter > r.id
  {
    Mem(Grown(m.state, r.id)[r.id := Outcome(r.verb)], if r.id >= m.counter then r.id + 1 else m.counter)
  }

  /** What the log says about one id. */
  function Status(m: Mem, id: nat): XState {
    if id < |m.state| then m.state[id] else Null
  }

  // ---------- replay ----------

  /** A line that sync acts upon; other lines are skipped. */
  function RecordOf(argv: seq<string>): Option<Record> {
    if |argv| != 2 then None
    else
      var id := Atoi(argv[1]) % ID_MODULUS;
      if argv[0] == "begin" then Some(Record(Begin, id))
      else if argv[0] == "abort" then Some(Record(Abort, id))
      else if argv[0] == "commit" then Some(Record(Commit, id))
      else None
  }

  datatype Replayed = Done(mem: Mem) | BadLine | Overrun

  /** The first loop of sync: it ends at the last newline, or at a line that cannot be decoded. */
  function Replay(m: Mem, s: CString): Replayed
    decreases |s|
  {
    match Cut(s, '\n')
    case None => Done(m)
    case Some((line, rest)) =>
      match CommandLine.Decode(line)
      case None => BadLine
      case Some(argv) =>
        match RecordOf(argv)
        case None => Replay(m, rest)
        case Some(r) => if Fits(m.state, r.id) then Replay(Apply(m, r), rest) else Overrun
  }

  /** The second loop of sync: an abort for every id still begun. */
  function Aborts(state: seq<XState>, i: nat, counter: nat): seq<Record>
    requires counter <= |state|
    decreases counter - i
  {
    if i >= counter then []
    else if state[i] == Begun then [Record(Abort, i)] + Aborts(state, i + 1, counter)
    else Aborts(state, i + 1, counter)
  }

  // ---------- the objects ----------

  datatype SyncResult = Synced | SyncBadLine | SyncOverrun

  class Log {
    var file: CString
    var pos: nat
    var state: array<XState>
    var counter: nat

    function Memory(): Mem
      reads this, state
    {
      Mem(state[..], counter)
    }

    /** A new log object on an existing file; open() goes on to call Sync. */
    constructor (file: CString)
      ensures this.file == file && pos == 0 && Memory() == FRESH && fresh(state)
    {
      this.file := file;
      pos := 0;
      counter := 0;
      state := new XState[0];
      new;
      assert Memory() == Mem([], 0);
    }

    method StateGrow(id: nat)
      modifies this`state
      ensures state[..] == Grown(old(state[..]), id)
      ensures state == old(state) || fresh(state)
    {
      var n := state.Length;
      var size := n;
      if n == 0 {
        size := 64;
      } else if n <= id {
        size := n * 2;
        if size <= id {
          size := id + 1;
        }
      } else {
        return;
      }
      var previous := state;
      var grown := new XState[size];
      forall i | 0 <= i < n { grown[i] := previous[i]; }
      var i := size - 1;
      while i >= n
        invariant n - 1 <= i < size
        invariant previous[..] == old(state[..])
        invariant forall j :: 0 <= j < n ==> grown[j] == previous[j]
        invariant forall j :: i < j < size ==> grown[j] == Null
      {
        grown[i] := Null;
        i := i - 1;
      }
      assert grown[..] == Grown(previous[..], id);
      state := grown;
    }

    /** x_begin, x_abort and x_commit. */
    method Mark(verb: Verb, id: nat)
      requires Fits(state[..], id)
      modifies this`state, this`counter, state
      ensures Memory() == Apply(old(Memory()), Record(verb, id))
      ensures state == old(state) || fresh(state)
    {
      StateGrow(id);
      if id >= counter {
        counter := id + 1;
      }
      state[id] := Outcome(verb);
    }

    /** The next line, without its newline; nothing when there is no complete line. */
    method Read() returns (line: Option<CString>)
      requires pos <= |file|
      modifies this`pos
      ensures pos <= |file|
      ensures
        match Cut(file[old(pos)..], '\n')
        case None => line == None && pos == old(pos)
        case Some((l, rest)) => line == Some(l) && file[pos..] == rest && pos > old(pos)
    {
      var c := Cut(file[pos..], '\n');
      if c.None? { return None; }
      var l, rest := c.value.0, c.value.1;
      assert file[pos..] == l + ['\n'] + rest;
      assert file[pos + |l| + 1..] == rest by {
        assert (l + ['\n'] + rest)[|l| + 1..] == rest;
        assert file[pos..][|l| + 1..] == file[pos + |l| + 1..];
      }
      pos := pos + |l| + 1;
      return Some(l);
    }

    method Write(r: Record)
      modifies this`file
      ensures file == old(file) + Bytes([r])
    {
      assert Bytes([r]) == Line(r) + ['\n'] by {
        assert [r][1..] == [];
        assert Line(r) + ['\n'] + "" == Line(r) + ['\n'];
      }
      file := file + Bytes([r]);
    }

    method NewXId() returns (id: nat)
      modifies this`counter
      ensures id == old(counter) && counter == old(counter) + 1
    {
      id := counter;
      counter := counter + 1;
    }

    method Sync() returns (result: SyncResult)
      requires pos <= |file| && counter <= state.Length
      modifies this, state
      ensures
        match Replay(old(Memory()), old(file[pos..]))
        case Done(m) => result == Synced && counter <= state.Length && Memory() == m
                        && file == old(file) + Bytes(Aborts(m.state, 0, m.counter))
        case BadLine => result == SyncBadLine && file == old(file)
        case Overrun => result == SyncOverrun && file == old(file)
    {
      hide Replay, Aborts, Bytes;
      result := ReplayLoop();
      if result == Synced {
        Sweep();
      }
    }

    method Sweep()
      requires counter <= state.Length
      modifies this`file
      ensures file == old(file) + Bytes(Aborts(state[..], 0, counter))
    {
      hide Line;
      var i := 0;
      while i < counter
        invariant 0 <= i <= counter
        invariant file + Bytes(Aborts(state[..], i, counter)) == old(file) + Bytes(Aborts(state[..], 0, counter))
      {
        if state[i] == Begun {
          ghost var rest := Aborts(state[..], i + 1, counter);
          ghost var f := file;
          AbortUnfinished(i);
          BytesCons(Record(Abort, i), rest);
          assert file + Bytes(rest) == f + (Bytes([Record(Abort, i)]) + Bytes(rest));
        }
        i := i + 1;
      }
      assert file + "" == file;
    }

    method AbortUnfinished(id: nat)
      modifies this`file
      ensures file == old(file) + Bytes([Record(Abort, id)])
    {
      var x := new X(this);
      x.state := Begun;
      x.id := id;
      var r := x.Abort();
    }

    method ReplayLoop() returns (result: SyncResult)
      requires pos <= |file| && counter <= state.Length
      modifies this`pos, this`state, this`counter, state
      ensures
        match Replay(old(Memory()), old(file[pos..]))
        case Done(m) => result == Synced && counter <= state.Length && Memory() == m
        case BadLine => result == SyncBadLine
        case Overrun => result == SyncOverrun
      ensures state == old(state) || fresh(state)
    {
      hide CommandLine.Decode, Find;
      ghost var goal := Replay(Memory(), file[pos..]);
      ghost var s: CString := file[pos..];
      var line := Read();
      while line.Some?
        invariant pos <= |file| && counter <= state.Length
        invariant state == old(state) || fresh(state)
        invariant Replay(Memory(), s) == goal
        invariant match Cut(s, '\n')
                  case None => line == None
                  case Some((l, rest)) => line == Some(l) && file[pos..] == rest
        decreases line.Some?, |file| - pos
      {
        var argv := CommandLine.DecodeString(line.value);
        if argv.None? { return SyncBadLine; }
        var r := RecordOf(argv.value);
        if r.Some? {
          if !Fits(state[..], r.value.id) { return SyncOverrun; }
          Mark(r.value.verb, r.value.id);
        }
        s := file[pos..];
        line := Read();
      }
      return Synced;
    }
  }

  class X {
    const log: Log
    var id: nat
    var state: XState

    constructor (log: Log)
      ensures this.log == log && state == Null
    {
      this.log := log;
      id := ID_MODULUS - 1;
      state := Null;
    }

    /** begin: an unfinished transaction of the same object is aborted first. */
    method Begin() returns (result: int)
      modifies this, log`file, log`counter
      ensures result == 0 && state == Begun
      ensures id == old(log.counter) && log.counter == id + 1
      ensures log.file == old(log.file)
                          + Bytes(if old(state) == Begun then [Record(Verb.Abort, old(id)), Record(Verb.Begin, id)]
                                  else [Record(Verb.Begin, id)])
      ensures old(state) != Begun && old(log.counter) < ID_LIMIT ==> forall live: set<nat> ::
        System(log.file, log.counter, live + {id}) == Next(System(old(log.file), old(log.counter), live), BeginStep)
      ensures old(state) == Begun && old(log.counter) < ID_LIMIT ==> forall live: set<nat> :: old(id) in live ==>
        System(log.file, log.counter, live - {old(id)} + {id})
        == Next(Next(System(old(log.file), old(log.counter), live), AbortStep(old(id))), BeginStep)
    {
      ghost var aborting := state == Begun;
      ghost var id0 := id;
      if state == Begun {
        var r := Abort();
      }
      state := Begun;
      id := log.NewXId();
      log.Write(Record(Verb.Begin, id));
      result := 0;
      if aborting {
        BytesCons(Record(Verb.Abort, id0), [Record(Verb.Begin, id)]);
        assert [Record(Verb.Abort, id0)] + [Record(Verb.Begin, id)]
            == [Record(Verb.Abort, id0), Record(Verb.Begin, id)];
        assert (old(log.file) + Bytes([Record(Verb.Abort, id0)])) + Bytes([Record(Verb.Begin, id)])
            == old(log.file) + (Bytes([Record(Verb.Abort, id0)]) + Bytes([Record(Verb.Begin, id)]));
      }
    }

    method Commit() returns (result: int)
      modifies this`state, log`file
      ensures old(state) != Begun ==> result == -1 && state == old(state) && log.file == old(log.file)
      ensures old(state) == Begun ==>
        result == 0 && state == Committed && log.file == old(log.file) + Bytes([Record(Verb.Commit, id)])
      ensures old(state) == Begun ==> forall live: set<nat> :: id in live ==>
        System(log.file, log.counter, live - {id})
        == Next(System(old(log.file), old(log.counter), live), CommitStep(id))
    {
      if state != Begun { return -1; }
      state := Committed;
      log.Write(Record(Verb.Commit, id));
      return 0;
    }

    method Abort() returns (result: int)
      modifies this`state, log`file
      ensures old(state) != Begun ==> result == -1 && state == old(state) && log.file == old(log.file)
      ensures old(state) == Begun ==>
        result == 0 && state == Aborted && log.file == old(log.file) + Bytes([Record(Verb.Abort, id)])
      ensures old(state) == Begun ==> forall live: set<nat> :: id in live ==>
        System(log.file, log.counter, live - {id})
        == Next(System(old(log.file), old(log.counter), live), AbortStep(id))
    {
      if state != Begun { return -1; }
      state := Aborted;
      log.Write(Record(Verb.Abort, id));
      return 0;
    }
  }

  lemma BytesCons(r: Record, rs: seq<Record>)
    ensures Bytes([r] + rs) == Bytes([r]) + Bytes(rs)
  {
    assert ([r] + rs)[1..] == rs && [r][1..] == [];
    assert Bytes([]) == "";
    assert Line(r) + ['\n'] + "" == Line(r) + ['\n'];
  }

  // ---------- records survive the trip through the file ----------

  lemma DecodeLine(r: Record)
    requires r.id < ID_LIMIT
    ensures CommandLine.Decode(Line(r)) == Some([Word(r.verb), Dec(r.id)])
  {
    var w, d := Word(r.verb), Dec(r.id);
    PlainArgument(d);
    WordIsPlain(r.verb);
    var args: seq<CommandLine.Arg> := [w, d];
    hide CommandLine.EncodeArg, CommandLine.Decode, Dec, Word;
    assert args[1..] == [d];
    assert CommandLine.Encode(args) == w + (" " + d);
    assert w + (" " + d) == Line(r);
    CommandLine.RoundTrip(args);
  }

  lemma PlainArgument(d: string)
    requires AllDigits(d) && d != ""
    ensures CommandLine.IsArg(d) && CommandLine.EncodeArg(d) == d
  {}

  lemma LettersArePlain(w: string)
    requires w != "" && forall i :: 0 <= i < |w| ==> 'a' <= w[i] <= 'z'
    ensures CommandLine.IsArg(w) && CommandLine.EncodeArg(w) == w
  {}

  lemma WordIsPlain(v: Verb)
    ensures CommandLine.IsArg(Word(v)) && CommandLine.EncodeArg(Word(v)) == Word(v)
  {
    hide CommandLine.IsArg, CommandLine.EncodeArg;
    LettersArePlain(Word(v));
  }

  lemma RecordRoundTrip(r: Record)
    requires r.id < ID_LIMIT
    ensures RecordOf([Word(r.verb), Dec(r.id)]) == Some(r)
  {
    hide Dec, Atoi;
    AtoiOfDec(r.id);
    assert r.id % ID_MODULUS == r.id;
  }

  /** The lines as they stand in the file. */
  lemma Lines(id: nat)
    ensures Line(Record(Begin, id)) == "begin " + Dec(id)
    ensures Line(Record(Commit, id)) == "commit " + Dec(id)
    ensures Line(Record(Abort, id)) == "abort " + Dec(id)
  {
    hide Dec;
    assert "begin " == "begin" + [' '] && "commit " == "commit" + [' '] && "abort " == "abort" + [' '];
  }

  lemma LineHasNoNewline(r: Record)
    ensures '\n' !in Line(r)
  {
    hide Dec;
    assert '\n' !in Dec(r.id);
    assert '\n' !in Word(r.verb);
  }

  lemma ReplayOne(m: Mem, r: Record, rest: CString)
    requires Fits(m.state, r.id)
    ensures Replay(m, Line(r) + ['\n'] + rest) == Replay(Apply(m, r), rest)
  {
    hide Line, CommandLine.Decode, Find, RecordOf, Word, Dec;
    LineHasNoNewline(r);
    DecodeLine(r);
    RecordRoundTrip(r);
    CutAt(Line(r), '\n', rest);
  }

  /** Any other line of words is passed over. */
  lemma StrangeLine(m: Mem, args: seq<CommandLine.Arg>, rest: CString)
    requires |args| <= CommandLine.MAX_ARGS
    requires |args| != 2 || (args[0] != "begin" && args[0] != "abort" && args[0] != "commit")
    ensures '\0' !in CommandLine.Encode(args)
    ensures Replay(m, CommandLine.Encode(args) + ['\n'] + rest) == Replay(m, rest)
  {
    hide CommandLine.Encode, CommandLine.Decode, Find, Apply, Fits;
    CommandLine.RoundTrip(args);
    CommandLine.EncodedIsPrintable(args);
    assert '\n' !in CommandLine.Encode(args);
    CutAt(CommandLine.Encode(args), '\n', rest);
  }

  ghost predicate AllFit(m: Mem, rs: seq<Record>)
    decreases |rs|
  {
    rs == [] || (Fits(m.state, rs[0].id) && AllFit(Apply(m, rs[0]), rs[1..]))
  }

  ghost function ApplyAll(m: Mem, rs: seq<Record>): Mem
    requires AllFit(m, rs)
    decreases |rs|
  {
    if rs == [] then m else ApplyAll(Apply(m, rs[0]), rs[1..])
  }

  lemma {:induction false} ReplayRecords(m: Mem, rs: seq<Record>)
    requires AllFit(m, rs)
    ensures Replay(m, Bytes(rs)) == Done(ApplyAll(m, rs))
    decreases |rs|
  {
    hide Apply, Line, Fits;
    if rs == [] {
      NothingToReplay(m);
    } else {
      ReplayOne(m, rs[0], Bytes(rs[1..]));
      ReplayRecords(Apply(m, rs[0]), rs[1..]);
    }
  }

  lemma NothingToReplay(m: Mem)
    ensures Replay(m, "") == Done(m)
  {
    assert Cut("", '\n') == None;
  }

  /** A file without a torn last line. */
  predicate Terminated(s: CString) { s == "" || s[|s| - 1] == '\n' }

  /** What stands behind the last newline: a torn last line. */
  function Tail(s: CString): (t: CString)
    ensures '\n' !in t
    decreases |s|
  {
    match Cut(s, '\n')
    case None => s
    case Some((_, rest)) => Tail(rest)
  }

  /** What is appended to a file continues its torn last line. */
  lemma {:induction false} ReplayTail(m: Mem, s: CString, t: CString)
    requires Replay(m, s).Done?
    ensures Replay(m, s + t) == Replay(Replay(m, s).mem, Tail(s) + t)
    decreases |s|
  {
    hide CommandLine.Decode, Find, Apply, Fits, RecordOf;
    match Cut(s, '\n')
    case None =>
    case Some((line, rest)) =>
      assert s + t == line + ['\n'] + (rest + t);
      CutAt(line, '\n', rest + t);
      match CommandLine.Decode(line) {
        case Some(argv) =>
          match RecordOf(argv) {
            case None => ReplayTail(m, rest, t);
            case Some(r) => ReplayTail(Apply(m, r), rest, t);
          }
      }
  }

  lemma {:induction false} TerminatedTail(s: CString)
    ensures Tail(s) == "" <==> Terminated(s)
    decreases |s|
  {
    hide Find;
    match Cut(s, '\n')
    case None =>
    case Some((line, rest)) =>
      assert rest != "" ==> rest[|rest| - 1] == s[|s| - 1];
      TerminatedTail(rest);
  }

  lemma ReplayAppend(m: Mem, s: CString, t: CString)
    requires Terminated(s) && Replay(m, s).Done?
    ensures Replay(m, s + t) == Replay(Replay(m, s).mem, t)
  {
    hide Replay, Tail;
    TerminatedTail(s);
    ReplayTail(m, s, t);
    assert "" + t == t;
  }

  // ---------- recovery ----------

  /** What the appended aborts do to the memory. */
  lemma {:induction false} SweepAborts(m: Mem, state: seq<XState>, i: nat)
    requires m.counter <= |m.state| == |state| && m.counter <= ID_LIMIT && i <= m.counter
    requires forall j :: 0 <= j < i ==> m.state[j] == (if state[j] == Begun then Aborted else state[j])
    requires forall j :: i <= j < |state| ==> m.state[j] == state[j]
    ensures AllFit(m, Aborts(state, i, m.counter))
    ensures
      var m' := ApplyAll(m, Aborts(state, i, m.counter));
      && m'.counter == m.counter && |m'.state| == |state|
      && (forall j :: 0 <= j < m.counter ==> m'.state[j] == (if state[j] == Begun then Aborted else state[j]))
      && (forall j :: m.counter <= j < |state| ==> m'.state[j] == state[j])
    decreases m.counter - i
  {
    if i >= m.counter {
    } else {
      if state[i] == Begun {
        var r := Record(Abort, i);
        var rest := Aborts(state, i + 1, m.counter);
        assert ([r] + rest)[1..] == rest;
        SweepAborts(Apply(m, r), state, i + 1);
      } else {
        SweepAborts(m, state, i + 1);
      }
    }
  }

  /** No id at or above the counter has any status. */
  ghost predicate CounterAbove(m: Mem) {
    m.counter <= |m.state| && forall j :: m.counter <= j < |m.state| ==> m.state[j] == Null
  }

  lemma {:induction false} ReplayCounterAbove(m: Mem, s: CString)
    requires CounterAbove(m) && m.counter <= ID_LIMIT && Replay(m, s).Done?
    ensures CounterAbove(Replay(m, s).mem) && Replay(m, s).mem.counter <= ID_LIMIT
    decreases |s|
  {
    hide CommandLine.Decode, Find, RecordOf;
    match Cut(s, '\n')
    case None =>
    case Some((line, rest)) =>
      match CommandLine.Decode(line) {
        case Some(argv) =>
          match RecordOf(argv) {
            case None => ReplayCounterAbove(m, rest);
            case Some(r) => ReplayCounterAbove(Apply(m, r), rest);
          }
      }
  }

  /** The file after a sync of a new log object. */
  ghost function Recovered(file: CString): CString
    requires Replay(FRESH, file).Done?
    requires Replay(FRESH, file).mem.counter <= |Replay(FRESH, file).mem.state|
  {
    var m := Replay(FRESH, file).mem;
    file + Bytes(Aborts(m.state, 0, m.counter))
  }

  /** Recovery is complete: nothing stays begun, every outcome is kept, the counter is above every id
      that was ever used. It is also idempotent: a second recovery appends nothing. */
  lemma Recovery(file: CString)
    requires Terminated(file) && Replay(FRESH, file).Done?
    ensures Replay(FRESH, file).mem.counter <= |Replay(FRESH, file).mem.state|
    ensures Replay(FRESH, Recovered(file)).Done?
    ensures
      var m, m' := Replay(FRESH, file).mem, Replay(FRESH, Recovered(file)).mem;
      && m'.counter == m.counter && CounterAbove(m')
      && (forall id: nat :: Status(m', id) == if Status(m, id) == Begun then Aborted else Status(m, id))
      && (forall id: nat :: id >= m'.counter ==> Status(m', id) == Null)
    ensures Recovered(Recovered(file)) == Recovered(file)
  {
    hide CommandLine.Decode, Replay, Line;
    ReplayCounterAbove(FRESH, file);
    var m := Replay(FRESH, file).mem;
    var aborts := Aborts(m.state, 0, m.counter);
    SweepAborts(m, m.state, 0);
    ReplayRecords(m, aborts);
    ReplayAppend(FRESH, file, Bytes(aborts));
    var m' := Replay(FRESH, Recovered(file)).mem;
    ReplayCounterAbove(FRESH, Recovered(file));
    NoAborts(m'.state, 0, m'.counter);
    assert Recovered(file) + "" == Recovered(file);
  }

  lemma {:induction false} NoAborts(state: seq<XState>, i: nat, counter: nat)
    requires counter <= |state| && forall j :: 0 <= j < counter ==> state[j] != Begun
    ensures Aborts(state, i, counter) == []
    decreases counter - i
  {
    if i >= counter {
    } else {
      NoAborts(state, i + 1, counter);
    }
  }

  // ---------- torn last lines ----------

  /** Replaying the recovered file works, and it turns exactly the begun transactions into aborted ones. */
  ghost predicate Complete(file: CString)
    requires Replay(FRESH, file).Done?
    requires Replay(FRESH, file).mem.counter <= |Replay(FRESH, file).mem.state|
  {
    && Replay(FRESH, Recovered(file)).Done?
    && var m, m' := Replay(FRESH, file).mem, Replay(FRESH, Recovered(file)).mem;
       forall id: nat :: Status(m', id) == if Status(m, id) == Begun then Aborted else Status(m, id)
  }

  /** The line of the record is still read as that record when t stands before it. */
  predicate Survives(t: CString, r: Record) {
    var argv := CommandLine.Decode(t + Line(r));
    argv.Some? && RecordOf(argv.value) == Some(r)
  }

  lemma {:induction false} AbortsFacts(state: seq<XState>, i: nat, counter: nat)
    requires counter <= |state|
    ensures
      var rs := Aborts(state, i, counter);
      && (forall r :: r in rs ==> r.verb == Abort && i <= r.id < counter && state[r.id] == Begun)
      && (rs != [] ==> forall r :: r in rs[1..] ==> r.id > rs[0].id)
      && (rs == [] ==> forall j :: i <= j < counter ==> state[j] != Begun)
    decreases counter - i
  {
    if i >= counter {
    } else {
      AbortsFacts(state, i + 1, counter);
      if state[i] == Begun {
        assert ([Record(Abort, i)] + Aborts(state, i + 1, counter))[1..] == Aborts(state, i + 1, counter);
      }
    }
  }

  /** Records of other ids do not touch the status of id. */
  lemma {:induction false} OthersKeep(m: Mem, rs: seq<Record>, id: nat)
    requires |m.state| > 0 && forall r :: r in rs ==> r.id < ID_LIMIT && r.id != id
    ensures AllFit(m, rs) && Status(ApplyAll(m, rs), id) == Status(m, id)
    decreases |rs|
  {
    if rs == [] {
    } else {
      assert rs[0] in rs && forall r :: r in rs[1..] ==> r in rs;
      OthersKeep(Apply(m, rs[0]), rs[1..], id);
    }
  }

  /** The first abort as the next replay sees it, behind the torn line t. */
  lemma FirstAbort(m: Mem, t: CString, r: Record, rest: seq<Record>)
    requires '\n' !in t
    ensures
      Replay(m, t + (Line(r) + ['\n'] + Bytes(rest))) ==
      match CommandLine.Decode(t + Line(r))
      case None => BadLine
      case Some(argv) =>
        match RecordOf(argv)
        case None => Replay(m, Bytes(rest))
        case Some(x) => if Fits(m.state, x.id) then Replay(Apply(m, x), Bytes(rest)) else Overrun
  {
    hide CommandLine.Decode, Find, Line, RecordOf, Apply, Fits, Bytes;
    LineHasNoNewline(r);
    assert t + (Line(r) + ['\n'] + Bytes(rest)) == (t + Line(r)) + ['\n'] + Bytes(rest);
    CutAt(t + Line(r), '\n', Bytes(rest));
  }

  /** When the first abort is not read as it was written, its transaction does not end aborted. */
  lemma FirstLost(m: Mem, t: CString, r: Record, rest: seq<Record>)
    requires '\n' !in t && !Survives(t, r)
    requires |m.state| > 0 && Status(m, r.id) == Begun && r.verb == Abort
    requires forall x :: x in rest ==> x.id < ID_LIMIT && x.id != r.id
    ensures
      var after := Replay(m, t + (Line(r) + ['\n'] + Bytes(rest)));
      after.Done? ==> Status(after.mem, r.id) != Aborted
  {
    hide CommandLine.Decode, Line, RecordOf, Replay, Bytes, AllFit, ApplyAll;
    FirstAbort(m, t, r, rest);
    match CommandLine.Decode(t + Line(r))
    case None =>
    case Some(argv) =>
      match RecordOf(argv) {
        case None =>
          OthersKeep(m, rest, r.id);
          ReplayRecords(m, rest);
        case Some(x) =>
          if Fits(m.state, x.id) {
            OthersKeep(Apply(m, x), rest, r.id);
            ReplayRecords(Apply(m, x), rest);
          }
      }
  }

  /** For every file, torn or not: recovery is complete exactly when nothing was unfinished, or the first
      appended abort can be read behind the torn line. (Behind a terminated file it always can.) */
  lemma RecoveryIff(file: CString)
    requires Replay(FRESH, file).Done?
    ensures Replay(FRESH, file).mem.counter <= |Replay(FRESH, file).mem.state|
    ensures
      var m := Replay(FRESH, file).mem;
      var aborts := Aborts(m.state, 0, m.counter);
      Complete(file) <==> aborts == [] || Survives(Tail(file), aborts[0])
  {
    ReplayCounterAbove(FRESH, file);
    var m := Replay(FRESH, file).mem;
    var aborts := Aborts(m.state, 0, m.counter);
    AbortsFacts(m.state, 0, m.counter);
    hide Replay, Aborts, Survives, Line, Tail;
    if aborts == [] {
      assert Recovered(file) == file + "" == file;
    } else {
      var r, rest := aborts[0], aborts[1..];
      assert r in aborts && forall x :: x in rest ==> x in aborts;
      RecoveredReplay(file, m, aborts);
      hide Recovered, Bytes, CounterAbove;
      if Survives(Tail(file), r) {
        AllSurvive(m, Tail(file), aborts);
      } else {
        FirstLost(m, Tail(file), r, rest);
      }
    }
  }

  lemma RecoveredReplay(file: CString, m: Mem, aborts: seq<Record>)
    requires Replay(FRESH, file) == Done(m) && m.counter <= |m.state|
    requires aborts == Aborts(m.state, 0, m.counter) != []
    ensures Replay(FRESH, Recovered(file)) == Replay(m, Tail(file) + (Line(aborts[0]) + ['\n'] + Bytes(aborts[1..])))
  {
    hide Replay, Aborts, Line, Tail;
    ReplayTail(FRESH, file, Bytes(aborts));
  }

  lemma AllSurvive(m: Mem, t: CString, aborts: seq<Record>)
    requires CounterAbove(m) && m.counter <= ID_LIMIT && '\n' !in t
    requires aborts == Aborts(m.state, 0, m.counter) != [] && Survives(t, aborts[0])
    ensures
      var after := Replay(m, t + (Line(aborts[0]) + ['\n'] + Bytes(aborts[1..])));
      && after.Done?
      && forall id: nat :: Status(after.mem, id) == if Status(m, id) == Begun then Aborted else Status(m, id)
  {
    hide CommandLine.Decode, Line, RecordOf, Replay, Bytes, Aborts;
    FirstAbort(m, t, aborts[0], aborts[1..]);
    SweepAborts(m, m.state, 0);
    ReplayRecords(Apply(m, aborts[0]), aborts[1..]);
  }

  /** It does happen: a torn line in the middle of a word swallows the abort behind it. */
  lemma TornExample() returns (file: CString)
    ensures Replay(FRESH, file).Done?
    ensures Replay(FRESH, file).mem.counter <= |Replay(FRESH, file).mem.state|
    ensures !Complete(file)
  {
    var head, torn := Bytes([Record(Begin, 0)]), "x";
    file := head + torn;
    TornReplay(head, torn);
    RecoveryIff(file);
    TornWord(Record(Abort, 0));
  }

  lemma TornReplay(head: CString, torn: CString)
    requires head == Bytes([Record(Begin, 0)]) && torn == "x"
    ensures Replay(FRESH, head + torn).Done?
    ensures
      var m := Replay(FRESH, head + torn).mem;
      m.counter == 1 <= |m.state| && Aborts(m.state, 0, m.counter) == [Record(Abort, 0)]
    ensures Tail(head + torn) == torn
  {
    hide Line, CommandLine.Decode, Find;
    var r := Record(Begin, 0);
    assert [r][1..] == [] && Bytes([]) == "";
    LineHasNoNewline(r);
    assert head == Line(r) + ['\n'] + "" == Line(r) + ['\n'];
    assert head + torn == Line(r) + ['\n'] + torn;
    ReplayOne(FRESH, r, torn);
    CutAt(Line(r), '\n', torn);
    assert Cut(torn, '\n') == None;
    var m := Apply(FRESH, r);
    assert m.counter == 1 && m.state[0] == Begun;
    assert Aborts(m.state, 1, 1) == [];
  }

  lemma TornWord(r: Record)
    requires r == Record(Abort, 0)
    ensures !Survives("x", r)
  {
    var w, d := "xabort", Dec(0);
    PlainArgument(d);
    LettersArePlain(w);
    var args: seq<CommandLine.Arg> := [w, d];
    hide CommandLine.EncodeArg, CommandLine.Decode, Dec, CommandLine.HasMeta;
    assert args[1..] == [d];
    assert CommandLine.Encode(args) == w + (" " + d);
    assert "x" + Line(r) == w + (" " + d);
    CommandLine.RoundTrip(args);
  }

  // ---------- whole lives of a log, with crashes ----------

  /** log::open after a crash: a new object on the file that is there, brought up to date. */
  method Open(file: CString) returns (log: Log, result: SyncResult)
    ensures fresh(log)
    ensures result == Synced <==> Replay(FRESH, file).Done?
    ensures result == Synced ==> forall counter: nat, live: set<nat> ::
      var s := System(file, counter, live);
      Enabled(s, CrashAndRecover) && System(log.file, log.counter, {}) == Next(s, CrashAndRecover)
    ensures result == Synced ==> log.Memory() == Replay(FRESH, file).mem
    ensures result != Synced ==> log.file == file
  {
    hide Replay, Aborts, Bytes;
    log := new Log(file);
    assert file[0..] == file;
    result := log.Sync();
  }

  /** The file, the counter of the running log object, and the ids of the X objects in state begun. */
  datatype System = System(file: CString, counter: nat, live: set<nat>)

  datatype Step =
    | BeginStep
    | CommitStep(id: nat)
    | AbortStep(id: nat)
    | CrashAndRecover     // memory is lost, a new log object opens the file

  ghost predicate Enabled(s: System, step: Step) {
    match step
    case BeginStep => s.counter < ID_LIMIT
    case CommitStep(id) => id in s.live
    case AbortStep(id) => id in s.live
    case CrashAndRecover => Replay(FRESH, s.file).Done?
                            && Replay(FRESH, s.file).mem.counter <= |Replay(FRESH, s.file).mem.state|
  }

  ghost function Next(s: System, step: Step): System
    requires Enabled(s, step)
  {
    match step
    case BeginStep =>
      System(s.file + Bytes([Record(Begin, s.counter)]), s.counter + 1, s.live + {s.counter})
    case CommitStep(id) => System(s.file + Bytes([Record(Commit, id)]), s.counter, s.live - {id})
    case AbortStep(id) => System(s.file + Bytes([Record(Abort, id)]), s.counter, s.live - {id})
    case CrashAndRecover => System(Recovered(s.file), Replay(FRESH, s.file).mem.counter, {})
  }

  /** The file replays; the live transactions are exactly the begun ones; the counter agrees. */
  ghost predicate Consistent(s: System) {
    && Terminated(s.file)
    && Replay(FRESH, s.file).Done?
    && var m := Replay(FRESH, s.file).mem;
       && m.counter == s.counter <= ID_LIMIT
       && CounterAbove(m)
       && (|m.state| == 0 ==> s.counter == 0)
       && (forall id: nat :: id in s.live <==> Status(m, id) == Begun)
  }

  ghost function Meaning(s: System): Mem
    requires Consistent(s)
  {
    Replay(FRESH, s.file).mem
  }

  /** What one more record does. */
  lemma OneMore(s: System, r: Record)
    requires Consistent(s) && Fits(Meaning(s).state, r.id)
    ensures Terminated(s.file + Bytes([r]))
    ensures Replay(FRESH, s.file + Bytes([r])) == Done(Apply(Meaning(s), r))
  {
    hide Replay, Apply, Line;
    var m := Meaning(s);
    assert [r][1..] == [];
    assert AllFit(m, [r]);
    assert ApplyAll(m, [r]) == Apply(m, r);
    ReplayRecords(m, [r]);
    ReplayAppend(FRESH, s.file, Bytes([r]));
  }

  /** Every step keeps the system consistent, and no step changes an outcome once it is reached. */
  lemma StepKeeps(s: System, step: Step)
    requires Consistent(s) && Enabled(s, step)
    ensures Consistent(Next(s, step))
    ensures forall id: nat :: Status(Meaning(s), id) in {Committed, Aborted} ==>
              Status(Meaning(Next(s, step)), id) == Status(Meaning(s), id)
    ensures step.CrashAndRecover? ==>
              forall id: nat :: Status(Meaning(Next(s, step)), id) != Begun
  {
    hide Replay, Bytes, Recovered;
    var m := Meaning(s);
    match step
    case BeginStep => OneMore(s, Record(Begin, s.counter));
    case CommitStep(id) => OneMore(s, Record(Commit, id));
    case AbortStep(id) => OneMore(s, Record(Abort, id));
    case CrashAndRecover =>
      Recovery(s.file);
      RecoveredTerminated(s.file);
  }

  /** What becomes of one id in a step, from what the step is called. */
  predicate Becomes(s: System, step: Step, id: nat, before: XState, after: XState) {
    match step
    case BeginStep => after == if id == s.counter then Begun else before
    case CommitStep(i) => after == if id == i then Committed else before
    case AbortStep(i) => after == if id == i then Aborted else before
    case CrashAndRecover => after == if before == Begun then Aborted else before
  }

  /** A begin makes its id begun, a commit makes it committed, an abort makes it aborted, a recovery makes
      the begun ones aborted, and nothing else changes. */
  lemma StepMeans(s: System, step: Step, id: nat)
    requires Consistent(s) && Enabled(s, step)
    ensures Consistent(Next(s, step))
    ensures Becomes(s, step, id, Status(Meaning(s), id), Status(Meaning(Next(s, step)), id))
    ensures step.BeginStep? ==> Status(Meaning(s), s.counter) == Null
    ensures step.CommitStep? || step.AbortStep? ==> Status(Meaning(s), step.id) == Begun
  {
    hide Replay, Bytes, Recovered, Apply, Status, CounterAbove;
    StepKeeps(s, step);
    match step
    case BeginStep =>
      FreshId(Meaning(s));
      StepRecord(s, Record(Begin, s.counter), id);
    case CommitStep(i) =>
      LiveFits(s, i);
      StepRecord(s, Record(Commit, i), id);
    case AbortStep(i) =>
      LiveFits(s, i);
      StepRecord(s, Record(Abort, i), id);
    case CrashAndRecover => Recovery(s.file);
  }

  /** What one record makes of one id. */
  lemma ApplyStatus(m: Mem, r: Record, id: nat)
    requires Fits(m.state, r.id)
    ensures Status(Apply(m, r), id) ==
      if id != r.id then Status(m, id)
      else if r.verb == Begin then Begun else if r.verb == Commit then Committed else Aborted
  {}

  lemma StepRecord(s: System, r: Record, id: nat)
    requires Consistent(s) && Fits(Meaning(s).state, r.id)
    ensures Replay(FRESH, s.file + Bytes([r])) == Done(Apply(Meaning(s), r))
    ensures Status(Apply(Meaning(s), r), id) ==
      if id != r.id then Status(Meaning(s), id)
      else if r.verb == Begin then Begun else if r.verb == Commit then Committed else Aborted
  {
    hide Consistent, Replay, Apply, Bytes, Status, Fits;
    OneMore(s, r);
    ApplyStatus(Meaning(s), r, id);
  }

  lemma FreshId(m: Mem)
    requires CounterAbove(m)
    ensures Status(m, m.counter) == Null
  {}

  lemma LiveFits(s: System, id: nat)
    requires Consistent(s) && id in s.live
    ensures Fits(Meaning(s).state, id) && Status(Meaning(s), id) == Begun
  {
    hide Replay;
  }

  lemma RecoveredTerminated(file: CString)
    requires Terminated(file) && Replay(FRESH, file).Done?
    requires Replay(FRESH, file).mem.counter <= |Replay(FRESH, file).mem.state|
    ensures Terminated(Recovered(file))
  {
    hide Replay;
    var m := Replay(FRESH, file).mem;
    BytesTerminated(Aborts(m.state, 0, m.counter));
  }

  lemma {:induction false} BytesTerminated(rs: seq<Record>)
    ensures Terminated(Bytes(rs))
  {
    if rs == [] {
    } else {
      BytesTerminated(rs[1..]);
    }
  }

  ghost predicate Possible(s: System, steps: seq<Step>)
    decreases |steps|
  {
    steps == [] || (Enabled(s, steps[0]) && Possible(Next(s, steps[0]), steps[1..]))
  }

  ghost function After(s: System, steps: seq<Step>): System
    requires Possible(s, steps)
    decreases |steps|
  {
    if steps == [] then s else After(Next(s, steps[0]), steps[1..])
  }

  /** Durability: over every run with any number of crashes, a transaction that is committed (or
      aborted) stays so in every later replay of the file. */
  lemma {:induction false} OutcomesAreFinal(s: System, steps: seq<Step>, id: nat)
    requires Consistent(s) && Possible(s, steps)
    requires Status(Meaning(s), id) in {Committed, Aborted}
    ensures Consistent(After(s, steps))
    ensures Status(Meaning(After(s, steps)), id) == Status(Meaning(s), id)
    decreases |steps|
  {
    hide Replay, Consistent, Next, Enabled, Status;
    if steps == [] {
    } else {
      StepKeeps(s, steps[0]);
      OutcomesAreFinal(Next(s, steps[0]), steps[1..], id);
    }
  }

  /** What is committed once is committed in every later replay, whatever follows, crashes included. */
  lemma CommittedForever(s: System, id: nat, steps: seq<Step>)
    requires Consistent(s) && id in s.live
    requires Possible(Next(s, CommitStep(id)), steps)
    ensures Consistent(After(Next(s, CommitStep(id)), steps))
    ensures Status(Meaning(After(Next(s, CommitStep(id)), steps)), id) == Committed
  {
    hide Replay, Consistent, Next, Possible, After, Status;
    StepMeans(s, CommitStep(id), id);
    OutcomesAreFinal(Next(s, CommitStep(id)), steps, id);
  }

  /** What is aborted, by its owner or by a recovery that finds it unfinished, stays aborted. */
  lemma AbortedForever(s: System, step: Step, id: nat, steps: seq<Step>)
    requires Consistent(s) && id in s.live && (step == AbortStep(id) || step == CrashAndRecover)
    requires Enabled(s, step) && Possible(Next(s, step), steps)
    ensures Consistent(After(Next(s, step), steps))
    ensures Status(Meaning(After(Next(s, step), steps)), id) == Aborted
  {
    assert Status(Meaning(s), id) == Begun;
    hide Replay, Consistent, Next, Possible, After, Status, Enabled;
    StepMeans(s, step, id);
    OutcomesAreFinal(Next(s, step), steps, id);
  }

  /** A run can start from the empty file, and it never hands out an id twice: a new id has no status. */
  lemma StartIsConsistent()
    ensures Consistent(System("", 0, {}))
  {
    NothingToReplay(FRESH);
  }

  lemma {:induction false} RunConsistent(s: System, steps: seq<Step>)
    requires Consistent(s) && Possible(s, steps)
    ensures Consistent(After(s, steps))
    decreases |steps|
  {
    hide Replay, Consistent, Next, Enabled;
    if steps == [] {
    } else {
      StepKeeps(s, steps[0]);
      RunConsistent(Next(s, steps[0]), steps[1..]);
    }
  }

  lemma NewIdsAreNew(steps: seq<Step>)
    requires Possible(System("", 0, {}), steps)
    ensures
      var s := After(System("", 0, {}), steps);
      Consistent(s) && forall id: nat :: id >= s.counter ==> Status(Meaning(s), id) == Null
  {
    StartIsConsistent();
    RunConsistent(System("", 0, {}), steps);
  }
}
