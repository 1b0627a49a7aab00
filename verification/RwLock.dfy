/** dthread/mutex_rw.cc: a readers/writer lock built as a monitor, with one mutex and one condition
    variable. Every stretch of code between taking the mutex and releasing it (by unlocking or by
    waiting) is one atomic step; any number of threads take steps in any order. */
module RwLock {

  type Tid = nat

  datatype Want = Read | Write

  /** Where a thread stands. A waiting thread sleeps in c.wait; a woken one has been released from
      it and still has to get the mutex and test the loop condition again. */
  datatype Phase = Idle | Waiting(want: Want) | Woken(want: Want) | Reading | Writing

  datatype Lock = Lock(readers: int, writers: int, phase: map<Tid, Phase>)

  /** RUnlock carries the threads released by pthread_cond_signal: POSIX promises at least one if
      any thread waits, and does not say which. */
  datatype Step =
    | RLock(t: Tid)
    | RLockNb(t: Tid)
    | RUnlock(t: Tid, released: set<Tid>)
    | WLock(t: Tid)
    | WLockNb(t: Tid)
    | WUnlock(t: Tid)
    | SpuriousWakeup(t: Tid)

  /** The threads in one phase, and how many they are. */
  function In(phase: map<Tid, Phase>, p: Phase): set<Tid> { set t | t in phase && phase[t] == p }
  function N(phase: map<Tid, Phase>, p: Phase): nat { |In(phase, p)| }

  function Woken2(phase: map<Tid, Phase>): nat { N(phase, Woken(Read)) + N(phase, Woken(Write)) }

  function Waiters(phase: map<Tid, Phase>): set<Tid> { set t | t in phase && phase[t].Waiting? }

  function Wake(phase: map<Tid, Phase>, released: set<Tid>): map<Tid, Phase> {
    map t | t in phase :: if t in released && phase[t].Waiting? then Woken(phase[t].want) else phase[t]
  }

  predicate Signalled(phase: map<Tid, Phase>, released: set<Tid>) {
    released <= Waiters(phase) && (Waiters(phase) != {} ==> released != {})
  }

  /** Threads call lock when they hold nothing and unlock what they hold. */
  predicate Enabled(l: Lock, s: Step) {
    s.t in l.phase &&
    match s
    case RLock(t) => l.phase[t].Idle? || l.phase[t] == Woken(Read)
    case WLock(t) => l.phase[t].Idle? || l.phase[t] == Woken(Write)
    case RLockNb(t) => l.phase[t].Idle?
    case WLockNb(t) => l.phase[t].Idle?
    case RUnlock(t, released) => l.phase[t].Reading? && Signalled(l.phase[t := Idle], released)
    case WUnlock(t) => l.phase[t].Writing?
    case SpuriousWakeup(t) => l.phase[t].Waiting?
  }

  function Apply(l: Lock, s: Step): Lock
    requires s.t in l.phase
  {
    match s
    case RLock(t) =>
      if l.writers != 0 then l.(phase := l.phase[t := Waiting(Read)])
      else l.(readers := l.readers + 1, phase := l.phase[t := Reading])
    case RLockNb(t) =>
      if l.writers != 0 then l
      else l.(readers := l.readers + 1, phase := l.phase[t := Reading])
    case RUnlock(t, released) =>
      if l.readers == 0 then l
      else
        var left := l.phase[t := Idle];
        l.(readers := l.readers - 1, phase := if l.readers == 1 then Wake(left, released) else left)
    case WLock(t) =>
      if l.readers != 0 || l.writers != 0 then l.(phase := l.phase[t := Waiting(Write)])
      else l.(writers := l.writers + 1, phase := l.phase[t := Writing])
    case WLockNb(t) =>
      if l.readers != 0 || l.writers != 0 then l
      else l.(writers := l.writers + 1, phase := l.phase[t := Writing])
    case WUnlock(t) =>
      if l.writers == 0 then l
      else
        var left := l.phase[t := Idle];
        l.(writers := 0, phase := Wake(left, left.Keys))
    case SpuriousWakeup(t) =>
      if l.phase[t].Waiting? then l.(phase := l.phase[t := Woken(l.phase[t].want)]) else l
  }

  // ---------- the monitor itself ----------

  const EBUSY := 16

  class MutexRw {
    var readers: int
    var writers: int
    var phase: map<Tid, Phase>

    function View(): Lock
      reads this
    {
      Lock(readers, writers, phase)
    }

    constructor (threads: set<Tid>)
      ensures View() == Initial(threads)
    {
      readers := 0;
      writers := 0;
      phase := map t | t in threads :: Idle;
    }

    method RLock(t: Tid)
      requires t in phase
      modifies this
      ensures View() == Apply(old(View()), Step.RLock(t))
    {
      if writers != 0 {
        phase := phase[t := Waiting(Read)];
        return;
      }
      readers := readers + 1;
      phase := phase[t := Reading];
    }

    method RLockNb(t: Tid) returns (result: int)
      requires t in phase
      modifies this
      ensures View() == Apply(old(View()), Step.RLockNb(t))
      ensures result == if old(writers) != 0 then EBUSY else 0
      ensures old(phase[t]).Idle? ==> (result == 0 <==> phase[t] == Reading)
    {
      if writers != 0 {
        return EBUSY;
      }
      readers := readers + 1;
      phase := phase[t := Reading];
      return 0;
    }

    method RUnlock(t: Tid, released: set<Tid>) returns (result: int)
      requires t in phase
      modifies this
      ensures View() == Apply(old(View()), Step.RUnlock(t, released))
      ensures result == if old(readers) != 0 then 0 else -1
    {
      if readers != 0 {
        readers := readers - 1;
        phase := phase[t := Idle];
        if readers == 0 {
          phase := Wake(phase, released);
        }
        return 0;
      } else {
        return -1;
      }
    }

    method WLock(t: Tid)
      requires t in phase
      modifies this
      ensures View() == Apply(old(View()), Step.WLock(t))
    {
      if readers != 0 || writers != 0 {
        phase := phase[t := Waiting(Write)];
        return;
      }
      writers := writers + 1;
      phase := phase[t := Writing];
    }

    method WLockNb(t: Tid) returns (result: int)
      requires t in phase
      modifies this
      ensures View() == Apply(old(View()), Step.WLockNb(t))
      ensures result == if old(readers) != 0 || old(writers) != 0 then EBUSY else 0
      ensures old(phase[t]).Idle? ==> (result == 0 <==> phase[t] == Writing)
    {
      if readers != 0 || writers != 0 {
        return EBUSY;
      }
      writers := writers + 1;
      phase := phase[t := Writing];
      return 0;
    }

    method WUnlock(t: Tid) returns (result: int)
      requires t in phase
      modifies this
      ensures View() == Apply(old(View()), Step.WUnlock(t))
      ensures result == if old(writers) != 0 then 0 else -1
    {
      if writers != 0 {
        writers := 0;
        phase := phase[t := Idle];
        phase := Wake(phase, phase.Keys);
        return 0;
      } else {
        return -1;
      }
    }
  }

  // ---------- runs ----------

  function Initial(threads: set<Tid>): Lock {
    Lock(0, 0, map t | t in threads :: Idle)
  }

  ghost predicate Possible(l: Lock, steps: seq<Step>)
    decreases |steps|
  {
    steps == [] || (Enabled(l, steps[0]) && Possible(Apply(l, steps[0]), steps[1..]))
  }

  ghost function After(l: Lock, steps: seq<Step>): Lock
    requires Possible(l, steps)
    decreases |steps|
  {
    if steps == [] then l else After(Apply(l, steps[0]), steps[1..])
  }

  predicate Free(l: Lock) { l.readers == 0 && l.writers == 0 }

  /** The counters count the threads inside; one writer excludes everyone; a reader only ever waits
      for a writer; and while the lock is free somebody has been woken if anybody waits. */
  ghost predicate Inv(l: Lock) {
    && l.readers == N(l.phase, Reading)
    && l.writers == N(l.phase, Writing) <= 1
    && (l.readers == 0 || l.writers == 0)
    && (l.writers == 0 ==> N(l.phase, Waiting(Read)) == 0)
    && (Free(l) && N(l.phase, Waiting(Write)) > 0 ==> Woken2(l.phase) > 0)
  }

  lemma InvInitial(threads: set<Tid>)
    ensures Inv(Initial(threads))
  {
    var phase := Initial(threads).phase;
    assert forall p: Phase :: !p.Idle? ==> In(phase, p) == {};
  }

  lemma AllPhases(p: Phase)
    ensures p in {Idle, Waiting(Read), Waiting(Write), Woken(Read), Woken(Write), Reading, Writing}
  {
    match p
    case Waiting(want) => assert want == Read || want == Write by { if want.Read? {} }
    case Woken(want) => assert want == Read || want == Write by { if want.Read? {} }
    case _ =>
  }

  lemma Counted(phase: map<Tid, Phase>, t: Tid)
    requires t in phase
    ensures t in In(phase, phase[t]) && N(phase, phase[t]) > 0
  {
    assert t in In(phase, phase[t]);
  }

  lemma Move(phase: map<Tid, Phase>, t: Tid, q: Phase, p: Phase)
    requires t in phase
    ensures N(phase[t := q], p) == N(phase, p) + (if p == q then 1 else 0) - (if p == phase[t] then 1 else 0)
  {
    var a, b := In(phase, p), In(phase[t := q], p);
    if p == q {
      assert b == a + {t};
    } else {
      assert b == a - {t};
    }
    assert t in a <==> p == phase[t];
  }

  lemma Moves(phase: map<Tid, Phase>, t: Tid, q: Phase)
    requires t in phase
    ensures forall p ::
      N(phase[t := q], p) == N(phase, p) + (if p == q then 1 else 0) - (if p == phase[t] then 1 else 0)
  {
    forall p { Move(phase, t, q, p); }
  }

  lemma WakeKeeps(phase: map<Tid, Phase>, released: set<Tid>, p: Phase)
    requires !p.Waiting? && !p.Woken?
    ensures N(Wake(phase, released), p) == N(phase, p)
  {
    assert In(Wake(phase, released), p) == In(phase, p);
  }

  lemma SomebodyWoken(phase: map<Tid, Phase>, released: set<Tid>)
    requires Signalled(phase, released)
    requires N(phase, Waiting(Read)) + N(phase, Waiting(Write)) > 0
    ensures Woken2(Wake(phase, released)) > 0
  {
    var want := if N(phase, Waiting(Read)) > 0 then Read else Write;
    assert In(phase, Waiting(want)) != {};
    var t :| t in In(phase, Waiting(want));
    assert t in Waiters(phase);
    var u :| u in released;
    Counted(Wake(phase, released), u);
    AllPhases(phase[u]);
  }

  lemma AllWoken(phase: map<Tid, Phase>, want: Want)
    ensures N(Wake(phase, phase.Keys), Waiting(want)) == 0
  {
    assert In(Wake(phase, phase.Keys), Waiting(want)) == {};
  }

  lemma FewerWait(phase: map<Tid, Phase>, released: set<Tid>, want: Want)
    ensures N(Wake(phase, released), Waiting(want)) <= N(phase, Waiting(want))
  {
    AtMost(In(Wake(phase, released), Waiting(want)), In(phase, Waiting(want)));
  }

  lemma InvStep(l: Lock, s: Step)
    requires Inv(l) && Enabled(l, s)
    ensures Inv(Apply(l, s))
  {
    var t, l' := s.t, Apply(l, s);
    Counted(l.phase, t);
    if s.RUnlock? || s.WUnlock? {
      InvUnlock(l, s);
    } else if l' != l {
      assert l'.phase == l.phase[t := l'.phase[t]];
      Moves(l.phase, t, l'.phase[t]);
    }
  }

  lemma InvUnlock(l: Lock, s: Step)
    requires Inv(l) && Enabled(l, s) && (s.RUnlock? || s.WUnlock?)
    ensures Inv(Apply(l, s))
  {
    var left := l.phase[s.t := Idle];
    Moves(l.phase, s.t, Idle);
    Counted(l.phase, s.t);
    var released := if s.RUnlock? then s.released else left.Keys;
    WakeKeeps(left, released, Reading);
    WakeKeeps(left, released, Writing);
    FewerWait(left, released, Read);
    if s.WUnlock? {
      AllWoken(left, Read);
      AllWoken(left, Write);
    } else if N(left, Waiting(Write)) > 0 {
      SomebodyWoken(left, released);
    } else {
      FewerWait(left, released, Write);
    }
  }

  lemma {:induction false} InvRun(l: Lock, steps: seq<Step>)
    requires Inv(l) && Possible(l, steps)
    ensures Inv(After(l, steps))
    decreases |steps|
  {
    if steps == [] {
    } else {
      InvStep(l, steps[0]);
      InvRun(Apply(l, steps[0]), steps[1..]);
    }
  }

  /** Safety for every number of threads and every interleaving. */
  lemma MutualExclusion(threads: set<Tid>, steps: seq<Step>, t: Tid, u: Tid)
    requires Possible(Initial(threads), steps)
    requires t in threads && u in threads && t != u
    ensures
      var l := After(Initial(threads), steps);
      t in l.phase && u in l.phase && (l.phase[t].Writing? ==> !l.phase[u].Writing? && !l.phase[u].Reading?)
  {
    var l := After(Initial(threads), steps);
    InvInitial(threads);
    InvRun(Initial(threads), steps);
    SameThreads(Initial(threads), steps);
    assert t in In(l.phase, l.phase[t]) && u in In(l.phase, l.phase[u]);
    if l.phase[t].Writing? && l.phase[u].Writing? {
      AtMost({t, u}, In(l.phase, Writing));
    }
  }

  lemma AtMost(a: set<Tid>, b: set<Tid>)
    requires a <= b
    ensures |a| <= |b|
  {
    if a != {} {
      var x :| x in a;
      AtMost(a - {x}, b - {x});
    }
  }

  lemma {:induction false} SameThreads(l: Lock, steps: seq<Step>)
    requires Possible(l, steps)
    ensures After(l, steps).phase.Keys == l.phase.Keys
    decreases |steps|
  {
    if steps == [] {
    } else {
      SameThreads(Apply(l, steps[0]), steps[1..]);
    }
  }

  /** No wakeup is lost: when the lock is free and somebody waits, some thread has been woken, and
      the next time it runs it gets the lock. */
  lemma NoLostWakeup(threads: set<Tid>, steps: seq<Step>) returns (t: Tid)
    requires Possible(Initial(threads), steps)
    requires Free(After(Initial(threads), steps)) && Waiters(After(Initial(threads), steps).phase) != {}
    ensures
      var l := After(Initial(threads), steps);
      && t in l.phase && l.phase[t].Woken?
      && Enabled(l, Resume(l, t))
      && Apply(l, Resume(l, t)).phase[t] == (if l.phase[t].want.Read? then Reading else Writing)
  {
    InvInitial(threads);
    InvRun(Initial(threads), steps);
    var l := After(Initial(threads), steps);
    var w :| w in Waiters(l.phase);
    Counted(l.phase, w);
    AllPhases(l.phase[w]);
    t := PickWoken(l.phase);
  }

  lemma PickWoken(phase: map<Tid, Phase>) returns (t: Tid)
    requires Woken2(phase) > 0
    ensures t in phase && phase[t].Woken?
  {
    var want := if N(phase, Woken(Read)) > 0 then Read else Write;
    assert In(phase, Woken(want)) != {};
    t :| t in In(phase, Woken(want));
  }

  /** The step of a woken thread: back to the head of its wait loop. */
  function Resume(l: Lock, t: Tid): Step
    requires t in l.phase && l.phase[t].Woken?
  {
    if l.phase[t].want.Read? then Step.RLock(t) else Step.WLock(t)
  }

  // ---------- draining ----------

  /** The steps that finish requests already made. */
  predicate Finishing(l: Lock, s: Step) {
    Enabled(l, s) &&
    ((s.RLock? && l.phase[s.t].Woken?) || (s.WLock? && l.phase[s.t].Woken?) || s.RUnlock? || s.WUnlock?)
  }

  ghost predicate Quiet(l: Lock, steps: seq<Step>)
    decreases |steps|
  {
    steps == [] || (Finishing(l, steps[0]) && Quiet(Apply(l, steps[0]), steps[1..]))
  }

  lemma {:induction false} QuietPossible(l: Lock, steps: seq<Step>)
    requires Quiet(l, steps)
    ensures Possible(l, steps)
    decreases |steps|
  {
    if steps == [] {
    } else {
      QuietPossible(Apply(l, steps[0]), steps[1..]);
    }
  }

  function Busy(phase: map<Tid, Phase>): set<Tid> { phase.Keys - In(phase, Idle) }

  /** Unlocking lowers the first part, a woken thread's step lowers the second. */
  ghost function Measure(l: Lock): nat {
    Weight(|Busy(l.phase)|, |l.phase|, Woken2(l.phase))
  }

  ghost function Weight(busy: nat, threads: nat, woken: nat): nat {
    busy * (threads + 1) + woken
  }

  lemma WokenBound(phase: map<Tid, Phase>)
    ensures Woken2(phase) <= |phase|
  {
    var a, b := In(phase, Woken(Read)), In(phase, Woken(Write));
    assert a !! b && |a + b| == |a| + |b|;
    AtMost(a + b, phase.Keys);
  }

  lemma BusyCount(phase: map<Tid, Phase>)
    ensures |Busy(phase)| == |phase| - N(phase, Idle)
  {
    assert phase.Keys == Busy(phase) + In(phase, Idle);
  }

  lemma FinishingShrinks(l: Lock, s: Step)
    requires Inv(l) && Finishing(l, s)
    ensures Measure(Apply(l, s)) < Measure(l)
  {
    var phase, phase' := l.phase, Apply(l, s).phase;
    assert phase'.Keys == phase.Keys;
    assert |phase'| == |phase|;
    BusyCount(phase);
    BusyCount(phase');
    WokenBound(phase');
    if s.RUnlock? || s.WUnlock? {
      LeaverCounts(l, s);
    } else {
      ResumerCounts(l, s);
    }
    Lower(|Busy(phase)|, |Busy(phase')|, |phase|, Woken2(phase), Woken2(phase'));
  }

  lemma ResumerCounts(l: Lock, s: Step)
    requires Enabled(l, s) && l.phase[s.t].Woken? && (s.RLock? || s.WLock?)
    ensures N(Apply(l, s).phase, Idle) == N(l.phase, Idle)
    ensures Woken2(Apply(l, s).phase) == Woken2(l.phase) - 1
  {
    Moves(l.phase, s.t, Apply(l, s).phase[s.t]);
  }

  lemma LeaverCounts(l: Lock, s: Step)
    requires Inv(l) && Enabled(l, s) && (s.RUnlock? || s.WUnlock?)
    ensures N(Apply(l, s).phase, Idle) == N(l.phase, Idle) + 1
  {
    var left := l.phase[s.t := Idle];
    Counted(l.phase, s.t);
    Moves(l.phase, s.t, Idle);
    WakeKeeps(left, if s.RUnlock? then s.released else left.Keys, Idle);
  }

  lemma Lower(b: nat, b': nat, n: nat, w: nat, w': nat)
    requires w' <= n && (b' == b - 1 || (b' == b && w' < w))
    ensures Weight(b', n, w') < Weight(b, n, w)
  {
    assert (b - 1) * (n + 1) == b * (n + 1) - (n + 1);
  }

  /** As long as a request is unfinished some finishing step can be taken. */
  lemma NeverStuck(l: Lock) returns (s: Step)
    requires Inv(l) && Busy(l.phase) != {}
    ensures Finishing(l, s)
  {
    if l.writers != 0 {
      assert In(l.phase, Writing) != {};
      var t :| t in In(l.phase, Writing);
      s := Step.WUnlock(t);
    } else if l.readers != 0 {
      assert In(l.phase, Reading) != {};
      var t :| t in In(l.phase, Reading);
      s := Step.RUnlock(t, Waiters(l.phase[t := Idle]));
    } else {
      var b :| b in Busy(l.phase);
      Counted(l.phase, b);
      AllPhases(l.phase[b]);
      var t := PickWoken(l.phase);
      s := Resume(l, t);
    }
  }

  /** Once no new requests arrive and no thread wakes by itself, every schedule ends after boundedly
      many steps, and it can only end with every request served and every thread idle again. */
  lemma {:induction false} Drains(l: Lock, steps: seq<Step>)
    requires Inv(l) && Quiet(l, steps)
    ensures Possible(l, steps)
    ensures |steps| <= Measure(l)
    ensures (forall s :: !Finishing(After(l, steps), s)) <==> Busy(After(l, steps).phase) == {}
    decreases |steps|
  {
    QuietPossible(l, steps);
    if steps != [] {
      FinishingShrinks(l, steps[0]);
      InvStep(l, steps[0]);
      Drains(Apply(l, steps[0]), steps[1..]);
    } else if Busy(l.phase) != {} {
      var s := NeverStuck(l);
      assert Finishing(l, s);
    } else {
      forall s ensures !Finishing(l, s) {
        assert s.t in l.phase && !l.phase[s.t].Idle? ==> s.t in Busy(l.phase);
      }
    }
  }

  /** A request is only ever finished by having been granted: on the way from asking to idle there is
      a moment at which the thread holds the lock. */
  lemma {:induction false} Served(l: Lock, steps: seq<Step>, t: Tid) returns (i: nat)
    requires Inv(l) && Possible(l, steps) && t in l.phase
    requires !l.phase[t].Idle?
    requires t in After(l, steps).phase && After(l, steps).phase[t].Idle?
    ensures i <= |steps| && Possible(l, steps[..i])
    ensures
      var mid := After(l, steps[..i]);
      t in mid.phase && (mid.phase[t].Reading? || mid.phase[t].Writing?)
    decreases |steps|
  {
    if l.phase[t].Reading? || l.phase[t].Writing? {
      i := 0;
    } else {
      InvStep(l, steps[0]);
      var l' := Apply(l, steps[0]);
      var j := Served(l', steps[1..], t);
      i := j + 1;
      assert steps[..i][0] == steps[0] && steps[..i][1..] == steps[1..][..j];
    }
  }

  // ---------- what the calls answer ----------

  /** The thread holds the lock for reading or for writing. */
  predicate Inside(l: Lock, t: Tid) { t in l.phase && (l.phase[t].Reading? || l.phase[t].Writing?) }

  /** Whoever waits, a reader gets in exactly when nobody writes, and a writer exactly when nobody is inside;
      otherwise the blocking calls wait for just that, and the others leave everything as it was. */
  lemma Granted(l: Lock, t: Tid)
    requires Inv(l) && t in l.phase && l.phase[t].Idle?
    ensures
      var l' := Apply(l, Step.RLock(t));
      if exists u :: u in l.phase && l.phase[u].Writing? then l'.phase[t] == Waiting(Read) else l'.phase[t] == Reading
    ensures
      var l' := Apply(l, Step.WLock(t));
      if exists u :: Inside(l, u) then l'.phase[t] == Waiting(Write) else l'.phase[t] == Writing
    ensures
      var l' := Apply(l, Step.RLockNb(t));
      if exists u :: u in l.phase && l.phase[u].Writing? then l' == l else l'.phase[t] == Reading
    ensures
      var l' := Apply(l, Step.WLockNb(t));
      if exists u :: Inside(l, u) then l' == l else l'.phase[t] == Writing
  {
    InsideCounts(l);
  }

  /** The counters tell who is inside. */
  lemma InsideCounts(l: Lock)
    requires Inv(l)
    ensures l.writers != 0 <==> exists u :: u in l.phase && l.phase[u].Writing?
    ensures l.readers != 0 || l.writers != 0 <==> exists u :: Inside(l, u)
  {
    if l.writers != 0 {
      assert In(l.phase, Writing) != {};
      var u :| u in In(l.phase, Writing);
      assert Inside(l, u);
    }
    if l.readers != 0 {
      assert In(l.phase, Reading) != {};
      var u :| u in In(l.phase, Reading);
      assert Inside(l, u);
    }
    forall u | Inside(l, u)
      ensures (l.phase[u].Writing? ==> l.writers != 0) && (l.phase[u].Reading? ==> l.readers != 0)
    {
      Counted(l.phase, u);
    }
  }

  /** A call of one thread moves only this thread, but for the wakeups of an unlock. */
  lemma OthersStay(l: Lock, s: Step, u: Tid)
    requires Enabled(l, s) && u in l.phase && u != s.t
    ensures u in Apply(l, s).phase
    ensures
      var p, p' := l.phase[u], Apply(l, s).phase[u];
      p' == p || ((s.RUnlock? || s.WUnlock?) && p.Waiting? && p' == Woken(p.want))
  {}

  /** The last reader wakes whom the signal released, a writer wakes everybody, others wake nobody. */
  lemma Wakeups(l: Lock, s: Step, u: Tid)
    requires Inv(l) && Enabled(l, s) && u in l.phase && l.phase[u].Waiting?
    ensures u in Apply(l, s).phase
    ensures Apply(l, s).phase[u].Woken? <==>
      || s.WUnlock?
      || (s.RUnlock? && u in s.released && forall v :: v in l.phase && v != s.t ==> !l.phase[v].Reading?)
      || s == SpuriousWakeup(u)
  {
    Counted(l.phase, s.t);
    if s.RUnlock? {
      OnlyReader(l, s.t);
    }
  }

  lemma OnlyReader(l: Lock, t: Tid)
    requires Inv(l) && t in l.phase && l.phase[t].Reading?
    ensures l.readers == 1 <==> forall v :: v in l.phase && v != t ==> !l.phase[v].Reading?
  {
    var others := In(l.phase, Reading) - {t};
    assert In(l.phase, Reading) == others + {t};
    assert l.readers == |others| + 1;
    forall v | v in l.phase && v != t ensures l.phase[v].Reading? <==> v in others {}
    if others != {} {
      var v :| v in others;
    }
  }

  /** After unlocking the thread is outside. */
  lemma Left(l: Lock, s: Step)
    requires Inv(l) && Enabled(l, s) && (s.RUnlock? || s.WUnlock?)
    ensures s.t in Apply(l, s).phase && Apply(l, s).phase[s.t] == Idle
  {
    Counted(l.phase, s.t);
  }
}
