/** The running server: commands of a session, with or without a parent transaction (bif/shell.cc:289-370,
    2263-2354), and the trader threads that offer_create starts (bif/market.cc, bif/trader.cc). Every
    transaction is one step; while a parent transaction is open, its locks keep the traders waiting. */
module Exchange {
  import opened Text
  import opened Portfolio
  import opened Sums
  import opened Ledger
  import opened Invariants
  import opened Conservation
  import opened Market
  import opened Merge
  import opened Commands
  import opened Effects
  import KeyScan

  /** saved: the tables as they were when the parent transaction began, if there is one.
      traders: the pairs of denominations of the running trader threads. */
  datatype Site = Site(db: Db, saved: Option<Db>, traders: multiset<(Id, Id)>)

  datatype Step =
    | CreditStep(me: Id, target: Id, args: seq<CString>)
    | DebitStep(me: Id, target: Id, args: seq<CString>)
    | WithdrawStep(me: Id, note: Id, challenge: int, args: seq<CString>)
    | DepositStep(me: Id, note: Id, response: Option<int>)
    | OfferCreateStep(me: Id, offer: Id, ask: CString, bid: CString, skip: nat)
    | OfferDestroyStep(me: Id, offer: Id)
    | AcctDestroyStep(me: Id, target: Id)
    /** Any change of flags, keys and issuers of denominations. */
    | AdminStep(flags: map<Id, Flags>, public: map<Id, int>, secret: map<Id, int>, modulus: map<Id, int>,
                denomIssuer: map<Id, Id>)
    /** An error of the database in some command. */
    | FaultStep
    | TxnCreateStep(me: Id)
    | TxnCommitStep
    | TxnAbortStep
    | TraderStep(d0: Id, d1: Id)

  predicate IsCommand(step: Step) {
    !step.TxnCreateStep? && !step.TxnCommitStep? && !step.TxnAbortStep? && !step.TraderStep?
  }

  /** What a command does, before its transaction is closed. */
  ghost function Result(s: Site, step: Step): Outcome
    requires IsCommand(step)
  {
    match step
    case CreditStep(me, target, args) => CreditCmd(s.db, me, target, args)
    case DebitStep(me, target, args) => DebitCmd(s.db, me, target, args)
    case WithdrawStep(me, n, c, args) => WithdrawCmd(s.db, s.saved.Some?, me, n, c, args)
    case DepositStep(me, n, r) => DepositCmd(s.db, me, n, r)
    case OfferCreateStep(me, o, ask, bid, skip) => OfferCreateCmd(s.db, me, o, ask, bid, skip)
    case OfferDestroyStep(me, o) => OfferDestroyCmd(s.db, me, o)
    case AcctDestroyStep(me, target) => AcctDestroyCmd(s.db, me, target)
    case AdminStep(flags, public, secret, modulus, denomIssuer) =>
      Commit(Logged(s.db.(accts := Accts(s.db.accts.value, flags, public, secret, modulus, denomIssuer)), OtherEvent))
    case FaultStep => Error
  }

  /** The macros commit_transaction, abort_transaction and error_check. In a parent transaction the first
      two do nothing; an error ends the parent transaction too. */
  function Finish(s: Site, o: Outcome): Site {
    match o
    case Commit(db) => s.(db := db)
    case Abort(db, _) => if s.saved.Some? then s.(db := db) else s
    case Error => if s.saved.Some? then s.(db := s.saved.value, saved := None) else s
  }

  /** cmd_offer_create signals the market after its commit. */
  function Signalled(s: Site, step: Step, o: Outcome): multiset<(Id, Id)> {
    if step.OfferCreateStep? && o.Commit? && OfferArgs(step.ask, step.bid).Some?
    then
      var (ask, bid) := OfferArgs(step.ask, step.bid).value;
      s.traders + multiset{(ask.denom, bid.denom)}
    else s.traders
  }

  /** One transaction of a trader thread, which ends when there is nothing to do. */
  function Traded(s: Site, d0: Id, d1: Id): Site
    requires Inv(s.db)
  {
    if d0 == d1 || !CanTrade(s.db.offers, d0, d1) then s.(traders := s.traders - multiset{(d0, d1)})
    else s.(db := Execute(s.db, d0, d1))
  }

  predicate MayOpen(s: Site, me: Id) {
    s.saved.None? && me in s.db.accts.flags && (s.db.accts.flags[me].txn || s.db.accts.flags[me].super)
  }

  /** New ids are new, and a trader runs only outside of parent transactions. */
  predicate Enabled(s: Site, step: Step) {
    && (step.WithdrawStep? ==> step.note !in s.db.notes.issuer)
    && (step.OfferCreateStep? ==> step.offer !in s.db.offers.issuer)
    && (step.TraderStep? ==> s.saved.None? && (step.d0, step.d1) in s.traders)
  }

  ghost function Next(s: Site, step: Step): Site
    requires Valid(s)
  {
    match step
    case TxnCreateStep(me) => if MayOpen(s, me) then s.(saved := Some(s.db)) else s
    case TxnCommitStep => s.(saved := None)
    case TxnAbortStep => if s.saved.Some? then s.(db := s.saved.value, saved := None) else s
    case TraderStep(d0, d1) => Traded(s, d0, d1)
    case _ => Finish(s, Result(s, step)).(traders := Signalled(s, step, Result(s, step)))
  }

  ghost predicate Valid(s: Site) { Inv(s.db) && (s.saved.Some? ==> Inv(s.saved.value)) }

  // ---------- the invariant over every run ----------

  lemma ResultInv(s: Site, step: Step)
    requires Inv(s.db) && IsCommand(step) && Enabled(s, step)
    ensures LeavesInv(Result(s, step))
  {
    hide Inv, CreditCmd, DebitCmd, WithdrawCmd, DepositCmd, OfferCreateCmd, OfferDestroyCmd, AcctDestroyCmd;
    match step
    case CreditStep(me, target, args) => CreditCmdInv(s.db, me, target, args);
    case DebitStep(me, target, args) => DebitCmdInv(s.db, me, target, args);
    case WithdrawStep(me, n, c, args) => WithdrawCmdInv(s.db, s.saved.Some?, me, n, c, args);
    case DepositStep(me, n, r) => DepositCmdInv(s.db, me, n, r);
    case OfferCreateStep(me, o, ask, bid, skip) => OfferCreateCmdInv(s.db, me, o, ask, bid, skip);
    case OfferDestroyStep(me, o) => OfferDestroyCmdInv(s.db, me, o);
    case AcctDestroyStep(me, target) => AcctDestroyCmdInv(s.db, me, target);
    case AdminStep(flags, public, secret, modulus, denomIssuer) =>
      AdminInv(s.db, flags, public, secret, modulus, denomIssuer);
    case FaultStep =>
  }

  lemma AdminInv(db: Db, flags: map<Id, Flags>, public: map<Id, int>, secret: map<Id, int>, modulus: map<Id, int>,
                 denomIssuer: map<Id, Id>)
    requires Inv(db)
    ensures Inv(Logged(db.(accts := Accts(db.accts.value, flags, public, secret, modulus, denomIssuer)), OtherEvent))
  {
    hide OffersInv, NotesInv, JournalOk;
    JournalStep(db.accts.value, db.events, OtherEvent);
  }

  /** The empty server, from which the runs below can start. */
  ghost function Start(): (s: Site)
    ensures Valid(s) && SiteCalm(s) && SiteNonNeg(s)
  {
    Site(EmptyDb(), None, multiset{})
  }

  lemma NextValid(s: Site, step: Step)
    requires Valid(s) && Enabled(s, step)
    ensures Valid(Next(s, step))
  {
    hide Inv, Result, Execute, CanTrade, Signalled;
    match step
    case TxnCreateStep(_) =>
    case TxnCommitStep =>
    case TxnAbortStep =>
    case TraderStep(d0, d1) => if d0 != d1 && CanTrade(s.db.offers, d0, d1) { ExecutePreserves(s.db, d0, d1); }
    case _ => ResultInv(s, step);
  }

  /** The steps can be taken one after the other. */
  ghost predicate Possible(s: Site, steps: seq<Step>)
    requires Valid(s)
    decreases |steps|
  {
    steps == [] ||
    (Enabled(s, steps[0]) && (NextValid(s, steps[0]); Possible(Next(s, steps[0]), steps[1..])))
  }

  ghost function Run(s: Site, steps: seq<Step>): Site
    requires Valid(s) && Possible(s, steps)
    decreases |steps|
  {
    if steps == [] then s else NextValid(s, steps[0]); Run(Next(s, steps[0]), steps[1..])
  }

  /** In every reachable state the index agrees with the offers, the reverse lists agree with the issuers,
      notes hold positive amounts, and the log replays to exactly the stored balances. */
  lemma {:induction false} RunValid(s: Site, steps: seq<Step>)
    requires Valid(s) && Possible(s, steps)
    ensures Valid(Run(s, steps))
    decreases |steps|
  {
    hide Valid, Next, Enabled;
    if steps == [] {
    } else {
      NextValid(s, steps[0]);
      RunValid(Next(s, steps[0]), steps[1..]);
    }
  }

  /** What the log says about one balance: credits minus debits since the account was last destroyed. */
  function Told(events: seq<Event>, a: Id, d: Id): real
    decreases |events|
  {
    if events == [] then 0.0
    else
      var before := Told(events[..|events| - 1], a, d);
      match events[|events| - 1]
      case CreditEvent(x, v) => if x == a then before + Of(v, d) else before
      case DebitEvent(x, v) => if x == a then before - Of(v, d) else before
      case AcctDestroyEvent(x) => if x == a then 0.0 else before
      case _ => before
  }

  lemma {:induction false} ReplayTells(events: seq<Event>, a: Id, d: Id)
    ensures Get(Replay(events), (a, d)) == Told(events, a, d)
    decreases |events|
  {
    if events == [] {
    } else {
      var before, e := events[..|events| - 1], events[|events| - 1];
      ReplayTells(before, a, d);
      var m := Replay(before);
      match e
      case CreditEvent(x, v) => StoreAt(m, (x, v.denom), Get(m, (x, v.denom)) + v.quant, (a, d));
      case DebitEvent(x, v) => StoreAt(m, (x, v.denom), Get(m, (x, v.denom)) - v.quant, (a, d));
      case _ =>
    }
  }

  lemma StoreAt(m: map<Key, real>, k: Key, q: real, j: Key)
    ensures Get(Store(m, k, q), j) == if j == k then q else Get(m, j)
  {}

  /** In every reachable state the log alone tells every balance, and no balance of zero is stored. */
  lemma RunJournal(s: Site, steps: seq<Step>, a: Id, d: Id)
    requires Valid(s) && Possible(s, steps)
    ensures
      var db := Run(s, steps).db;
      Balance(db, a, d) == Told(db.events, a, d) && ((a, d) in db.accts.value <==> Told(db.events, a, d) != 0.0)
  {
    RunValid(s, steps);
    var db := Run(s, steps).db;
    ReplayTells(db.events, a, d);
    hide OffersInv, NotesInv, Replay, Told, Run, Possible;
  }

  /** In every reachable state find_best_offer finds a best offer, though fills never touch the index. */
  lemma RunBest(s: Site, steps: seq<Step>, ask: Id, bid: Id, o: Id)
    requires Valid(s) && Possible(s, steps) && Live(Run(s, steps).db.offers, o, ask, bid)
    ensures
      var t := Run(s, steps).db.offers;
      && Best(t, ask, bid).Some? && Live(t, Best(t, ask, bid).value.offer, ask, bid)
      && RatioOf(t, Best(t, ask, bid).value.offer) <= RatioOf(t, o)
  {
    RunValid(s, steps);
    hide OffersInv, NotesInv, JournalOk, Run, Possible, RatioOf, Best;
    BestIsBest(Run(s, steps).db.offers, ask, bid, o);
    BestIsLive(Run(s, steps).db.offers, ask, bid);
  }

  // ---------- no pair stays crossed without a trader ----------

  /** Every pair on which no trader runs is uncrossed. */
  ghost predicate Calm(t: Offers, traders: multiset<(Id, Id)>) {
    forall d0, d1 :: (d0, d1) !in traders && (d1, d0) !in traders ==> Uncrossed(t, d0, d1)
  }

  ghost predicate SiteCalm(s: Site) {
    Calm(s.db.offers, s.traders) && (s.saved.Some? ==> Calm(s.saved.value.offers, s.traders))
  }

  lemma UncrossedBothWays(t: Offers, d0: Id, d1: Id)
    requires Uncrossed(t, d0, d1)
    ensures Uncrossed(t, d1, d0)
  {
    hide RatioOf, Cross;
    forall o0, o1 | Live(t, o0, d1, d0) && Live(t, o1, d0, d1)
      ensures !Cross(RatioOf(t, o0), RatioOf(t, o1))
    {
      CrossBothWays(RatioOf(t, o1), RatioOf(t, o0));
    }
  }

  lemma CrossBothWays(x: real, y: real)
    ensures Cross(x, y) == Cross(y, x)
  {}

  lemma CalmSurvives(t: Offers, t': Offers, traders: multiset<(Id, Id)>)
    requires Calm(t, traders) && Survivors(t, t')
    ensures Calm(t', traders)
  {
    hide Survivors, Uncrossed;
    forall d0, d1 | (d0, d1) !in traders && (d1, d0) !in traders
      ensures Uncrossed(t', d0, d1)
    {
      SurvivorsUncrossed(t, t', d0, d1);
    }
  }

  /** A new offer can only disturb its own pair. */
  lemma ListUncrossed(t: Offers, o: Id, a: Id, ask: Value, bid: Value, skip: nat, d0: Id, d1: Id)
    requires bid.quant != 0.0 && Uncrossed(t, d0, d1)
    requires (d0, d1) != (ask.denom, bid.denom) && (d1, d0) != (ask.denom, bid.denom)
    ensures Uncrossed(List(t, o, a, ask, bid, skip), d0, d1)
  {
    hide AddFirst, Insert, At, Cross;
    var t' := List(t, o, a, ask, bid, skip);
    forall o0, o1 | Live(t', o0, d0, d1) && Live(t', o1, d1, d0)
      ensures !Cross(RatioOf(t', o0), RatioOf(t', o1))
    {
      assert o0 != o && o1 != o;
      assert Live(t, o0, d0, d1) && Live(t, o1, d1, d0);
      assert RatioOf(t', o0) == RatioOf(t, o0) && RatioOf(t', o1) == RatioOf(t, o1);
    }
  }

  lemma CalmList(t: Offers, o: Id, a: Id, ask: Value, bid: Value, skip: nat, traders: multiset<(Id, Id)>)
    requires bid.quant != 0.0 && Calm(t, traders)
    ensures Calm(List(t, o, a, ask, bid, skip), traders + multiset{(ask.denom, bid.denom)})
  {
    hide Uncrossed, List;
    var more := traders + multiset{(ask.denom, bid.denom)};
    forall d0, d1 | (d0, d1) !in more && (d1, d0) !in more
      ensures Uncrossed(List(t, o, a, ask, bid, skip), d0, d1)
    {
      ListUncrossed(t, o, a, ask, bid, skip, d0, d1);
    }
  }

  /** A trader that ends leaves its pair uncrossed. */
  lemma CalmStop(t: Offers, traders: multiset<(Id, Id)>, d0: Id, d1: Id)
    requires OffersInv(t) && Calm(t, traders) && (d0 == d1 || !CanTrade(t, d0, d1))
    ensures Calm(t, traders - multiset{(d0, d1)})
  {
    if d0 != d1 {
      StoppedIsUncrossed(t, d0, d1);
    } else {
      NoneOfOne(t, d0);
    }
    UncrossedBothWays(t, d0, d1);
    hide Uncrossed, OffersInv, CanTrade;
    var less := traders - multiset{(d0, d1)};
    forall e0, e1 | (e0, e1) !in less && (e1, e0) !in less
      ensures Uncrossed(t, e0, e1)
    {
      if (e0, e1) in traders {
        assert (e0, e1) == (d0, d1);
      } else if (e1, e0) in traders {
        assert (e1, e0) == (d0, d1);
      }
    }
  }

  lemma NoneOfOne(t: Offers, d: Id)
    ensures Uncrossed(t, d, d)
  {}

  lemma {:induction false} WithdrawAllOffers(db: Db, me: Id, n: Id, vl: seq<Value>)
    ensures
      var o := WithdrawAll(db, me, n, vl);
      o.Error? || o.db.offers == db.offers
    decreases |vl|
  {
    hide Debit, DebitForced;
    if vl == [] {
    } else if Debit(db, me, vl[0]).Debited? {
      DebitedIs(db, me, vl[0]);
      DebitOffers(db, me, vl[0]);
      WithdrawAllOffers(SetNoteValue(Debit(db, me, vl[0]).db, n, vl[0]), me, n, vl[1..]);
    }
  }

  lemma {:induction false} DebitAllFrame(db: Db, a: Id, vl: seq<Value>)
    ensures DebitForcedAll(db, a, vl).offers == db.offers && DebitForcedAll(db, a, vl).notes == db.notes
    decreases |vl|
  {
    hide DebitForced;
    if vl == [] {
    } else {
      DebitOffers(db, a, vl[0]);
      DebitAllFrame(DebitForced(db, a, vl[0]), a, vl[1..]);
    }
  }

  /** Only the two offer commands touch the offers. */
  lemma ResultOffers(s: Site, step: Step)
    requires IsCommand(step) && !step.OfferCreateStep? && !step.OfferDestroyStep?
    ensures Result(s, step).Error? || Result(s, step).db.offers == s.db.offers
  {
    hide CreditAll, DebitForcedAll, WithdrawAll, DestroyNotes, Gather, Funded, AllKnown, KeyScan.Listing, Answers;
    match step
    case CreditStep(me, target, args) =>
      if Gather([], args).Some? { CreditAllFrame(s.db, target, Gather([], args).value); }
    case DebitStep(me, target, args) =>
      if Gather([], args).Some? { DebitAllFrame(s.db, target, Gather([], args).value); }
    case WithdrawStep(me, n, c, args) =>
      if Gather([], args).Some? {
        var db2 := SetChallenge(s.db.(notes := SetNoteIssuer(s.db.notes, n, me)), n, c);
        WithdrawAllOffers(db2, me, n, Gather([], args).value);
      }
    case DepositStep(me, n, r) => CreditAllFrame(s.db, me, KeyScan.Listing(s.db.notes.value, n));
    case AcctDestroyStep(me, target) =>
      DestroyNotesFrame(Logged(s.db, AcctDestroyEvent(target)), Reverse(At(s.db.notes.acctNote, target)), s.db.accts);
    case _ =>
  }

  lemma OfferDestroySurvivors(db: Db, me: Id, o: Id)
    requires Inv(db)
    ensures
      var r := OfferDestroyCmd(db, me, o);
      r.Error? || Survivors(db.offers, r.db.offers)
  {
    hide OffersInv, NotesInv, JournalOk, Credit, Unlist, Survivors;
    SurvivorsRefl(db.offers);
    SameKeys(db.offers);
    if o in db.offers.bid {
      CreditFrame(db, me, db.offers.bid[o]);
      FillAll(db.offers, o);
    }
  }

  lemma ResultCalm(s: Site, step: Step)
    requires Inv(s.db) && Calm(s.db.offers, s.traders) && IsCommand(step)
    ensures
      var o := Result(s, step);
      o.Error? || Calm(o.db.offers, Signalled(s, step, o))
  {
    hide Inv, Calm, Survivors, List, Debit, StringToValue;
    hide CreditCmd, DebitCmd, WithdrawCmd, DepositCmd, OfferDestroyCmd, AcctDestroyCmd;
    match step
    case OfferCreateStep(me, o, askArg, bidArg, skip) =>
      match OfferArgs(askArg, bidArg) {
        case None =>
        case Some((ask, bid)) =>
          DebitedIs(s.db, me, bid);
          DebitOffers(s.db, me, bid);
          CalmList(s.db.offers, o, me, ask, bid, skip, s.traders);
      }
    case OfferDestroyStep(me, o) =>
      OfferDestroySurvivors(s.db, me, o);
      var r := OfferDestroyCmd(s.db, me, o);
      if !r.Error? { CalmSurvives(s.db.offers, r.db.offers, s.traders); }
    case _ => ResultOffers(s, step);
  }

  /** More traders, more pairs excused. */
  lemma CalmMore(t: Offers, traders: multiset<(Id, Id)>, more: multiset<(Id, Id)>)
    requires Calm(t, traders) && traders <= more
    ensures Calm(t, more)
  {
    hide Uncrossed;
  }

  lemma NextCalm(s: Site, step: Step)
    requires Valid(s) && Enabled(s, step) && SiteCalm(s)
    ensures SiteCalm(Next(s, step))
  {
    hide OffersInv, NotesInv, JournalOk, Calm, Result, Execute, CanTrade, Survivors;
    match step
    case TxnCreateStep(_) =>
    case TxnCommitStep =>
    case TxnAbortStep =>
    case TraderStep(d0, d1) =>
      if d0 == d1 || !CanTrade(s.db.offers, d0, d1) {
        CalmStop(s.db.offers, s.traders, d0, d1);
      } else {
        ExecutePreserves(s.db, d0, d1);
        CalmSurvives(s.db.offers, Execute(s.db, d0, d1).offers, s.traders);
      }
    case _ =>
      ResultCalm(s, step);
      var more := Signalled(s, step, Result(s, step));
      CalmMore(s.db.offers, s.traders, more);
      if s.saved.Some? { CalmMore(s.saved.value.offers, s.traders, more); }
  }

  /** In every reachable state every pair is uncrossed on which no trader runs; so once the traders have
      ended no two offers cross. */
  lemma {:induction false} RunCalm(s: Site, steps: seq<Step>)
    requires Valid(s) && Possible(s, steps) && SiteCalm(s)
    ensures SiteCalm(Run(s, steps))
    ensures Run(s, steps).traders == multiset{} ==> forall d0, d1 :: Uncrossed(Run(s, steps).db.offers, d0, d1)
    decreases |steps|
  {
    hide Valid, Next, Enabled, Uncrossed;
    if steps == [] {
    } else {
      NextValid(s, steps[0]);
      NextCalm(s, steps[0]);
      RunCalm(Next(s, steps[0]), steps[1..]);
    }
  }

  /** Every step of a trader uses up an offer or the trader. */
  lemma TraderShrinks(s: Site, d0: Id, d1: Id)
    requires Valid(s) && Enabled(s, TraderStep(d0, d1))
    ensures
      var s' := Next(s, TraderStep(d0, d1));
      |s'.db.offers.bid| + |s'.traders| < |s.db.offers.bid| + |s.traders|
  {
    hide OffersInv, NotesInv, JournalOk, Execute, CanTrade;
    if d0 != d1 && CanTrade(s.db.offers, d0, d1) { ExecutePreserves(s.db, d0, d1); }
  }

  /** However the traders take turns, between two commands they take boundedly many steps. */
  lemma {:induction false} TradersEnd(s: Site, steps: seq<Step>)
    requires Valid(s) && Possible(s, steps) && forall x :: x in steps ==> x.TraderStep?
    ensures |steps| <= |s.db.offers.bid| + |s.traders|
    decreases |steps|
  {
    if steps == [] {
    } else {
      var step := steps[0];
      assert step in steps && forall x :: x in steps[1..] ==> x in steps;
      NextValid(s, step);
      TraderShrinks(s, step.d0, step.d1);
      hide Valid, Next, Enabled;
      TradersEnd(Next(s, step), steps[1..]);
    }
  }

  /** An exchange uncrossed in all pairs is so again when the matching after offer_create has ended. */
  lemma CreateAndMatch(db: Db, me: Id, o: Id, askArg: CString, bidArg: CString, skip: nat)
    requires Inv(db) && o !in db.offers.issuer && forall d0, d1 :: Uncrossed(db.offers, d0, d1)
    requires OfferArgs(askArg, bidArg).Some? && OfferCreateCmd(db, me, o, askArg, bidArg, skip).Commit?
    ensures
      var (ask, bid) := OfferArgs(askArg, bidArg).value;
      var db1 := OfferCreateCmd(db, me, o, askArg, bidArg, skip).db;
      Inv(db1) && forall d0, d1 :: Uncrossed(Process(db1, ask.denom, bid.denom).offers, d0, d1)
  {
    hide Inv, Uncrossed, Survivors, List, Debit, StringToValue;
    var (ask, bid) := OfferArgs(askArg, bidArg).value;
    var db1 := OfferCreateCmd(db, me, o, askArg, bidArg, skip).db;
    OfferCreateCmdInv(db, me, o, askArg, bidArg, skip);
    DebitedIs(db, me, bid);
    DebitOffers(db, me, bid);
    var db2 := Process(db1, ask.denom, bid.denom);
    ProcessUncrosses(db1, ask.denom, bid.denom);
    UncrossedBothWays(db2.offers, ask.denom, bid.denom);
    forall d0, d1 ensures Uncrossed(db2.offers, d0, d1) {
      if (d0, d1) != (ask.denom, bid.denom) && (d1, d0) != (ask.denom, bid.denom) {
        ListUncrossed(db.offers, o, me, ask, bid, skip, d0, d1);
        SurvivorsUncrossed(db1.offers, db2.offers, d0, d1);
      }
    }
  }

  // ---------- supply over every run ----------

  /** What a step adds to the supply: admin credits and debits, the spread of a trade, and what vanishes
      with an account. Everything else adds nothing. */
  ghost function Change(s: Site, step: Step, d: Id): real
    requires Valid(s)
  {
    if step.TraderStep? then
      if step.d0 == step.d1 || !CanTrade(s.db.offers, step.d0, step.d1) then 0.0
      else -ExecuteSpread(s.db.offers, step.d0, step.d1, d)
    else if !IsCommand(step) || !Result(s, step).Commit? then 0.0
    else if step.CreditStep? then ArgsTotal(step.args, d)
    else if step.DebitStep? then -ArgsTotal(step.args, d)
    else if step.AcctDestroyStep? then -Vanishing(s.db, step.target, d)
    else 0.0
  }

  /** net: what the supply has changed so far; kept: what net was when the parent transaction began. */
  datatype Books = Books(net: real, kept: real)

  predicate RollsBack(s: Site, step: Step, o: Outcome) {
    s.saved.Some? && (step.TxnAbortStep? || (IsCommand(step) && o.Error?))
  }

  ghost function Book(s: Site, b: Books, step: Step, d: Id): Books
    requires Valid(s)
  {
    if RollsBack(s, step, if IsCommand(step) then Result(s, step) else Error) then b.(net := b.kept)
    else if step.TxnCreateStep? && MayOpen(s, step.me) then b.(kept := b.net)
    else b.(net := b.net + Change(s, step, d))
  }

  ghost predicate Balanced(s: Site, b: Books, d: Id, base: real) {
    Supply(s.db, d) == base + b.net && (s.saved.Some? ==> Supply(s.saved.value, d) == base + b.kept)
  }

  lemma ResultSupply(s: Site, step: Step, d: Id)
    requires Valid(s) && IsCommand(step) && Enabled(s, step)
    ensures
      var o := Result(s, step);
      o.Error? || Supply(o.db, d) == Supply(s.db, d) + Change(s, step, d)
  {
    hide Inv, Supply, CreditCmd, DebitCmd, WithdrawCmd, DepositCmd, OfferCreateCmd, OfferDestroyCmd, AcctDestroyCmd;
    match step
    case CreditStep(me, target, args) => CreditCmdSupply(s.db, me, target, args, d);
    case DebitStep(me, target, args) => DebitCmdSupply(s.db, me, target, args, d);
    case WithdrawStep(me, n, c, args) => WithdrawCmdSupply(s.db, s.saved.Some?, me, n, c, args, d);
    case DepositStep(me, n, r) => DepositCmdSupply(s.db, me, n, r, d);
    case OfferCreateStep(me, o, ask, bid, skip) => OfferCreateCmdSupply(s.db, me, o, ask, bid, skip, d);
    case OfferDestroyStep(me, o) => OfferDestroyCmdSupply(s.db, me, o, d);
    case AcctDestroyStep(me, target) => AcctDestroyCmdSupply(s.db, me, target, d);
    case AdminStep(flags, public, secret, modulus, denomIssuer) => SupplySame(s.db, Result(s, step).db, d);
    case FaultStep =>
  }

  lemma NextBalanced(s: Site, b: Books, step: Step, d: Id, base: real)
    requires Valid(s) && Enabled(s, step) && Balanced(s, b, d, base)
    ensures Balanced(Next(s, step), Book(s, b, step, d), d, base)
  {
    hide Inv, Supply, Result, Execute, CanTrade, ExecuteSpread, Signalled;
    match step
    case TxnCreateStep(_) =>
    case TxnCommitStep =>
    case TxnAbortStep =>
    case TraderStep(d0, d1) => if d0 != d1 && CanTrade(s.db.offers, d0, d1) { SupplyExecute(s.db, d0, d1, d); }
    case _ =>
      ResultSupply(s, step, d);
  }

  ghost function BookRun(s: Site, b: Books, steps: seq<Step>, d: Id): Books
    requires Valid(s) && Possible(s, steps)
    decreases |steps|
  {
    if steps == [] then b
    else
      NextValid(s, steps[0]);
      BookRun(Next(s, steps[0]), Book(s, b, steps[0], d), steps[1..], d)
  }

  /** Over every run the supply changes by exactly what is booked. */
  lemma {:induction false} RunBalanced(s: Site, b: Books, steps: seq<Step>, d: Id, base: real)
    requires Valid(s) && Possible(s, steps) && Balanced(s, b, d, base)
    ensures Balanced(Run(s, steps), BookRun(s, b, steps, d), d, base)
    decreases |steps|
  {
    hide Valid, Next, Enabled, Book, Balanced;
    if steps == [] {
    } else {
      NextValid(s, steps[0]);
      NextBalanced(s, b, steps[0], d, base);
      RunBalanced(Next(s, steps[0]), Book(s, b, steps[0], d), steps[1..], d, base);
    }
  }

  lemma RunSupply(s: Site, steps: seq<Step>, d: Id)
    requires Valid(s) && Possible(s, steps) && s.saved.None?
    ensures Supply(Run(s, steps).db, d) == Supply(s.db, d) + BookRun(s, Books(0.0, 0.0), steps, d).net
  {
    hide Supply, Valid, Run, BookRun, Possible;
    RunBalanced(s, Books(0.0, 0.0), steps, d, Supply(s.db, d));
  }

  /** Neither an admin's credit or debit nor the destruction of an account. */
  predicate Ordinary(step: Step) { !step.CreditStep? && !step.DebitStep? && !step.AcctDestroyStep? }

  ghost predicate AtMost(s: Site, d: Id, base: real) {
    Supply(s.db, d) <= base && (s.saved.Some? ==> Supply(s.saved.value, d) <= base)
  }

  /** Without them nothing creates value: the supply of no denomination ever grows. */
  lemma {:induction false} NothingCreated(s: Site, steps: seq<Step>, d: Id, base: real)
    requires Valid(s) && Possible(s, steps) && AtMost(s, d, base) && forall x :: x in steps ==> Ordinary(x)
    ensures AtMost(Run(s, steps), d, base)
    decreases |steps|
  {
    if steps == [] {
    } else {
      var step := steps[0];
      assert step in steps && forall x :: x in steps[1..] ==> x in steps;
      NextValid(s, step);
      NextAtMost(s, step, d, base);
      hide Valid, Next, Enabled, AtMost;
      NothingCreated(Next(s, step), steps[1..], d, base);
    }
  }

  lemma NextAtMost(s: Site, step: Step, d: Id, base: real)
    requires Valid(s) && Enabled(s, step) && AtMost(s, d, base) && Ordinary(step)
    ensures AtMost(Next(s, step), d, base)
  {
    hide Inv, Supply, Result, Execute, CanTrade, ExecuteSpread, Signalled;
    match step
    case TxnCreateStep(_) =>
    case TxnCommitStep =>
    case TxnAbortStep =>
    case TraderStep(d0, d1) => if d0 != d1 && CanTrade(s.db.offers, d0, d1) { SupplyExecute(s.db, d0, d1, d); }
    case _ => ResultSupply(s, step, d);
  }

  // ---------- balances below zero over every run ----------

  /** Flags and issuers of denominations stay as they are, and nobody is debited by force. */
  predicate Fixed(s: Site, step: Step) {
    && !step.DebitStep?
    && (step.AdminStep? ==> step.flags == s.db.accts.flags && step.denomIssuer == s.db.accts.denomIssuer)
  }

  ghost predicate SiteNonNeg(s: Site) {
    NonNeg(s.db.accts) && (s.saved.Some? ==> NonNeg(s.saved.value.accts))
  }

  lemma ResultNonNeg(s: Site, step: Step)
    requires Inv(s.db) && NonNeg(s.db.accts) && IsCommand(step) && Enabled(s, step) && Fixed(s, step)
    ensures Result(s, step).Error? || NonNeg(Result(s, step).db.accts)
  {
    hide OffersInv, JournalOk, ReverseOk, NonNeg, CreditAll, WithdrawAll, DestroyNotes, Gather, Funded, AllKnown;
    hide KeyScan.Listing, Answers, Debit, Credit, List, Unlist, StringToValue, DestroyAcct;
    match step
    case CreditStep(me, target, args) =>
      Gathered(args, "");
      if Gather([], args).Some? { CreditAllNonNeg(s.db, target, Gather([], args).value); }
    case WithdrawStep(me, n, c, args) =>
      if Gather([], args).Some? {
        var db2 := SetChallenge(s.db.(notes := SetNoteIssuer(s.db.notes, n, me)), n, c);
        WithdrawAllNonNeg(db2, me, n, Gather([], args).value);
      }
    case DepositStep(me, n, r) =>
      ListingPositive(s.db.notes, n);
      CreditAllNonNeg(s.db, me, KeyScan.Listing(s.db.notes.value, n));
    case OfferCreateStep(me, o, askArg, bidArg, skip) =>
      if OfferArgs(askArg, bidArg).Some? && Debit(s.db, me, OfferArgs(askArg, bidArg).value.1).Debited? {
        DebitNonNeg(s.db, me, OfferArgs(askArg, bidArg).value.1);
      }
    case OfferDestroyStep(me, o) =>
      HasBids(s.db.offers);
      if o in s.db.offers.bid { CreditNonNeg(s.db, me, s.db.offers.bid[o]); }
    case AcctDestroyStep(me, target) => DestroyAcctNonNeg(s.db, target);
    case AdminStep(flags, public, secret, modulus, denomIssuer) =>
      SamePrivileges(s.db.accts, Result(s, step).db.accts);
    case FaultStep =>
  }

  lemma HasBids(t: Offers)
    requires OffersInv(t)
    ensures forall o :: o in t.bid ==> t.bid[o].quant > 0.0
  {}

  lemma SamePrivileges(t: Accts, t': Accts)
    requires NonNeg(t) && t'.value == t.value && t'.flags == t.flags && t'.denomIssuer == t.denomIssuer
    ensures NonNeg(t')
  {}

  lemma ListingPositive(t: Notes, n: Id)
    requires NotesInv(t)
    ensures forall v :: v in KeyScan.Listing(t.value, n) ==> v.quant > 0.0
  {
    hide KeyScan.Listing, ReverseOk;
    forall v | v in KeyScan.Listing(t.value, n) ensures v.quant > 0.0 {
      KeyScan.ListingExact(t.value, n, v);
    }
  }

  lemma SetAskAccts(db: Db, o: Id, v: Value)
    ensures SetAsk(db, o, v).accts == db.accts
  {}

  lemma CreditedNonNeg(db: Db, o0: Id, o1: Id)
    requires Tradable(db.offers, o0, o1) && NonNeg(db.accts)
    requires ThetasOf(db.offers, o0, o1).0 > 0.0 && ThetasOf(db.offers, o0, o1).1 > 0.0
    ensures NonNeg(Credited(db, o0, o1).accts)
  {
    hide NonNeg, Credit, ThetasOf, Minus, SetAsk;
    var t := db.offers;
    var (t0, t1) := ThetasOf(t, o0, o1);
    Positive(t.ask[o0].quant, t0);
    Positive(t.ask[o1].quant, t1);
    var c0, c1 := Scaled(t.ask[o0], t0), Scaled(t.ask[o1], t1);
    CreditNonNeg(db, t.issuer[o0], c0);
    SetAskAccts(Credit(db, t.issuer[o0], c0), o0, Minus(t.ask[o0], c0));
    var db1 := SetAsk(Credit(db, t.issuer[o0], c0), o0, Minus(t.ask[o0], c0));
    CreditNonNeg(db1, t.issuer[o1], c1);
    SetAskAccts(Credit(db1, t.issuer[o1], c1), o1, Minus(t.ask[o1], c1));
  }

  /** Trades only credit accounts. */
  lemma TradeNonNeg(db: Db, o0: Id, o1: Id, d0: Id, d1: Id)
    requires Inv(db) && Crossing(db.offers, o0, o1, d0, d1) && Tradable(db.offers, o0, o1) && NonNeg(db.accts)
    ensures NonNeg(Trade(db, o0, o1).accts)
  {
    hide OffersInv, NotesInv, JournalOk, NonNeg, ThetasOf, Minus, Scaled, Trade, Credited, Crossing, Tradable, RestKept;
    CrossingThetas(db.offers, o0, o1, d0, d1);
    TradeKeepsRest(db, o0, o1);
    CreditedNonNeg(db, o0, o1);
  }

  lemma ExecuteNonNeg(db: Db, d0: Id, d1: Id)
    requires Inv(db) && CanTrade(db.offers, d0, d1) && NonNeg(db.accts)
    ensures NonNeg(Execute(db, d0, d1).accts)
  {
    hide OffersInv, NotesInv, JournalOk, Trade, CanTrade, Crossing, Tradable, NonNeg;
    BestCross(db.offers, d0, d1);
    TradeNonNeg(db, Best0(db.offers, d0, d1), Best1(db.offers, d0, d1), d0, d1);
  }

  lemma NextNonNeg(s: Site, step: Step)
    requires Valid(s) && Enabled(s, step) && Fixed(s, step) && SiteNonNeg(s)
    ensures SiteNonNeg(Next(s, step))
  {
    hide Inv, NonNeg, Result, Execute, CanTrade, Signalled;
    match step
    case TxnCreateStep(_) =>
    case TxnCommitStep =>
    case TxnAbortStep =>
    case TraderStep(d0, d1) => if d0 != d1 && CanTrade(s.db.offers, d0, d1) { ExecuteNonNeg(s.db, d0, d1); }
    case _ => ResultNonNeg(s, step);
  }

  /** Every step of the run leaves flags and issuers as they are when it is taken. */
  ghost predicate RunFixed(s: Site, steps: seq<Step>)
    requires Valid(s) && Possible(s, steps)
    decreases |steps|
  {
    steps == [] ||
    (Fixed(s, steps[0]) && (NextValid(s, steps[0]); RunFixed(Next(s, steps[0]), steps[1..])))
  }

  /** While flags and issuers stay and nobody is debited by force, only super accounts and flagged issuers
      of a denomination are ever below zero in it, whatever is traded. */
  lemma {:induction false} RunNonNeg(s: Site, steps: seq<Step>)
    requires Valid(s) && Possible(s, steps) && RunFixed(s, steps) && SiteNonNeg(s)
    ensures SiteNonNeg(Run(s, steps))
    decreases |steps|
  {
    hide Valid, Next, Enabled, Fixed, SiteNonNeg;
    if steps == [] {
    } else {
      NextValid(s, steps[0]);
      NextNonNeg(s, steps[0]);
      RunNonNeg(Next(s, steps[0]), steps[1..]);
    }
  }

  // ---------- refusals ----------

  /** A refused withdrawal changes no balance, inside a parent transaction or outside. */
  lemma RefusedWithdrawal(s: Site, me: Id, n: Id, c: int, args: seq<CString>)
    requires Valid(s) && Result(s, WithdrawStep(me, n, c, args)).Abort?
    ensures Next(s, WithdrawStep(me, n, c, args)).db.accts == s.db.accts
  {
    hide Inv, WithdrawCmd;
    if s.saved.Some? { RefusedInside(s.db, me, n, c, args); }
  }

  // ---------- what one trade does ----------

  /** What is left of an offer of which the fraction f was filled. */
  ghost predicate Remains(t: Offers, t': Offers, o: Id, f: real)
    requires o in t.bid && o in t.ask
  {
    && (o in t'.bid <==> f < 1.0) && (o in t'.ask <==> f < 1.0)
    && (f < 1.0 ==>
        && t'.bid[o] == Minus(t.bid[o], Scaled(t.bid[o], f))
        && t'.ask[o] == Minus(t.ask[o], Scaled(t.ask[o], f)))
  }

  /** The bids and asks after a fill. */
  lemma FillTables(t: Offers, o: Id, f: real)
    requires OffersInv(t) && o in t.bid && o in t.ask
    ensures
      var t', b, a := Fill(t, o, f), t.bid[o], t.ask[o];
      && (f == 1.0 ==> t'.bid == t.bid - {o} && t'.ask == t.ask - {o})
      && (f != 1.0 ==> t'.bid == t.bid[o := Minus(b, Scaled(b, f))] && t'.ask == t.ask[o := Minus(a, Scaled(a, f))])
  {
    OffersUnlist(t, o);
    hide OffersInv, Unlist, Minus, Scaled;
  }

  /** Offers other than o0 and o1 are as before. */
  ghost predicate Rest(t: Offers, t': Offers, o0: Id, o1: Id) {
    forall x :: x != o0 && x != o1 ==>
      && (x in t'.bid <==> x in t.bid) && (x in t'.ask <==> x in t.ask)
      && (x in t.bid ==> t'.bid[x] == t.bid[x]) && (x in t.ask ==> t'.ask[x] == t.ask[x])
  }

  lemma FillRemains(t: Offers, o: Id, f: real)
    requires OffersInv(t) && o in t.bid && o in t.ask && f <= 1.0
    ensures Remains(t, Fill(t, o, f), o, f) && Rest(t, Fill(t, o, f), o, o)
  {
    FillTables(t, o, f);
    hide OffersInv, Fill, Minus, Scaled, Remains, Rest;
    var t', b, a := Fill(t, o, f), t.bid[o], t.ask[o];
    if f == 1.0 {
      DropRemains(t, t', o);
    } else {
      PutRemains(t, t', o, f, Minus(b, Scaled(b, f)), Minus(a, Scaled(a, f)));
    }
  }

  lemma DropRemains(t: Offers, t': Offers, o: Id)
    requires o in t.bid && o in t.ask && t'.bid == t.bid - {o} && t'.ask == t.ask - {o}
    ensures Remains(t, t', o, 1.0) && Rest(t, t', o, o)
  {}

  lemma PutRemains(t: Offers, t': Offers, o: Id, f: real, b: Value, a: Value)
    requires o in t.bid && o in t.ask && f < 1.0 && t'.bid == t.bid[o := b] && t'.ask == t.ask[o := a]
    requires b == Minus(t.bid[o], Scaled(t.bid[o], f)) && a == Minus(t.ask[o], Scaled(t.ask[o], f))
    ensures Remains(t, t', o, f) && Rest(t, t', o, o)
  {
    hide Minus, Scaled;
  }

  lemma RemainsTwice(t: Offers, t1: Offers, t2: Offers, o0: Id, o1: Id, f0: real, f1: real)
    requires o0 != o1 && o0 in t.bid && o0 in t.ask && o1 in t.bid && o1 in t.ask
    requires Remains(t, t1, o0, f0) && Rest(t, t1, o0, o0)
    requires o1 in t1.bid && o1 in t1.ask && Remains(t1, t2, o1, f1) && Rest(t1, t2, o1, o1)
    ensures Remains(t, t2, o0, f0) && Remains(t, t2, o1, f1) && Rest(t, t2, o0, o1)
  {
    hide Minus, Scaled;
  }

  /** One trade: each issuer gets its fraction of what it asks, the offers shrink by the same fractions, and
      nothing else changes. */
  lemma TradeMoves(db: Db, o0: Id, o1: Id, d0: Id, d1: Id, x: Id, d: Id)
    requires Inv(db) && Crossing(db.offers, o0, o1, d0, d1) && Tradable(db.offers, o0, o1)
    ensures
      var t, db' := db.offers, Trade(db, o0, o1);
      var (t0, t1) := ThetasOf(t, o0, o1);
      && Balance(db', x, d) == Balance(db, x, d) + Only(x, t.issuer[o0], Of(Scaled(t.ask[o0], t0), d))
                               + Only(x, t.issuer[o1], Of(Scaled(t.ask[o1], t1), d))
      && Remains(t, db'.offers, o0, t0) && Remains(t, db'.offers, o1, t1)
      && db'.notes == db.notes && db'.accts == db.accts.(value := db'.accts.value)
    ensures Rest(db.offers, Trade(db, o0, o1).offers, o0, o1)
  {
    TradeOffers(db, o0, o1, d0, d1);
    TradeKeepsRest(db, o0, o1);
    CreditedBalance(db, o0, o1, x, d);
    hide Inv, Trade, Credited, Crossing, Tradable, ThetasOf, Balance, Remains, Rest, JournalOk;
    SameAccts(Credited(db, o0, o1), Trade(db, o0, o1), x, d);
  }

  lemma CreditedBalance(db: Db, o0: Id, o1: Id, x: Id, d: Id)
    requires Tradable(db.offers, o0, o1)
    ensures
      var t := db.offers;
      var (t0, t1) := ThetasOf(t, o0, o1);
      Balance(Credited(db, o0, o1), x, d) == Balance(db, x, d) + Only(x, t.issuer[o0], Of(Scaled(t.ask[o0], t0), d))
                                             + Only(x, t.issuer[o1], Of(Scaled(t.ask[o1], t1), d))
  {
    hide Balance, Credit, SetAsk, ThetasOf, Of, Minus, Scaled;
    var t := db.offers;
    var (t0, t1) := ThetasOf(t, o0, o1);
    var c0, c1 := Scaled(t.ask[o0], t0), Scaled(t.ask[o1], t1);
    var x0 := Credit(db, t.issuer[o0], c0);
    BalanceCredit(db, t.issuer[o0], c0, x, d);
    SetAskAccts(x0, o0, Minus(t.ask[o0], c0));
    var db1 := SetAsk(x0, o0, Minus(t.ask[o0], c0));
    SameAccts(x0, db1, x, d);
    BalanceCredit(db1, t.issuer[o1], c1, x, d);
    SetAskAccts(Credit(db1, t.issuer[o1], c1), o1, Minus(t.ask[o1], c1));
    SameAccts(Credit(db1, t.issuer[o1], c1), Credited(db, o0, o1), x, d);
  }

  lemma TradeOffers(db: Db, o0: Id, o1: Id, d0: Id, d1: Id)
    requires Inv(db) && Crossing(db.offers, o0, o1, d0, d1) && Tradable(db.offers, o0, o1)
    ensures
      var t, t' := db.offers, Trade(db, o0, o1).offers;
      var (t0, t1) := ThetasOf(t, o0, o1);
      Remains(t, t', o0, t0) && Remains(t, t', o1, t1) && Rest(t, t', o0, o1)
  {
    hide OffersInv, NotesInv, JournalOk, Trade, Fill, Crossing, ThetasOf, Minus, Scaled, Remains, Rest;
    var t := db.offers;
    TradeFills(db, o0, o1, d0, d1);
    CrossingThetas(t, o0, o1, d0, d1);
    SameKeys(t);
    var (t0, t1) := ThetasOf(t, o0, o1);
    FillRemains(t, o0, t0);
    FillPreserves(t, o0, t0);
    FillRemains(Fill(t, o0, t0), o1, t1);
    RemainsTwice(t, Fill(t, o0, t0), Trade(db, o0, o1).offers, o0, o1, t0, t1);
  }

  /** Both issuers of a trade are paid what they ask for. */
  lemma BothPaid(db: Db, o0: Id, o1: Id, d0: Id, d1: Id)
    requires Inv(db) && Crossing(db.offers, o0, o1, d0, d1) && Tradable(db.offers, o0, o1)
    ensures
      var t, db' := db.offers, Trade(db, o0, o1);
      && Balance(db', t.issuer[o0], d0) > Balance(db, t.issuer[o0], d0)
      && Balance(db', t.issuer[o1], d1) > Balance(db, t.issuer[o1], d1)
      && db'.accts == db.accts.(value := db'.accts.value)
  {
    var t := db.offers;
    CrossingThetas(t, o0, o1, d0, d1);
    var (t0, t1) := ThetasOf(t, o0, o1);
    var c0, c1 := Scaled(t.ask[o0], t0), Scaled(t.ask[o1], t1);
    assert c0.denom == d0 && c1.denom == d1 && d0 != d1;
    Positive(t.ask[o0].quant, t0);
    Positive(t.ask[o1].quant, t1);
    assert Of(c0, d0) > 0.0 && Of(c1, d0) == 0.0 && Of(c0, d1) == 0.0 && Of(c1, d1) > 0.0;
    hide Inv, Crossing, Trade, ThetasOf, Balance, Remains, Rest, Scaled, Minus, Of;
    TradeMoves(db, o0, o1, d0, d1, t.issuer[o0], d0);
    TradeMoves(db, o0, o1, d0, d1, t.issuer[o1], d1);
  }

  /** The offers of a destroyed account go on trading: a trade pays an account without keys exactly when one
      of its offers is orphaned. */
  lemma OrphansArePaid(db: Db, o0: Id, o1: Id, d0: Id, d1: Id)
    requires Inv(db) && Crossing(db.offers, o0, o1, d0, d1) && Tradable(db.offers, o0, o1)
    ensures
      var db' := Trade(db, o0, o1);
      (exists a, d :: Balance(db', a, d) > Balance(db, a, d) && a !in db'.accts.public)
      <==> Orphaned(db, o0) || Orphaned(db, o1)
  {
    var t, db' := db.offers, Trade(db, o0, o1);
    BothPaid(db, o0, o1, d0, d1);
    hide Inv, Crossing, Trade, Balance;
    forall a, d | Balance(db', a, d) > Balance(db, a, d)
      ensures a == t.issuer[o0] || a == t.issuer[o1]
    {
      if a != t.issuer[o0] && a != t.issuer[o1] { OthersUnpaid(db, o0, o1, d0, d1, a, d); }
    }
  }

  lemma OthersUnpaid(db: Db, o0: Id, o1: Id, d0: Id, d1: Id, a: Id, d: Id)
    requires Inv(db) && Crossing(db.offers, o0, o1, d0, d1) && Tradable(db.offers, o0, o1)
    requires a != db.offers.issuer[o0] && a != db.offers.issuer[o1]
    ensures Balance(Trade(db, o0, o1), a, d) == Balance(db, a, d)
  {
    hide Inv, Crossing, Trade, ThetasOf, Balance, Remains, Rest, Of;
    TradeMoves(db, o0, o1, d0, d1, a, d);
  }

  // ---------- parent transactions ----------

  /** txn_create opens a parent transaction for those who may, if none is open, and changes no table. */
  lemma CreateOpens(s: Site, me: Id)
    requires Valid(s)
    ensures
      var s' := Next(s, TxnCreateStep(me));
      && s'.db == s.db && s'.traders == s.traders
      && (s.saved.None? ==>
          (s'.saved == Some(s.db) <==>
            me in s.db.accts.flags && (s.db.accts.flags[me].txn || s.db.accts.flags[me].super))
          && (s'.saved == None || s'.saved == Some(s.db)))
      && (s.saved.Some? ==> s'.saved == s.saved)
  {
    hide Inv;
  }

  /** txn_commit keeps the tables and is final: no abort and no error goes back behind it, and the traders
      run again. */
  lemma CommitIsFinal(s: Site)
    requires Valid(s)
    ensures Valid(Next(s, TxnCommitStep))
    ensures
      var s' := Next(s, TxnCommitStep);
      && s'.db == s.db && s'.saved == None && s'.traders == s.traders
      && Next(s', TxnAbortStep) == s' && Next(s', FaultStep) == s'
      && forall d0, d1 :: (d0, d1) in s.traders ==> Enabled(s', TraderStep(d0, d1))
  {
    hide Inv;
  }

  /** A step in which the parent transaction stays open: nothing but commits, aborts and errors ends it. */
  ghost predicate Continues(s: Site, step: Step) {
    && !step.TxnCommitStep? && !step.TxnAbortStep?
    && (IsCommand(step) ==> !Result(s, step).Error?)
  }

  ghost predicate RunContinues(s: Site, steps: seq<Step>)
    requires Valid(s) && Possible(s, steps)
    decreases |steps|
  {
    steps == [] ||
    (Continues(s, steps[0]) && (NextValid(s, steps[0]); RunContinues(Next(s, steps[0]), steps[1..])))
  }

  lemma StaysOpen(s: Site, step: Step)
    requires Valid(s) && Enabled(s, step) && Continues(s, step) && s.saved.Some?
    ensures Next(s, step).saved == s.saved
  {
    hide Inv, Result;
  }

  lemma {:induction false} RunStaysOpen(s: Site, steps: seq<Step>)
    requires Valid(s) && Possible(s, steps) && RunContinues(s, steps) && s.saved.Some?
    ensures Run(s, steps).saved == s.saved
    decreases |steps|
  {
    hide Valid, Next, Enabled, Continues;
    if steps == [] {
    } else {
      NextValid(s, steps[0]);
      StaysOpen(s, steps[0]);
      RunStaysOpen(Next(s, steps[0]), steps[1..]);
    }
  }

  /** Whatever commands were taken since txn_create: an abort, and an error in any command, restore every
      table as it was then; a commit keeps every table as it is, for good. */
  lemma AllOrNothing(s: Site, me: Id, steps: seq<Step>)
    requires Valid(s) && MayOpen(s, me)
    requires Valid(Next(s, TxnCreateStep(me)))
    requires Possible(Next(s, TxnCreateStep(me)), steps) && RunContinues(Next(s, TxnCreateStep(me)), steps)
    ensures Valid(Run(Next(s, TxnCreateStep(me)), steps))
    ensures
      var t := Run(Next(s, TxnCreateStep(me)), steps);
      && Next(t, TxnAbortStep).db == s.db && Next(t, TxnAbortStep).saved == None
      && Next(t, FaultStep).db == s.db && Next(t, FaultStep).saved == None
      && Next(t, TxnCommitStep).db == t.db && Next(t, TxnCommitStep).saved == None
  {
    hide *;
    var s1 := Next(s, TxnCreateStep(me));
    Opened(s, me);
    RunValid(s1, steps);
    RunStaysOpen(s1, steps);
    Closing(Run(s1, steps), s.db);
  }

  lemma Opened(s: Site, me: Id)
    requires Valid(s) && MayOpen(s, me)
    ensures Next(s, TxnCreateStep(me)).saved == Some(s.db)
  {
    hide Inv;
  }

  lemma Closing(t: Site, db: Db)
    requires Valid(t) && t.saved == Some(db)
    ensures Next(t, TxnAbortStep).db == db && Next(t, TxnAbortStep).saved == None
    ensures Next(t, FaultStep).db == db && Next(t, FaultStep).saved == None
    ensures Next(t, TxnCommitStep).db == t.db && Next(t, TxnCommitStep).saved == None
  {
    hide Inv;
  }

  /** In particular any command that ends in an error. */
  lemma ErrorRestores(s: Site, step: Step)
    requires Valid(s) && IsCommand(step) && Result(s, step).Error?
    ensures
      var s' := Next(s, step);
      && s'.db == (if s.saved.Some? then s.saved.value else s.db)
      && s'.saved == None && s'.traders == s.traders
  {
    hide Inv, Result;
  }

  /** What a command that is not in error leaves: its work when it commits; otherwise nothing outside of a
      parent transaction, and inside whatever it had written. */
  lemma WorkKept(s: Site, step: Step)
    requires Valid(s) && IsCommand(step) && !Result(s, step).Error?
    ensures
      var s', o := Next(s, step), Result(s, step);
      && s'.saved == s.saved
      && (o.Commit? || s.saved.Some? ==> s'.db == o.db)
      && (o.Abort? && s.saved.None? ==> s'.db == s.db)
  {
    hide Inv, Result;
  }

  /** A trader is started by a committed offer_create, on its pair, and by nothing else; a trader that has
      nothing to do is the only one to end. */
  lemma TradersOf(s: Site, step: Step)
    requires Valid(s) && Enabled(s, step)
    ensures
      var s' := Next(s, step);
      if step.OfferCreateStep? && Result(s, step).Commit? then
        StringToValue(step.ask).Some? && StringToValue(step.bid).Some? &&
        s'.traders == s.traders + multiset{(StringToValue(step.ask).value.denom, StringToValue(step.bid).value.denom)}
      else if step.TraderStep? && (step.d0 == step.d1 || !CanTrade(s.db.offers, step.d0, step.d1)) then
        s'.traders == s.traders - multiset{(step.d0, step.d1)} && s'.db == s.db
      else s'.traders == s.traders
  {
    hide Inv, StringToValue, CanTrade, Execute;
    if step.OfferCreateStep? {
      hide Debit, List;
    } else if IsCommand(step) {
      hide Result;
    }
  }

  // ---------- settled pairs ----------

  /** In every reachable state no two live offers of a pair without a trader can pay for each other. */
  lemma RunSettled(s: Site, steps: seq<Step>, d0: Id, d1: Id, o0: Id, o1: Id)
    requires Valid(s) && Possible(s, steps) && SiteCalm(s)
    requires (d0, d1) !in Run(s, steps).traders && (d1, d0) !in Run(s, steps).traders
    requires Live(Run(s, steps).db.offers, o0, d0, d1) && Live(Run(s, steps).db.offers, o1, d1, d0)
    ensures
      var t := Run(s, steps).db.offers;
      t.ask[o0].quant * t.ask[o1].quant > t.bid[o0].quant * t.bid[o1].quant
  {
    hide *;
    RunCalm(s, steps);
    CalmAt(Run(s, steps), d0, d1);
    UncrossedPays(Run(s, steps).db.offers, o0, o1, d0, d1);
  }

  lemma CalmAt(s: Site, d0: Id, d1: Id)
    requires SiteCalm(s) && (d0, d1) !in s.traders && (d1, d0) !in s.traders
    ensures Uncrossed(s.db.offers, d0, d1)
  {
    hide Uncrossed;
  }

  /** A trader that is still running with two offers that can pay for each other trades. */
  lemma TraderTrades(s: Site, d0: Id, d1: Id, o0: Id, o1: Id)
    requires Valid(s) && Enabled(s, TraderStep(d0, d1))
    requires Live(s.db.offers, o0, d0, d1) && Live(s.db.offers, o1, d1, d0)
    requires
      var t := s.db.offers;
      t.ask[o0].quant * t.ask[o1].quant <= t.bid[o0].quant * t.bid[o1].quant
    ensures
      var s' := Next(s, TraderStep(d0, d1));
      |s'.db.offers.bid| < |s.db.offers.bid| && s'.traders == s.traders
  {
    hide *;
    HasInv(s);
    MayTrade(s.db.offers, o0, o1, d0, d1);
    ExecutePreserves(s.db, d0, d1);
    TradingStep(s, d0, d1);
  }

  lemma HasInv(s: Site)
    requires Valid(s)
    ensures Inv(s.db) && OffersInv(s.db.offers)
  {
    hide OffersInv, NotesInv, JournalOk;
  }

  lemma MayTrade(t: Offers, o0: Id, o1: Id, d0: Id, d1: Id)
    requires OffersInv(t) && Live(t, o0, d0, d1) && Live(t, o1, d1, d0)
    requires t.ask[o0].quant * t.ask[o1].quant <= t.bid[o0].quant * t.bid[o1].quant
    ensures d0 != d1 && CanTrade(t, d0, d1)
  {
    TradesIff(t, d0, d1);
    hide OffersInv, CanTrade;
  }

  lemma TradingStep(s: Site, d0: Id, d1: Id)
    requires Valid(s) && Enabled(s, TraderStep(d0, d1)) && d0 != d1 && CanTrade(s.db.offers, d0, d1)
    ensures Inv(s.db) && Next(s, TraderStep(d0, d1)) == s.(db := Execute(s.db, d0, d1))
  {
    hide Inv, CanTrade, Execute;
  }

  // ---------- the log of a trade ----------

  lemma SettleEvents(db: Db, o: Id, left: Value)
    ensures SettleBid(db, o, left).events == db.events + (if left.quant == 0.0 then [OfferDestroyEvent(o)] else [])
  {
    hide Unlist;
  }

  /** The log of a trade: both credits, then the offers that were filled in full. */
  lemma TradeLog(db: Db, o0: Id, o1: Id, d0: Id, d1: Id)
    requires Crossing(db.offers, o0, o1, d0, d1) && Tradable(db.offers, o0, o1)
    ensures
      var t := db.offers;
      var (t0, t1) := ThetasOf(t, o0, o1);
      Trade(db, o0, o1).events ==
        db.events + [CreditEvent(t.issuer[o0], Scaled(t.ask[o0], t0)), CreditEvent(t.issuer[o1], Scaled(t.ask[o1], t1))]
        + (if t0 == 1.0 then [OfferDestroyEvent(o0)] else []) + (if t1 == 1.0 then [OfferDestroyEvent(o1)] else [])
  {
    CrossingThetas(db.offers, o0, o1, d0, d1);
    CreditedEvents(db, o0, o1);
    hide Crossing, Credited, ThetasOf, Minus, Scaled, SettleBid;
    var t := db.offers;
    var (t0, t1) := ThetasOf(t, o0, o1);
    var db2 := Credited(db, o0, o1);
    var left0, left1 := Minus(t.bid[o0], Scaled(t.bid[o0], t0)), Minus(t.bid[o1], Scaled(t.bid[o1], t1));
    SettleEvents(db2, o0, left0);
    SettleEvents(SettleBid(db2, o0, left0), o1, left1);
  }

  lemma CreditedEvents(db: Db, o0: Id, o1: Id)
    requires Tradable(db.offers, o0, o1)
    ensures
      var t := db.offers;
      var (t0, t1) := ThetasOf(t, o0, o1);
      Credited(db, o0, o1).events == db.events
        + [CreditEvent(t.issuer[o0], Scaled(t.ask[o0], t0)), CreditEvent(t.issuer[o1], Scaled(t.ask[o1], t1))]
  {
    hide Add, ThetasOf, Minus, Scaled;
  }

  // ---------- what every command does to the balances of the server ----------

  /** How much a command moves to an account, in one denomination. The commands behind the cases say who
      may do what, inside a parent transaction or outside. */
  ghost function Moved(s: Site, step: Step, x: Id, d: Id): real {
    match step
    case CreditStep(me, target, args) =>
      if AdminMay(s.db, me, target, args) then Only(x, target, ArgsTotal(args, d)) else 0.0
    case DebitStep(me, target, args) =>
      if AdminMay(s.db, me, target, args) then -Only(x, target, ArgsTotal(args, d)) else 0.0
    case WithdrawStep(me, n, c, args) => if MayWithdraw(s, me, args) then -Only(x, me, ArgsTotal(args, d)) else 0.0
    case DepositStep(me, n, r) => if MayDeposit(s.db, n, r) then Only(x, me, Get(s.db.notes.value, (n, d))) else 0.0
    case OfferCreateStep(me, o, ask, bid, skip) =>
      if MayOffer(s.db, me, ask, bid) then -Only(x, me, OfArg(bid, d)) else 0.0
    case OfferDestroyStep(me, o) =>
      if o in s.db.offers.bid && o in s.db.offers.issuer && (s.db.offers.issuer[o] == me || IsSuper(s.db.accts, me))
      then Only(x, me, Of(s.db.offers.bid[o], d)) else 0.0
    case AcctDestroyStep(me, target) =>
      if IsSuper(s.db.accts, me) && me != target && target in s.db.accts.public
      then -Only(x, target, Balance(s.db, target, d)) else 0.0
    case _ => 0.0
  }

  ghost predicate MayWithdraw(s: Site, me: Id, args: seq<CString>) {
    && AllAcceptable(args) && me in s.db.accts.modulus && s.db.accts.modulus[me] > 0
    && TotalsCovered(s.db, me, args) && (s.saved.Some? ==> TotalsFunded(s.db, me, args))
  }

  predicate MayOffer(db: Db, me: Id, askArg: CString, bidArg: CString) {
    && Acceptable(askArg) && Acceptable(bidArg)
    && var ask, bid := StringToValue(askArg).value, StringToValue(bidArg).value;
       ask.denom != bid.denom && Covered(db, me, bid.denom, bid.quant)
  }

  lemma SameTables(db: Db, db': Db, x: Id, d: Id)
    requires db.accts == db'.accts
    ensures Balance(db, x, d) == Balance(db', x, d)
  {}

  lemma AdminMoved(s: Site, step: Step, x: Id, d: Id)
    requires Valid(s) && (step.CreditStep? || step.DebitStep?) && !Result(s, step).Error?
    ensures Balance(Result(s, step).db, x, d) == Balance(s.db, x, d) + Moved(s, step, x, d)
    ensures Result(s, step).Abort? ==> Moved(s, step, x, d) == 0.0
  {
    AdminCommits(s.db, step.me, step.target, step.args);
    AdminReplies(s.db, step.me, step.target, step.args);
    hide Inv, Balance, ArgsTotal, AdminMay, CreditCmd, DebitCmd;
    if Result(s, step).Commit? {
      if step.CreditStep? {
        CreditCmdIs(s.db, step.me, step.target, step.args, x, d);
      } else {
        DebitCmdIs(s.db, step.me, step.target, step.args, x, d);
      }
    }
  }

  lemma WithdrawMoved(s: Site, me: Id, n: Id, c: int, args: seq<CString>, x: Id, d: Id)
    requires Valid(s) && Enabled(s, WithdrawStep(me, n, c, args)) && !Result(s, WithdrawStep(me, n, c, args)).Error?
    ensures
      var step := WithdrawStep(me, n, c, args);
      && (Result(s, step).Commit? ==> Balance(Result(s, step).db, x, d) == Balance(s.db, x, d) + Moved(s, step, x, d))
      && (Result(s, step).Abort? ==> Moved(s, step, x, d) == 0.0)
  {
    WithdrawCommits(s.db, s.saved.Some?, me, n, c, args);
    hide Inv, Balance, ArgsTotal, WithdrawCmd, TotalsCovered, TotalsFunded, AllAcceptable;
    if Result(s, WithdrawStep(me, n, c, args)).Commit? {
      WithdrawnIs(s.db, s.saved.Some?, me, n, c, args, x, d);
    }
  }

  lemma DepositMoved(s: Site, me: Id, n: Id, r: Option<int>, x: Id, d: Id)
    requires Valid(s) && !Result(s, DepositStep(me, n, r)).Error?
    ensures
      var step := DepositStep(me, n, r);
      && Balance(Result(s, step).db, x, d) == Balance(s.db, x, d) + Moved(s, step, x, d)
      && (Result(s, step).Abort? ==> Moved(s, step, x, d) == 0.0)
  {
    DepositCommits(s.db, me, n, r);
    DepositReplies(s.db, me, n, r);
    hide Inv, Balance, DepositCmd, MayDeposit;
    if Result(s, DepositStep(me, n, r)).Commit? { DepositedIs(s.db, me, n, r, x, d); }
  }

  lemma OffersMoved(s: Site, step: Step, x: Id, d: Id)
    requires Valid(s) && Enabled(s, step) && (step.OfferCreateStep? || step.OfferDestroyStep?)
    requires !Result(s, step).Error?
    ensures Balance(Result(s, step).db, x, d) == Balance(s.db, x, d) + Moved(s, step, x, d)
    ensures Result(s, step).Abort? ==> Moved(s, step, x, d) == 0.0
  {
    HasInv(s);
    SameKeys(s.db.offers);
    hide Inv, OffersInv, Balance, OfferCreateCmd, OfferDestroyCmd, Covered, StringToValue;
    match step
    case OfferCreateStep(me, o, askArg, bidArg, skip) =>
      OfferCreateCommits(s.db, me, o, askArg, bidArg, skip);
      OtherReplies(s.db, me, o, askArg, bidArg, skip, "");
      if Result(s, step).Commit? { OfferCreatedIs(s.db, me, o, askArg, bidArg, skip, x, d); }
    case OfferDestroyStep(me, o) =>
      DestroyersCommit(s.db, me, o, "");
      OtherReplies(s.db, me, o, "", "", 0, "");
      if Result(s, step).Commit? { OfferDestroyedIs(s.db, me, o, x, d); }
  }

  lemma AcctMoved(s: Site, me: Id, target: Id, x: Id, d: Id)
    requires Valid(s) && !Result(s, AcctDestroyStep(me, target)).Error?
    ensures
      var step := AcctDestroyStep(me, target);
      && Balance(Result(s, step).db, x, d) == Balance(s.db, x, d) + Moved(s, step, x, d)
      && (Result(s, step).Abort? ==> Moved(s, step, x, d) == 0.0)
  {
    HasInv(s);
    hide Inv, OffersInv, AcctDestroyCmd;
    DestroyersCommit(s.db, me, "", target);
    OtherReplies(s.db, me, "", "", "", 0, target);
    if Result(s, AcctDestroyStep(me, target)).Commit? { AcctDestroyedIs(s.db, me, target); }
  }

  /** Every command that does not end in an error moves exactly what its arguments say, between the accounts
      they name and for those who may; every other command, and every command refused, moves nothing. */
  lemma CommandMoves(s: Site, step: Step, x: Id, d: Id)
    requires Valid(s) && Enabled(s, step) && IsCommand(step) && !Result(s, step).Error?
    ensures Balance(Next(s, step).db, x, d) == Balance(s.db, x, d) + Moved(s, step, x, d)
  {
    WorkKept(s, step);
    hide Inv, Result, Balance, Moved, Next;
    match step
    case CreditStep(me, target, args) => AdminMoved(s, step, x, d);
    case DebitStep(me, target, args) => AdminMoved(s, step, x, d);
    case WithdrawStep(me, n, c, args) =>
      WithdrawMoved(s, me, n, c, args, x, d);
      if Result(s, step).Abort? {
        RefusedWithdrawal(s, me, n, c, args);
        SameTables(s.db, Next(s, step).db, x, d);
      }
    case DepositStep(me, n, r) => DepositMoved(s, me, n, r, x, d);
    case OfferCreateStep(me, o, ask, bid, skip) => OffersMoved(s, step, x, d);
    case OfferDestroyStep(me, o) => OffersMoved(s, step, x, d);
    case AcctDestroyStep(me, target) => AcctMoved(s, me, target, x, d);
    case AdminStep(flags, public, secret, modulus, denomIssuer) => AdminMovesNothing(s, step, x, d);
    case FaultStep => FaultIsError(s);
  }

  lemma AdminMovesNothing(s: Site, step: Step, x: Id, d: Id)
    requires step.AdminStep?
    ensures Result(s, step).Commit? && Moved(s, step, x, d) == 0.0
    ensures Balance(Result(s, step).db, x, d) == Balance(s.db, x, d)
  {}

  lemma FaultIsError(s: Site)
    ensures Result(s, FaultStep).Error?
  {}
}
