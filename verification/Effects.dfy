/** What the commands of bif/shell.cc mean for the supply, for balances below zero, and for each other. */
module Effects {
  import opened Text
  import opened Portfolio
  import opened Sums
  import opened Ledger
  import opened Invariants
  import opened Conservation
  import opened Merge
  import opened Commands
  import KeyScan
  import Rsa

  // ---------- supply ----------

  lemma CreditCmdSupply(db: Db, me: Id, target: Id, args: seq<CString>, d: Id)
    ensures
      var o := CreditCmd(db, me, target, args);
      && (o.Commit? ==> Supply(o.db, d) == Supply(db, d) + ArgsTotal(args, d))
      && (o.Abort? ==> o.db == db)
  {
    hide Supply, Gather, CreditAll, StringToValue;
    Gathered(args, d);
    if Gather([], args).Some? { SupplyCreditAll(db, target, Gather([], args).value, d); }
  }

  lemma DebitCmdSupply(db: Db, me: Id, target: Id, args: seq<CString>, d: Id)
    ensures
      var o := DebitCmd(db, me, target, args);
      && (o.Commit? ==> Supply(o.db, d) == Supply(db, d) - ArgsTotal(args, d))
      && (o.Abort? ==> o.db == db)
  {
    hide Supply, Gather, DebitForcedAll, StringToValue;
    Gathered(args, d);
    if Gather([], args).Some? { SupplyDebitAll(db, target, Gather([], args).value, d); }
  }

  /** The supply sees only balances, note values and bids. */
  lemma SupplySame(db: Db, db': Db, d: Id)
    requires db.accts.value == db'.accts.value && db.notes.value == db'.notes.value && db.offers.bid == db'.offers.bid
    ensures Supply(db, d) == Supply(db', d)
  {}

  lemma {:induction false} WithdrawAllSupply(db: Db, me: Id, n: Id, vl: seq<Value>, d: Id)
    requires KeyScan.Distinct(vl) && forall v :: v in vl ==> (n, v.denom) !in db.notes.value
    ensures
      var o := WithdrawAll(db, me, n, vl);
      o.Error? || Supply(o.db, d) == Supply(db, d)
    decreases |vl|
  {
    hide Supply, Debit, DebitForced, KeyScan.Distinct;
    if vl == [] {
    } else if Debit(db, me, vl[0]).Debited? {
      var v, t := vl[0], vl[1..];
      DebitedIs(db, me, v);
      DebitOffers(db, me, v);
      var db1 := DebitForced(db, me, v);
      SupplyDebit(db, me, v, d);
      SupplyNoteValue(db1, n, v, d);
      TailDistinct(vl);
      assert v in vl && forall w :: w in t ==> w in vl;
      WithdrawAllSupply(SetNoteValue(db1, n, v), me, n, t, d);
    }
  }

  lemma TailDistinct(vl: seq<Value>)
    requires KeyScan.Distinct(vl) && vl != []
    ensures KeyScan.Distinct(vl[1..]) && forall v :: v in vl[1..] ==> v.denom != vl[0].denom
  {
    var t := vl[1..];
    assert forall i :: 0 <= i < |t| ==> t[i] == vl[i + 1];
  }

  /** Withdrawing moves value into the note: the supply stays, also when a refusal leaves half the
      entries in the tables. */
  lemma WithdrawCmdSupply(db: Db, inside: bool, me: Id, n: Id, c: int, args: seq<CString>, d: Id)
    requires Inv(db) && n !in db.notes.issuer
    ensures
      var o := WithdrawCmd(db, inside, me, n, c, args);
      o.Error? || Supply(o.db, d) == Supply(db, d)
  {
    hide Supply, Gather, WithdrawAll, Funded, StringToValue;
    Gathered(args, d);
    var db1 := db.(notes := SetNoteIssuer(db.notes, n, me));
    SupplySame(db, db1, d);
    if Gather([], args).Some? {
      var vl := Gather([], args).value;
      var db2 := SetChallenge(db1, n, c);
      SupplySame(db, db2, d);
      FreshNote(db, n);
      WithdrawAllSupply(db2, me, n, vl, d);
      var o := WithdrawAll(db2, me, n, vl);
      if o.Commit? { SupplySame(o.db, Logged(o.db, NoteCreateEvent(n)), d); }
    }
  }

  lemma FreshNote(db: Db, n: Id)
    requires Inv(db) && n !in db.notes.issuer
    ensures forall d: Id :: (n, d) !in db.notes.value
  {
    hide OffersInv, JournalOk, ReverseOk;
    assert forall d: Id :: (n, d) in db.notes.value ==> (n, d).0 in db.notes.issuer;
  }

  /** What the scan of a note lists of one denomination. */
  lemma ListingTotal(table: map<Key, real>, n: Id, d: Id)
    ensures Total(KeyScan.Listing(table, n), d) == Get(table, (n, d))
  {
    hide KeyScan.Listing, KeyScan.Distinct;
    var vl := KeyScan.Listing(table, n);
    KeyScan.ListingDistinct(table, n);
    DistinctTotal(vl, d);
    if (n, d) in table {
      KeyScan.ListingExact(table, n, Value(d, table[(n, d)]));
      var i :| 0 <= i < |vl| && vl[i] == Value(d, table[(n, d)]);
    }
    if Has(vl, d) {
      var i :| 0 <= i < |vl| && vl[i].denom == d;
      KeyScan.ListingExact(table, n, vl[i]);
    }
  }

  lemma CreditAllFrame(db: Db, a: Id, vl: seq<Value>)
    ensures CreditAll(db, a, vl).notes == db.notes && CreditAll(db, a, vl).offers == db.offers
    ensures CreditAll(db, a, vl).accts == db.accts.(value := CreditAll(db, a, vl).accts.value)
  {
    BalanceCreditAll(db, a, vl, "", "");
  }

  /** Depositing moves everything a note holds to the depositor. */
  lemma DepositCmdSupply(db: Db, me: Id, n: Id, response: Option<int>, d: Id)
    ensures
      var o := DepositCmd(db, me, n, response);
      o.Error? || Supply(o.db, d) == Supply(db, d)
  {
    hide Supply, Answers, CreditAll, DestroyNote, KeyScan.Listing;
    var vl := KeyScan.Listing(db.notes.value, n);
    SupplyCreditAll(db, me, vl, d);
    ListingTotal(db.notes.value, n, d);
    CreditAllFrame(db, me, vl);
    SupplyDestroyNote(CreditAll(db, me, vl), n, d);
  }

  lemma SupplyBids(db: Db, t: Offers, d: Id)
    ensures Supply(db.(offers := t), d) == Supply(db, d) - Sum(Bids(db.offers.bid, d)) + Sum(Bids(t.bid, d))
  {}

  /** An offer holds what was debited for it. */
  lemma OfferCreateCmdSupply(db: Db, me: Id, o: Id, askArg: CString, bidArg: CString, skip: nat, d: Id)
    requires Inv(db) && o !in db.offers.issuer
    ensures
      var r := OfferCreateCmd(db, me, o, askArg, bidArg, skip);
      && (r.Commit? ==> Supply(r.db, d) == Supply(db, d))
      && (r.Abort? ==> r.db == db)
  {
    hide OffersInv, NotesInv, JournalOk, Supply, Debit, DebitForced, StringToValue, Bids, Insert, AddFirst, At;
    match OfferArgs(askArg, bidArg)
    case None =>
    case Some((ask, bid)) =>
      if Debit(db, me, bid).Debited? {
        DebitedIs(db, me, bid);
        DebitOffers(db, me, bid);
        SupplyDebit(db, me, bid, d);
        var db' := DebitForced(db, me, bid);
        var t := List(db'.offers, o, me, ask, bid, skip);
        SupplyBids(db', t, d);
        SameKeys(db.offers);
        BidPut(db.offers.bid, o, bid, d);
        SupplySame(db'.(offers := t), Logged(db'.(offers := t), OfferCreateEvent(o)), d);
      }
  }

  lemma SameKeys(t: Offers)
    requires OffersInv(t)
    ensures t.issuer.Keys == t.bid.Keys == t.ask.Keys
  {}

  /** Cancelling gives the bid back, to whoever cancels. */
  lemma OfferDestroyCmdSupply(db: Db, me: Id, o: Id, d: Id)
    requires Inv(db)
    ensures
      var r := OfferDestroyCmd(db, me, o);
      && (r.Commit? ==> Supply(r.db, d) == Supply(db, d))
      && (r.Abort? ==> r.db == db)
  {
    hide OffersInv, NotesInv, JournalOk, Supply, Credit, DestroyOffer;
    SameKeys(db.offers);
    if o in db.offers.bid {
      var v := db.offers.bid[o];
      SupplyCredit(db, me, v, d);
      CreditFrame(db, me, v);
      SupplyDestroyOffer(Credit(db, me, v), o, d);
    }
  }

  lemma CreditFrame(db: Db, a: Id, v: Value)
    ensures Credit(db, a, v).offers == db.offers && Credit(db, a, v).notes == db.notes
  {}

  /** Destroying an account takes its balance and its notes out of circulation; its offers stay. */
  function Vanishing(db: Db, a: Id, d: Id): real {
    Balance(db, a, d) + NotesHold(db.notes.value, Reverse(At(db.notes.acctNote, a)), d)
  }

  lemma AcctDestroyCmdSupply(db: Db, me: Id, target: Id, d: Id)
    requires Inv(db)
    ensures
      var r := AcctDestroyCmd(db, me, target);
      && (r.Commit? ==> Supply(r.db, d) == Supply(db, d) - Vanishing(db, target, d))
      && (r.Abort? ==> r.db == db)
  {
    hide OffersInv, JournalOk, Supply, DestroyAcct;
    SupplyDestroyAcct(db, target, d);
  }

  // ---------- withdrawing and depositing ----------

  /** A withdrawal refused in a parent transaction has not touched a balance. */
  lemma RefusedInside(db: Db, me: Id, n: Id, c: int, args: seq<CString>)
    requires WithdrawCmd(db, true, me, n, c, args).Abort?
    ensures WithdrawCmd(db, true, me, n, c, args).db.accts == db.accts
  {
    hide Gather, Funded, WithdrawAll, StringToValue;
    if args != [] && Gather([], args).Some? && me in db.accts.modulus && db.accts.modulus[me] > 0 {
      CheckedWithdraw(db, me, n, c, args);
    }
  }

  /** What a withdrawal did: the amounts left the account, and the note holds them. */
  lemma WithdrawnIs(db: Db, inside: bool, me: Id, n: Id, c: int, args: seq<CString>, x: Id, d: Id)
    requires Inv(db) && n !in db.notes.issuer
    requires WithdrawCmd(db, inside, me, n, c, args).Commit?
    ensures
      var db' := WithdrawCmd(db, inside, me, n, c, args).db;
      && Balance(db', x, d) == Balance(db, x, d) - Only(x, me, ArgsTotal(args, d))
      && Get(db'.notes.value, (n, d)) == ArgsTotal(args, d)
      && n in db'.notes.issuer && db'.notes.issuer[n] == me
      && n in db'.notes.challenge && db'.notes.challenge[n] == c
      && db'.accts == db.accts.(value := db'.accts.value) && db'.offers == db.offers
  {
    hide Gather, Funded, WithdrawAll, StringToValue, Balance, Inv;
    Gathered(args, d);
    var vl := Gather([], args).value;
    var db2 := SetChallenge(db.(notes := SetNoteIssuer(db.notes, n, me)), n, c);
    WithdrawMoves(db2, me, n, vl, x, d);
    WithdrawNote(db2, me, n, vl, (n, d));
    FreshNote(db, n);
    DistinctTotal(vl, d);
    SameAccts(db, db2, x, d);
    SameAccts(WithdrawAll(db2, me, n, vl).db, WithdrawCmd(db, inside, me, n, c, args).db, x, d);
  }

  lemma SameAccts(db: Db, db': Db, x: Id, d: Id)
    requires db.accts == db'.accts
    ensures Balance(db, x, d) == Balance(db', x, d)
  {}

  /** What a deposit did: everything the note held went to the depositor, and the note is gone. */
  lemma DepositedIs(db: Db, b: Id, n: Id, response: Option<int>, x: Id, d: Id)
    requires DepositCmd(db, b, n, response).Commit?
    ensures
      var db' := DepositCmd(db, b, n, response).db;
      && Balance(db', x, d) == Balance(db, x, d) + Only(x, b, Get(db.notes.value, (n, d)))
      && n !in db'.notes.issuer && n !in db'.notes.challenge && (n, d) !in db'.notes.value
  {
    hide Answers, CreditAll, Balance, KeyScan.Listing;
    var vl := KeyScan.Listing(db.notes.value, n);
    BalanceCreditAll(db, b, vl, x, d);
    ListingTotal(db.notes.value, n, d);
    SameAccts(CreditAll(db, b, vl), DestroyNote(CreditAll(db, b, vl), n), x, d);
  }

  /** A note is a payment: withdrawn by one account and deposited by another, the amounts of the command
      line have gone from the one to the other and nowhere else. */
  lemma NoteIsPayment(db: Db, inside: bool, me: Id, n: Id, c: int, args: seq<CString>, b: Id, response: Option<int>,
                      x: Id, d: Id)
    requires Inv(db) && n !in db.notes.issuer
    requires WithdrawCmd(db, inside, me, n, c, args).Commit?
    requires DepositCmd(WithdrawCmd(db, inside, me, n, c, args).db, b, n, response).Commit?
    ensures
      var db' := DepositCmd(WithdrawCmd(db, inside, me, n, c, args).db, b, n, response).db;
      && Balance(db', x, d) == Balance(db, x, d) - Only(x, me, ArgsTotal(args, d)) + Only(x, b, ArgsTotal(args, d))
      && n !in db'.notes.issuer && (n, d) !in db'.notes.value
  {
    hide WithdrawCmd, DepositCmd, Balance, ArgsTotal, Inv;
    WithdrawnIs(db, inside, me, n, c, args, x, d);
    DepositedIs(WithdrawCmd(db, inside, me, n, c, args).db, b, n, response, x, d);
  }

  /** Who holds the secret key of the issuer can deposit the note, with exactly one response. */
  lemma OnlySignerDeposits(db: Db, b: Id, n: Id, response: nat, random: nat, p: int, q: int, ks: nat, kp: nat)
    requires Rsa.KeyPair(p, q, ks, kp) && p != q && p * q >= 2
    requires n in db.notes.issuer && db.notes.issuer[n] in db.accts.modulus && db.notes.issuer[n] in db.accts.public
    requires db.accts.modulus[db.notes.issuer[n]] == p * q && db.accts.public[db.notes.issuer[n]] == kp
    requires n in db.notes.challenge && db.notes.challenge[n] == Rsa.Challenge(random, p * q)
    ensures DepositCmd(db, b, n, Some(response)).Commit?
            <==> response == Rsa.Crypt(Rsa.Challenge(random, p * q), ks, p * q)
  {
    hide Rsa.KeyPair, Rsa.Crypt, Rsa.Challenge, CreditAll, DestroyNote, KeyScan.Listing;
    Rsa.OnlyTheSignature(p, q, ks, kp, random, response);
  }

  // ---------- balances below zero ----------

  /** Only privileged accounts are below zero. */
  ghost predicate NonNeg(t: Accts) {
    forall k :: k in t.value && t.value[k] < 0.0 ==> Privileged(t, k.0, k.1)
  }

  lemma CreditNonNeg(db: Db, a: Id, v: Value)
    requires NonNeg(db.accts) && v.quant >= 0.0
    ensures NonNeg(Credit(db, a, v).accts)
  {}

  lemma {:induction false} CreditAllNonNeg(db: Db, a: Id, vl: seq<Value>)
    requires NonNeg(db.accts) && forall v :: v in vl ==> v.quant >= 0.0
    ensures NonNeg(CreditAll(db, a, vl).accts)
    decreases |vl|
  {
    hide NonNeg, Credit;
    if vl == [] {
    } else {
      CreditNonNeg(db, a, vl[0]);
      assert forall v :: v in vl[1..] ==> v in vl;
      CreditAllNonNeg(Credit(db, a, vl[0]), a, vl[1..]);
    }
  }

  lemma DebitNonNeg(db: Db, a: Id, v: Value)
    requires NonNeg(db.accts) && Debit(db, a, v).Debited?
    ensures NonNeg(Debit(db, a, v).db.accts)
  {
    hide NonNeg, Store;
    StoreNonNeg(db.accts, (a, v.denom), Get(db.accts.value, (a, v.denom)) - v.quant);
  }

  lemma StoreNonNeg(t: Accts, k: Key, q: real)
    requires NonNeg(t) && (q < 0.0 ==> Privileged(t, k.0, k.1))
    ensures NonNeg(t.(value := Store(t.value, k, q)))
  {}

  lemma {:induction false} WithdrawAllNonNeg(db: Db, me: Id, n: Id, vl: seq<Value>)
    requires NonNeg(db.accts)
    ensures
      var o := WithdrawAll(db, me, n, vl);
      o.Error? || NonNeg(o.db.accts)
    decreases |vl|
  {
    hide NonNeg, Debit;
    if vl == [] {
    } else if Debit(db, me, vl[0]).Debited? {
      DebitNonNeg(db, me, vl[0]);
      WithdrawAllNonNeg(SetNoteValue(Debit(db, me, vl[0]).db, n, vl[0]), me, n, vl[1..]);
    }
  }

  lemma DestroyAcctNonNeg(db: Db, a: Id)
    requires NonNeg(db.accts)
    ensures NonNeg(DestroyAcct(db, a).accts)
  {
    hide DestroyNotes;
    DestroyNotesFrame(Logged(db, AcctDestroyEvent(a)), Reverse(At(db.notes.acctNote, a)), db.accts);
  }

  // ---------- who may do what ----------

  predicate IsSuper(t: Accts, a: Id) { a in t.flags && t.flags[a].super }

  predicate Covered(db: Db, a: Id, d: Id, q: real) { Balance(db, a, d) >= q || Privileged(db.accts, a, d) }

  lemma DebitCommits(db: Db, a: Id, v: Value)
    ensures Debit(db, a, v).Debited? <==> Covered(db, a, v.denom, v.quant)
  {}

  lemma {:induction false} WithdrawAllCommits(db: Db, me: Id, n: Id, vl: seq<Value>)
    requires KeyScan.Distinct(vl)
    ensures WithdrawAll(db, me, n, vl).Commit? <==> forall v :: v in vl ==> Covered(db, me, v.denom, v.quant)
    decreases |vl|
  {
    hide Debit, DebitForced, Covered, KeyScan.Distinct;
    if vl == [] {
    } else {
      var v, t := vl[0], vl[1..];
      assert vl == [v] + t;
      DebitCommits(db, me, v);
      if Debit(db, me, v).Debited? {
        DebitedIs(db, me, v);
        TailDistinct(vl);
        var db' := SetNoteValue(DebitForced(db, me, v), n, v);
        forall w | w in t ensures Covered(db', me, w.denom, w.quant) == Covered(db, me, w.denom, w.quant) {
          OtherCovered(db, me, n, v, w.denom, w.quant);
        }
        WithdrawAllCommits(db', me, n, t);
      }
    }
  }

  lemma OtherCovered(db: Db, me: Id, n: Id, v: Value, d: Id, q: real)
    requires d != v.denom
    ensures Covered(SetNoteValue(DebitForced(db, me, v), n, v), me, d, q) == Covered(db, me, d, q)
  {
    hide Balance;
    BalanceDebit(db, me, v, me, d);
    SameBalance(DebitForced(db, me, v), n, v, me, d);
  }

  /** Every denomination of the arguments is covered by the total asked of it. */
  ghost predicate TotalsCovered(db: Db, a: Id, args: seq<CString>) {
    forall d: Id :: ArgsTotal(args, d) > 0.0 ==> Covered(db, a, d, ArgsTotal(args, d))
  }

  ghost predicate TotalsFunded(db: Db, a: Id, args: seq<CString>) {
    forall d: Id :: ArgsTotal(args, d) > 0.0 ==> Balance(db, a, d) >= ArgsTotal(args, d)
  }

  lemma GatheredTotals(args: seq<CString>)
    requires Gather([], args).Some?
    ensures forall v :: v in Gather([], args).value ==> v.quant > 0.0 && ArgsTotal(args, v.denom) == v.quant
    ensures forall d: Id :: ArgsTotal(args, d) > 0.0 ==> Value(d, ArgsTotal(args, d)) in Gather([], args).value
  {
    hide Gather, ArgsTotal;
    var vl := Gather([], args).value;
    forall v | v in vl ensures v.quant > 0.0 && ArgsTotal(args, v.denom) == v.quant {
      Gathered(args, v.denom);
      DistinctTotal(vl, v.denom);
      var i :| 0 <= i < |vl| && vl[i] == v;
    }
    forall d: Id | ArgsTotal(args, d) > 0.0 ensures Value(d, ArgsTotal(args, d)) in vl {
      Gathered(args, d);
      DistinctTotal(vl, d);
      var i :| 0 <= i < |vl| && vl[i].denom == d;
      assert vl[i] == Value(d, ArgsTotal(args, d));
    }
  }

  lemma CoveredSame(db: Db, db': Db, a: Id)
    requires db.accts == db'.accts
    ensures forall d, q :: Covered(db, a, d, q) == Covered(db', a, d, q)
  {}

  predicate AllAcceptable(args: seq<CString>) { args != [] && forall x :: x in args ==> Acceptable(x) }

  /** A withdrawal succeeds exactly when the account has the keys for a challenge and covers the total of
      every denomination asked for; in a parent transaction it has to have the funds, privileged or not. */
  lemma WithdrawCommits(db: Db, inside: bool, me: Id, n: Id, c: int, args: seq<CString>)
    ensures WithdrawCmd(db, inside, me, n, c, args).Commit?
            <==> AllAcceptable(args) && me in db.accts.modulus && db.accts.modulus[me] > 0
                 && TotalsCovered(db, me, args) && (inside ==> TotalsFunded(db, me, args))
  {
    hide Gather, WithdrawAll, Acceptable, ArgsTotal, Covered, Balance;
    Gathered(args, "");
    if Gather([], args).Some? {
      var vl := Gather([], args).value;
      GatheredTotals(args);
      var db2 := SetChallenge(db.(notes := SetNoteIssuer(db.notes, n, me)), n, c);
      WithdrawAllCommits(db2, me, n, vl);
      CoveredSame(db, db2, me);
      assert TotalsCovered(db, me, args) <==> forall v :: v in vl ==> Covered(db, me, v.denom, v.quant);
      assert TotalsFunded(db, me, args) <==> Funded(db, me, vl);
    }
  }

  /** Credits and forced debits are for super accounts, for accounts with a public key and for
      denominations with an issuer. */
  ghost predicate AdminMay(db: Db, me: Id, target: Id, args: seq<CString>) {
    && AllAcceptable(args) && IsSuper(db.accts, me) && target in db.accts.public
    && forall d: Id :: ArgsTotal(args, d) > 0.0 ==> d in db.accts.denomIssuer
  }

  lemma AdminCommits(db: Db, me: Id, target: Id, args: seq<CString>)
    ensures CreditCmd(db, me, target, args).Commit? <==> AdminMay(db, me, target, args)
    ensures DebitCmd(db, me, target, args).Commit? <==> AdminMay(db, me, target, args)
  {
    hide Gather, CreditAll, DebitForcedAll, Acceptable, ArgsTotal;
    Gathered(args, "");
    if Gather([], args).Some? { GatheredTotals(args); }
  }

  /** An offer is taken exactly when both sides are positive values of different denominations and the
      account covers the bid. */
  lemma OfferCreateCommits(db: Db, me: Id, o: Id, askArg: CString, bidArg: CString, skip: nat)
    ensures
      OfferCreateCmd(db, me, o, askArg, bidArg, skip).Commit? <==>
        && Acceptable(askArg) && Acceptable(bidArg)
        && var (ask, bid) := (StringToValue(askArg).value, StringToValue(bidArg).value);
           ask.denom != bid.denom && Covered(db, me, bid.denom, bid.quant)
  {
    hide Debit, Covered, List, StringToValue;
    if Acceptable(bidArg) { DebitCommits(db, me, StringToValue(bidArg).value); }
  }

  lemma DestroyersCommit(db: Db, me: Id, o: Id, target: Id)
    requires Inv(db)
    ensures OfferDestroyCmd(db, me, o).Commit? <==>
      o in db.offers.bid && (db.offers.issuer[o] == me || IsSuper(db.accts, me))
    ensures AcctDestroyCmd(db, me, target).Commit? <==>
      IsSuper(db.accts, me) && me != target && target in db.accts.public
  {
    hide NotesInv, JournalOk, IndexOk, ReverseOk, Credit, DestroyOffer, DestroyAcct;
  }

  /** What offer_create did: the bid left the account, and the offer holds it under its issuer. */
  lemma OfferCreatedIs(db: Db, me: Id, o: Id, askArg: CString, bidArg: CString, skip: nat, x: Id, d: Id)
    requires OfferCreateCmd(db, me, o, askArg, bidArg, skip).Commit?
    ensures
      var db' := OfferCreateCmd(db, me, o, askArg, bidArg, skip).db;
      var ask, bid := StringToValue(askArg).value, StringToValue(bidArg).value;
      && Balance(db', x, d) == Balance(db, x, d) - Only(x, me, Of(bid, d))
      && db'.offers.ask == db.offers.ask[o := ask] && db'.offers.bid == db.offers.bid[o := bid]
      && db'.offers.issuer == db.offers.issuer[o := me]
      && db'.events == db.events + [DebitEvent(me, bid), OfferCreateEvent(o)]
      && db'.notes == db.notes && db'.accts == db.accts.(value := db'.accts.value)
  {
    hide Debit, Insert, AddFirst, At, StringToValue, Balance, Subtract, Of;
    var bid := StringToValue(bidArg).value;
    DebitedIs(db, me, bid);
    BalanceDebit(db, me, bid, x, d);
    SameAccts(DebitForced(db, me, bid), OfferCreateCmd(db, me, o, askArg, bidArg, skip).db, x, d);
  }

  /** What offer_destroy did: the caller has what was left of the bid, and the offer is gone. */
  lemma OfferDestroyedIs(db: Db, me: Id, o: Id, x: Id, d: Id)
    requires Inv(db) && OfferDestroyCmd(db, me, o).Commit?
    ensures
      var db' := OfferDestroyCmd(db, me, o).db;
      && Balance(db', x, d) == Balance(db, x, d) + Only(x, me, Of(db.offers.bid[o], d))
      && db'.offers.ask == db.offers.ask - {o} && db'.offers.bid == db.offers.bid - {o}
      && db'.offers.issuer.Keys == db.offers.issuer.Keys - {o}
      && db'.notes == db.notes && db'.accts == db.accts.(value := db'.accts.value)
  {
    hide NotesInv, JournalOk, IndexOk, ReverseOk, Balance, Add, Of, Unlist;
    OffersUnlist(db.offers, o);
    BalanceCredit(db, me, db.offers.bid[o], x, d);
    SameAccts(Credit(db, me, db.offers.bid[o]), OfferDestroyCmd(db, me, o).db, x, d);
  }

  // ---------- what a refusal in a parent transaction leaves ----------

  /** Everything is in order but the modulus, from which no challenge can be made. */
  predicate NoChallenge(db: Db, me: Id, args: seq<CString>) {
    && args != [] && Gather([], args).Some? && Funded(db, me, Gather([], args).value)
    && me in db.accts.modulus && db.accts.modulus[me] <= 0
  }

  /** A withdrawal refused in a parent transaction leaves the tables as they were, unless no challenge can be
      made: then, and only then, the new note stays behind with its issuer, and that is all that stays. */
  lemma RefusalLeaves(db: Db, me: Id, n: Id, c: int, args: seq<CString>)
    requires n !in db.notes.issuer && WithdrawCmd(db, true, me, n, c, args).Abort?
    ensures
      var db' := WithdrawCmd(db, true, me, n, c, args).db;
      && (db' == db <==> !NoChallenge(db, me, args))
      && (NoChallenge(db, me, args) ==> db' == db.(notes := SetNoteIssuer(db.notes, n, me)))
  {
    hide Gather, Funded, WithdrawAll, StringToValue;
    if args != [] && Gather([], args).Some? && me in db.accts.modulus && db.accts.modulus[me] > 0 {
      CheckedWithdraw(db, me, n, c, args);
    }
    assert n in SetNoteIssuer(db.notes, n, me).issuer;
  }

  function EmptyDb(): (db: Db)
    ensures Inv(db)
  {
    var db := Db(Accts(map[], map[], map[], map[], map[], map[]), Notes(map[], map[], map[], map[]),
                 Offers(map[], map[], map[], map[], map[]), []);
    assert forall p: (Id, Id) :: At(db.offers.index, p) == [];
    db
  }

  function OneOf(d: Id): Printed { Printed(d, 1, 1) }

  /** It does happen: an account with one unit and the modulus 0. */
  lemma RefusalExample() returns (db: Db, args: seq<CString>)
    ensures Inv(db) && "note" !in db.notes.issuer
    ensures WithdrawCmd(db, true, "me", "note", 1, args).Abort?
    ensures "note" in WithdrawCmd(db, true, "me", "note", 1, args).db.notes.issuer
  {
    hide Inv, StringToValue, ValueToString;
    var v := Value("unit", 1.0);
    args := [ValueToString(OneOf("unit"))];
    ValueRoundTrip(OneOf("unit"));
    assert StringToValue(args[0]) == Some(v);
    var db1 := EmptyDb();
    InvCredit(db1, "me", v);
    BalanceCredit(db1, "me", v, "me", "unit");
    db := Credit(db1, "me", v);
    db := db.(accts := db.accts.(modulus := map["me" := 0]));
    OneArgument(args[0], v);
    AcctsOnly(Credit(db1, "me", v), db.accts);
  }

  lemma OneArgument(arg: CString, v: Value)
    requires StringToValue(arg) == Some(v) && v.quant > 0.0
    ensures Gather([], [arg]) == Some([v])
  {
    hide StringToValue;
    assert [arg][1..] == [];
    assert MergeOne([], v) == [v];
    assert Gather([v], []) == Some([v]);
  }

  lemma AcctsOnly(db: Db, t: Accts)
    requires Inv(db) && t.value == db.accts.value
    ensures Inv(db.(accts := t))
  {
    hide OffersInv, NotesInv, JournalOk;
  }

  // ---------- what a destroyed account leaves ----------

  /** A live offer whose issuer has no public key any more. */
  predicate Orphaned(db: Db, o: Id) {
    o in db.offers.bid && o in db.offers.issuer && db.offers.issuer[o] !in db.accts.public
  }

  /** What acct_destroy did: keys, flags, balances and notes of the account are gone, those of others and
      all offers stay. */
  lemma AcctDestroyedIs(db: Db, me: Id, target: Id)
    requires AcctDestroyCmd(db, me, target).Commit?
    ensures
      var db' := AcctDestroyCmd(db, me, target).db;
      && target in db.accts.public && db'.offers == db.offers
      && db'.accts.public == db.accts.public - {target} && db'.accts.secret == db.accts.secret - {target}
      && db'.accts.modulus == db.accts.modulus - {target} && db'.accts.flags == db.accts.flags - {target}
      && db'.accts.value == Others(db.accts.value, target) && db'.accts.denomIssuer == db.accts.denomIssuer
  {
    hide DestroyNotes, Others;
    DestroyNotesFrame(Logged(db, AcctDestroyEvent(target)), Reverse(At(db.notes.acctNote, target)), db.accts);
  }

  /** Destroying an account orphans offers exactly when it has some, and exactly those. */
  lemma OrphansLeft(db: Db, me: Id, target: Id)
    requires Inv(db) && AcctDestroyCmd(db, me, target).Commit?
    ensures
      var db' := AcctDestroyCmd(db, me, target).db;
      && (forall o :: Orphaned(db', o) && !Orphaned(db, o) <==> o in At(db.offers.acctOffer, target))
      && ((exists o :: Orphaned(db', o) && !Orphaned(db, o)) <==> At(db.offers.acctOffer, target) != [])
  {
    hide AcctDestroyCmd, IndexOk, NotesInv, JournalOk, At, Unrepeated;
    AcctDestroyedIs(db, me, target);
    var db' := AcctDestroyCmd(db, me, target).db;
    forall o ensures Orphaned(db', o) && !Orphaned(db, o) <==> o in At(db.offers.acctOffer, target) {}
    if At(db.offers.acctOffer, target) != [] {
      var o := At(db.offers.acctOffer, target)[0];
      assert o in At(db.offers.acctOffer, target);
      assert Orphaned(db', o) && !Orphaned(db, o);
    }
  }

  /** It does happen: the one offer of an account outlives it. */
  lemma OrphanExample() returns (db: Db)
    ensures Inv(db) && AcctDestroyCmd(db, "me", "you").Commit?
    ensures !Orphaned(db, "offer") && Orphaned(AcctDestroyCmd(db, "me", "you").db, "offer")
  {
    hide Inv, List;
    var ask, bid := Value("unit", 1.0), Value("coin", 1.0);
    var db1 := EmptyDb();
    var t := db1.accts.(flags := map["me" := Flags(true, false, false)], public := map["you" := 3]);
    AcctsOnly(db1, t);
    db := db1.(accts := t);
    InvList(db, "offer", "you", ask, bid, 0);
    OneOffer(db.offers, ask, bid);
    db := db.(offers := List(db.offers, "offer", "you", ask, bid, 0));
    AcctDestroyedIs(db, "me", "you");
  }

  lemma OneOffer(t: Offers, ask: Value, bid: Value)
    requires bid.quant != 0.0
    ensures
      var t' := List(t, "offer", "you", ask, bid, 0);
      "offer" in t'.bid && "offer" in t'.issuer && t'.issuer["offer"] == "you"
  {
    hide Insert, AddFirst, At;
  }

  /** The issuer of a cancelled offer has the bid back exactly when it is the issuer who cancels. */
  lemma IssuerRefunded(db: Db, me: Id, o: Id)
    requires Inv(db) && OfferDestroyCmd(db, me, o).Commit?
    ensures o in db.offers.issuer && o in db.offers.bid
    ensures
      var issuer, bid := db.offers.issuer[o], db.offers.bid[o];
      Balance(OfferDestroyCmd(db, me, o).db, issuer, bid.denom) == Balance(db, issuer, bid.denom) + bid.quant
      <==> issuer == me
  {
    OfferInTables(db, me, o);
    hide Inv, OfferDestroyCmd, Balance;
    OfferDestroyedIs(db, me, o, db.offers.issuer[o], db.offers.bid[o].denom);
  }

  lemma OfferInTables(db: Db, me: Id, o: Id)
    requires Inv(db) && OfferDestroyCmd(db, me, o).Commit?
    ensures o in db.offers.issuer && o in db.offers.bid && db.offers.bid[o].quant > 0.0
  {
    hide NotesInv, JournalOk, ReverseOk, Credit, DestroyOffer, ListOk;
  }

  // ---------- admin credits and debits ----------

  function Credits(a: Id, vl: seq<Value>): seq<Event> { seq(|vl|, i requires 0 <= i < |vl| => CreditEvent(a, vl[i])) }

  function Debits(a: Id, vl: seq<Value>): seq<Event> { seq(|vl|, i requires 0 <= i < |vl| => DebitEvent(a, vl[i])) }

  lemma {:induction false} CreditAllEvents(db: Db, a: Id, vl: seq<Value>)
    ensures CreditAll(db, a, vl).events == db.events + Credits(a, vl)
    decreases |vl|
  {
    hide Add;
    if vl == [] {
    } else {
      CreditAllEvents(Credit(db, a, vl[0]), a, vl[1..]);
      assert Credits(a, vl) == [CreditEvent(a, vl[0])] + Credits(a, vl[1..]);
    }
  }

  lemma {:induction false} DebitAllEvents(db: Db, a: Id, vl: seq<Value>)
    ensures DebitForcedAll(db, a, vl).events == db.events + Debits(a, vl)
    decreases |vl|
  {
    hide Subtract;
    if vl == [] {
    } else {
      DebitAllEvents(DebitForced(db, a, vl[0]), a, vl[1..]);
      assert Debits(a, vl) == [DebitEvent(a, vl[0])] + Debits(a, vl[1..]);
    }
  }

  lemma {:induction false} BalanceDebitAll(db: Db, a: Id, vl: seq<Value>, x: Id, d: Id)
    ensures Balance(DebitForcedAll(db, a, vl), x, d) == Balance(db, x, d) - Only(x, a, Total(vl, d))
    ensures DebitForcedAll(db, a, vl).notes == db.notes && DebitForcedAll(db, a, vl).offers == db.offers
    ensures DebitForcedAll(db, a, vl).accts == db.accts.(value := DebitForcedAll(db, a, vl).accts.value)
    decreases |vl|
  {
    hide Balance, Of;
    if vl == [] {
    } else {
      BalanceDebit(db, a, vl[0], x, d);
      BalanceDebitAll(DebitForced(db, a, vl[0]), a, vl[1..], x, d);
    }
  }

  /** What an admin's credit did: exactly the amounts of the command line went to the named account, and the
      log says so, entry by entry. */
  lemma CreditCmdIs(db: Db, me: Id, target: Id, args: seq<CString>, x: Id, d: Id)
    requires CreditCmd(db, me, target, args).Commit?
    ensures
      var db' := CreditCmd(db, me, target, args).db;
      && Balance(db', x, d) == Balance(db, x, d) + Only(x, target, ArgsTotal(args, d))
      && db'.notes == db.notes && db'.offers == db.offers && db'.accts == db.accts.(value := db'.accts.value)
      && Gather([], args).Some? && db'.events == db.events + Credits(target, Gather([], args).value)
  {
    hide Gather, CreditAll, StringToValue, Balance;
    Gathered(args, d);
    var vl := Gather([], args).value;
    BalanceCreditAll(db, target, vl, x, d);
    CreditAllEvents(db, target, vl);
  }

  /** The same for a debit, which takes the amounts, below zero if need be. */
  lemma DebitCmdIs(db: Db, me: Id, target: Id, args: seq<CString>, x: Id, d: Id)
    requires DebitCmd(db, me, target, args).Commit?
    ensures
      var db' := DebitCmd(db, me, target, args).db;
      && Balance(db', x, d) == Balance(db, x, d) - Only(x, target, ArgsTotal(args, d))
      && db'.notes == db.notes && db'.offers == db.offers && db'.accts == db.accts.(value := db'.accts.value)
      && Gather([], args).Some? && db'.events == db.events + Debits(target, Gather([], args).value)
  {
    hide Gather, DebitForcedAll, StringToValue, Balance;
    Gathered(args, d);
    var vl := Gather([], args).value;
    BalanceDebitAll(db, target, vl, x, d);
    DebitAllEvents(db, target, vl);
  }

  // ---------- the other notes, and the log ----------

  /** Everything about notes other than n is as it was. */
  predicate OtherNotes(t: Notes, t': Notes, n: Id) {
    && t'.issuer - {n} == t.issuer - {n} && t'.challenge - {n} == t.challenge - {n}
    && Others(t'.value, n) == Others(t.value, n)
  }

  lemma {:induction false} WithdrawAllNotes(db: Db, me: Id, n: Id, vl: seq<Value>)
    ensures
      var o := WithdrawAll(db, me, n, vl);
      o.Error? || (OtherNotes(db.notes, o.db.notes, n) && o.db.notes == db.notes.(value := o.db.notes.value))
    decreases |vl|
  {
    hide Debit, DebitForced;
    if vl == [] {
    } else if Debit(db, me, vl[0]).Debited? {
      DebitedIs(db, me, vl[0]);
      DebitOffers(db, me, vl[0]);
      var db' := SetNoteValue(Debit(db, me, vl[0]).db, n, vl[0]);
      assert Others(db'.notes.value, n) == Others(db.notes.value, n);
      WithdrawAllNotes(db', me, n, vl[1..]);
    }
  }

  lemma {:induction false} WithdrawAllEvents(db: Db, me: Id, n: Id, vl: seq<Value>)
    requires WithdrawAll(db, me, n, vl).Commit?
    ensures WithdrawAll(db, me, n, vl).db.events == db.events + Debits(me, vl)
    decreases |vl|
  {
    hide Debit, Subtract;
    if vl == [] {
    } else {
      DebitedIs(db, me, vl[0]);
      WithdrawAllEvents(SetNoteValue(Debit(db, me, vl[0]).db, n, vl[0]), me, n, vl[1..]);
      assert Debits(me, vl) == [DebitEvent(me, vl[0])] + Debits(me, vl[1..]);
    }
  }

  /** A withdrawal touches no note but its own, refused or not. */
  lemma WithdrawOthers(db: Db, inside: bool, me: Id, n: Id, c: int, args: seq<CString>)
    ensures
      var o := WithdrawCmd(db, inside, me, n, c, args);
      o.Error? || OtherNotes(db.notes, o.db.notes, n)
  {
    hide Gather, Funded, WithdrawAll, Others, AddLast;
    var db2 := SetChallenge(db.(notes := SetNoteIssuer(db.notes, n, me)), n, c);
    assert OtherNotes(db.notes, db2.notes, n);
    if Gather([], args).Some? { WithdrawAllNotes(db2, me, n, Gather([], args).value); }
  }

  lemma WithdrawLog(db: Db, inside: bool, me: Id, n: Id, c: int, args: seq<CString>)
    requires WithdrawCmd(db, inside, me, n, c, args).Commit?
    ensures Gather([], args).Some?
    ensures WithdrawCmd(db, inside, me, n, c, args).db.events
            == db.events + Debits(me, Gather([], args).value) + [NoteCreateEvent(n)]
  {
    hide Gather, Funded, WithdrawAll;
    var db2 := SetChallenge(db.(notes := SetNoteIssuer(db.notes, n, me)), n, c);
    WithdrawAllEvents(db2, me, n, Gather([], args).value);
  }

  /** A deposit touches no note but the one deposited, refused or not, and logs what it credits. */
  lemma DepositOthers(db: Db, me: Id, n: Id, response: Option<int>)
    ensures
      var o := DepositCmd(db, me, n, response);
      && (o.Error? || OtherNotes(db.notes, o.db.notes, n))
      && (o.Commit? ==>
          && o.db.offers == db.offers && o.db.accts == db.accts.(value := o.db.accts.value)
          && o.db.events == db.events + Credits(me, KeyScan.Listing(db.notes.value, n)) + [NoteDestroyEvent(n)])
  {
    hide Answers, CreditAll, KeyScan.Listing, Drop;
    var vl := KeyScan.Listing(db.notes.value, n);
    CreditAllFrame(db, me, vl);
    CreditAllEvents(db, me, vl);
  }

  /** What a deposit is answered. */
  lemma DepositReplies(db: Db, me: Id, n: Id, response: Option<int>)
    ensures
      var t, o := db.notes, DepositCmd(db, me, n, response);
      && (o.Abort? ==> o.db == db)
      && (o.Abort? && o.reply == Invalid <==> response == None)
      && (o.Abort? && o.reply == NotFound <==> response != None && n !in t.issuer)
      && (o.Commit? || (o.Abort? && o.reply == NoAuth) <==>
          && response != None && n in t.issuer && n in t.challenge
          && t.issuer[n] in db.accts.modulus && t.issuer[n] in db.accts.public)
      && (o.Commit? ==> db.accts.modulus[t.issuer[n]] > 0)
  {
    hide CreditAll, DestroyNote, KeyScan.Listing;
  }

  /** What a withdrawal is answered when its arguments are values. */
  lemma WithdrawReplies(db: Db, inside: bool, me: Id, n: Id, c: int, args: seq<CString>)
    ensures
      var o := WithdrawCmd(db, inside, me, n, c, args);
      && (o.Abort? && o.reply == Usage <==> args == [])
      && (o.Abort? && o.reply == Invalid <==> args != [] && !AllAcceptable(args))
      && (inside && AllAcceptable(args) && !TotalsFunded(db, me, args) ==> o == Abort(db, Insufficient))
      && (o.Abort? && o.reply == DatabaseError <==>
          && AllAcceptable(args) && (inside ==> TotalsFunded(db, me, args))
          && me in db.accts.modulus && db.accts.modulus[me] <= 0)
      && (o.Abort? ==> o.reply in {Usage, Invalid, Insufficient, DatabaseError})
  {
    hide Gather, WithdrawAll, Acceptable, ArgsTotal, Balance;
    Gathered(args, "");
    if Gather([], args).Some? {
      var vl := Gather([], args).value;
      GatheredTotals(args);
      assert TotalsFunded(db, me, args) <==> Funded(db, me, vl);
      WithdrawAllReply(SetChallenge(db.(notes := SetNoteIssuer(db.notes, n, me)), n, c), me, n, vl);
    }
  }

  lemma {:induction false} WithdrawAllReply(db: Db, me: Id, n: Id, vl: seq<Value>)
    ensures WithdrawAll(db, me, n, vl).Abort? ==> WithdrawAll(db, me, n, vl).reply == Insufficient
    decreases |vl|
  {
    hide Debit;
    if vl == [] {
    } else if Debit(db, me, vl[0]).Debited? {
      WithdrawAllReply(SetNoteValue(Debit(db, me, vl[0]).db, n, vl[0]), me, n, vl[1..]);
    }
  }

  /** What an admin's credit and debit are answered: alike. */
  lemma AdminReplies(db: Db, me: Id, target: Id, args: seq<CString>)
    ensures
      var o, p := CreditCmd(db, me, target, args), DebitCmd(db, me, target, args);
      && (o.Abort? ==> o == p)
      && (o.Error? <==> p.Error?) && (o.Commit? <==> p.Commit?)
      && (o.Abort? && o.reply == Usage <==> args == [])
      && (o.Abort? && o.reply == Invalid <==> args != [] && !AllAcceptable(args))
      && (o.Abort? && o.reply == NoAuth <==>
          && AllAcceptable(args) && target in db.accts.public
          && me in db.accts.flags && !db.accts.flags[me].super)
      && (o.Error? <==> AllAcceptable(args) && target in db.accts.public && me !in db.accts.flags)
      && (o.Abort? ==> o.reply in {Usage, Invalid, NoAuth, NotFound} && o.db == db)
  {
    hide Gather, CreditAll, DebitForcedAll, Acceptable;
    Gathered(args, "");
  }

  /** What the offer commands and acct_destroy are answered when they do not go through. */
  lemma OtherReplies(db: Db, me: Id, o: Id, askArg: CString, bidArg: CString, skip: nat, target: Id)
    requires Inv(db)
    ensures
      var r := OfferCreateCmd(db, me, o, askArg, bidArg, skip);
      && (r.Abort? && r.reply == Invalid <==> OfferArgs(askArg, bidArg) == None)
      && (r.Abort? ==> r.db == db && r.reply in {Invalid, DatabaseError})
    ensures
      var r := OfferDestroyCmd(db, me, o);
      && (r.Abort? && r.reply == NotFound <==> o !in db.offers.bid)
      && (r.Error? <==> o in db.offers.bid && db.offers.issuer[o] != me && me !in db.accts.flags)
      && (r.Abort? ==> r.db == db && r.reply in {NotFound, NoAuth})
    ensures
      var r := AcctDestroyCmd(db, me, target);
      && (r.Error? <==> me !in db.accts.flags)
      && (r.Abort? && r.reply == NotFound <==> IsSuper(db.accts, me) && me != target && target !in db.accts.public)
      && (r.Abort? ==> r.db == db && r.reply in {NotFound, NoAuth})
  {
    hide NotesInv, JournalOk, IndexOk, ReverseOk, Debit, List, Credit, DestroyOffer, DestroyAcct, StringToValue;
  }

  // ---------- lists of an account ----------

  /** A new note is the first that get_note_list finds, and a new offer the first in its list. */
  lemma NewestFirst(t: Notes, u: Offers, x: Id, a: Id)
    requires ReverseOk(t.issuer, t.acctNote) && x !in t.issuer && ReverseOk(u.issuer, u.acctOffer) && x !in u.issuer
    ensures Reverse(At(SetNoteIssuer(t, x, a).acctNote, a)) == [x] + Reverse(At(t.acctNote, a))
    ensures At(SetOfferIssuer(u, x, a).acctOffer, a) == [x] + At(u.acctOffer, a)
    ensures forall b: Id :: b != a ==> At(SetNoteIssuer(t, x, a).acctNote, b) == At(t.acctNote, b)
                                       && At(SetOfferIssuer(u, x, a).acctOffer, b) == At(u.acctOffer, b)
  {
    assert x !in At(t.acctNote, a) && x !in At(u.acctOffer, a);
    ReverseSnoc(At(t.acctNote, a), x);
  }

  /** The notes of a destroyed account are gone, all others stay as they are. */
  lemma AcctDestroyedNotes(db: Db, me: Id, target: Id)
    requires Inv(db) && AcctDestroyCmd(db, me, target).Commit?
    ensures
      var t, t' := db.notes, AcctDestroyCmd(db, me, target).db.notes;
      && (forall n: Id :: n in t'.issuer <==> n in t.issuer && t.issuer[n] != target)
      && (forall n: Id :: n in t'.issuer ==> t'.issuer[n] == t.issuer[n])
      && (forall k: Key :: k in t'.value <==> k in t.value && t.issuer[k.0] != target)
      && (forall k: Key :: k in t'.value ==> t'.value[k] == t.value[k])
      && (forall n: Id :: n in t'.challenge <==> n in t.challenge && n !in At(t.acctNote, target))
  {
    hide OffersInv, JournalOk, DestroyNotes, Others;
    var ns := Reverse(At(db.notes.acctNote, target));
    var db1 := Logged(db, AcctDestroyEvent(target));
    DestroyNotesIs(db1, ns);
    ReverseUnrepeated(At(db.notes.acctNote, target));
    assert forall n: Id :: n in ns <==> n in db.notes.issuer && db.notes.issuer[n] == target;
    assert forall k: Key :: k in db.notes.value ==> k.0 in db.notes.issuer;
  }

  function Spared<T>(m: map<Id, T>, ns: seq<Id>): map<Id, T> { map n | n in m && n !in ns :: m[n] }

  function SparedValues(m: map<Key, real>, ns: seq<Id>): map<Key, real> { map k | k in m && k.0 !in ns :: m[k] }

  lemma SparedCons<T>(m: map<Id, T>, ns: seq<Id>)
    requires ns != []
    ensures Spared(m - {ns[0]}, ns[1..]) == Spared(m, ns)
  {
    assert ns == [ns[0]] + ns[1..];
  }

  lemma SparedValuesCons(m: map<Key, real>, ns: seq<Id>)
    requires ns != []
    ensures SparedValues(Others(m, ns[0]), ns[1..]) == SparedValues(m, ns)
  {
    assert ns == [ns[0]] + ns[1..];
  }

  lemma BurnIs(t: Notes, n: Id)
    ensures Burn(t, n).issuer == t.issuer - {n} && Burn(t, n).challenge == t.challenge - {n}
    ensures Burn(t, n).value == Others(t.value, n)
  {
    hide Drop, Others;
    assert n !in t.issuer ==> t.issuer - {n} == t.issuer;
  }

  lemma {:induction false} DestroyNotesIs(db: Db, ns: seq<Id>)
    ensures
      var t, t' := db.notes, DestroyNotes(db, ns).notes;
      && t'.issuer == Spared(t.issuer, ns) && t'.challenge == Spared(t.challenge, ns)
      && t'.value == SparedValues(t.value, ns)
    decreases |ns|
  {
    if ns == [] {
      assert Spared(db.notes.issuer, ns) == db.notes.issuer && Spared(db.notes.challenge, ns) == db.notes.challenge;
      assert SparedValues(db.notes.value, ns) == db.notes.value;
    } else {
      hide Burn, Spared, SparedValues, Others;
      BurnIs(db.notes, ns[0]);
      DestroyNotesIs(DestroyNote(db, ns[0]), ns[1..]);
      SparedCons(db.notes.issuer, ns);
      SparedCons(db.notes.challenge, ns);
      SparedValuesCons(db.notes.value, ns);
    }
  }

  function Destroyed(ns: seq<Id>): seq<Event> { seq(|ns|, i requires 0 <= i < |ns| => NoteDestroyEvent(ns[i])) }

  lemma {:induction false} DestroyNotesEvents(db: Db, ns: seq<Id>)
    ensures DestroyNotes(db, ns).events == db.events + Destroyed(ns)
    decreases |ns|
  {
    hide Burn;
    if ns == [] {
    } else {
      DestroyNotesEvents(DestroyNote(db, ns[0]), ns[1..]);
      assert Destroyed(ns) == [NoteDestroyEvent(ns[0])] + Destroyed(ns[1..]);
    }
  }

  /** The log of a destroyed account: the account first, then its notes, the newest first. */
  lemma AcctDestroyedLog(db: Db, me: Id, target: Id)
    requires AcctDestroyCmd(db, me, target).Commit?
    ensures AcctDestroyCmd(db, me, target).db.events
            == db.events + [AcctDestroyEvent(target)] + Destroyed(Reverse(At(db.notes.acctNote, target)))
  {
    hide DestroyNotes, Others;
    DestroyNotesEvents(Logged(db, AcctDestroyEvent(target)), Reverse(At(db.notes.acctNote, target)));
  }

  /** The log of a cancelled offer. */
  lemma OfferDestroyedLog(db: Db, me: Id, o: Id)
    requires o in db.offers.bid && OfferDestroyCmd(db, me, o).Commit?
    ensures OfferDestroyCmd(db, me, o).db.events
            == db.events + [CreditEvent(me, db.offers.bid[o]), OfferDestroyEvent(o)]
  {
    hide Add, Unlist;
  }

  /** Who may deposit a note: anybody with an answer to its challenge under the keys of its issuer. */
  predicate MayDeposit(db: Db, n: Id, response: Option<int>) {
    var t := db.notes;
    && response.Some? && n in t.issuer && n in t.challenge
    && t.issuer[n] in db.accts.modulus && t.issuer[n] in db.accts.public
    && Answers(t.challenge[n], response.value, db.accts.public[t.issuer[n]], db.accts.modulus[t.issuer[n]])
  }

  lemma DepositCommits(db: Db, me: Id, n: Id, response: Option<int>)
    ensures DepositCmd(db, me, n, response).Commit? <==> MayDeposit(db, n, response)
  {
    hide CreditAll, DestroyNote, KeyScan.Listing, Answers;
  }
}
