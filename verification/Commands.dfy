/** bif/shell.cc: the commands that move value, as what they do with the tables. */
module Commands {
  import opened Text
  import opened Portfolio
  import opened Sums
  import opened Ledger
  import opened Invariants
  import opened Conservation
  import opened Merge
  import KeyScan
  import Rsa

  datatype Reply = Success | Usage | Invalid | NotFound | NoAuth | Insufficient | DatabaseError

  /** Commit: commit_transaction. Abort: abort_transaction, with the tables as they were at that point and
      what the client is told. Error: error_check found an error code. */
  datatype Outcome = Commit(db: Db) | Abort(db: Db, reply: Reply) | Error

  predicate AllKnown(db: Db, vl: seq<Value>) { forall v :: v in vl ==> v.denom in db.accts.denomIssuer }

  /** The checks of cmd_credit and cmd_debit in their order. Commit: go on. */
  function Authorized(db: Db, me: Id, target: Id, vl: seq<Value>): Outcome {
    if target !in db.accts.public then Abort(db, NotFound)
    else if me !in db.accts.flags then Error
    else if !db.accts.flags[me].super then Abort(db, NoAuth)
    else if !AllKnown(db, vl) then Abort(db, NotFound)
    else Commit(db)
  }

  function CreditCmd(db: Db, me: Id, target: Id, args: seq<CString>): Outcome {
    var vl := Gather([], args);
    if args == [] then Abort(db, Usage)
    else if vl.None? then Abort(db, Invalid)
    else
      var o := Authorized(db, me, target, vl.value);
      if o.Commit? then Commit(CreditAll(db, target, vl.value)) else o
  }

  function DebitCmd(db: Db, me: Id, target: Id, args: seq<CString>): Outcome {
    var vl := Gather([], args);
    if args == [] then Abort(db, Usage)
    else if vl.None? then Abort(db, Invalid)
    else
      var o := Authorized(db, me, target, vl.value);
      if o.Commit? then Commit(DebitForcedAll(db, target, vl.value)) else o
  }

  function SetNoteValue(db: Db, n: Id, v: Value): Db {
    var t := db.notes;
    db.(notes := t.(value := t.value[(n, v.denom) := v.quant]))
  }

  /** The loop of cmd_note_withdraw. A refusal leaves the earlier entries in the tables. */
  function WithdrawAll(db: Db, me: Id, n: Id, vl: seq<Value>): Outcome
    decreases |vl|
  {
    if vl == [] then Commit(db)
    else
      match Debit(db, me, vl[0])
      case Failed => Error
      case Refused => Abort(db, Insufficient)
      case Debited(db') => WithdrawAll(SetNoteValue(db', n, vl[0]), me, n, vl[1..])
  }

  predicate Funded(db: Db, me: Id, vl: seq<Value>) {
    forall v :: v in vl ==> Balance(db, me, v.denom) >= v.quant
  }

  function SetChallenge(db: Db, n: Id, c: int): Db {
    db.(notes := db.notes.(challenge := db.notes.challenge[n := c]))
  }

  /** inside: a parent transaction is open. challenge: what rsa_challenge drew. */
  function WithdrawCmd(db: Db, inside: bool, me: Id, n: Id, challenge: int, args: seq<CString>): Outcome {
    var vl := Gather([], args);
    if args == [] then Abort(db, Usage)
    else if vl.None? then Abort(db, Invalid)
    else if inside && !Funded(db, me, vl.value) then Abort(db, Insufficient)
    else
      var db1 := db.(notes := SetNoteIssuer(db.notes, n, me));
      if me !in db.accts.modulus then Error
      else if db.accts.modulus[me] <= 0 then Abort(db1, DatabaseError)
      else
        match WithdrawAll(SetChallenge(db1, n, challenge), me, n, vl.value)
        case Commit(db2) => Commit(Logged(db2, NoteCreateEvent(n)))
        case o => o
  }

  /** Whether the response signs the challenge under the keys of the issuer. Where rsa_crypt would not
      answer (modulus 1 and a positive response) or would need an inverse (a negative exponent) the answer
      here is no. */
  predicate Answers(challenge: int, response: int, kp: int, km: int) {
    kp >= 0 && (km == 1 ==> response <= 0) && Rsa.Verifies(challenge, response, kp, km)
  }

  ghost function DepositCmd(db: Db, me: Id, n: Id, response: Option<int>): Outcome {
    var t, keys := db.notes, db.accts;
    if response.None? then Abort(db, Invalid)
    else if n !in t.issuer then Abort(db, NotFound)
    else
      var issuer := t.issuer[n];
      if n !in t.challenge || issuer !in keys.modulus || issuer !in keys.public then Error
      else if !Answers(t.challenge[n], response.value, keys.public[issuer], keys.modulus[issuer]) then Abort(db, NoAuth)
      else Commit(DestroyNote(CreditAll(db, me, KeyScan.Listing(t.value, n)), n))
  }

  /** The two values of an offer, if cmd_offer_create takes them: the ask and the bid. */
  function OfferArgs(askArg: CString, bidArg: CString): Option<(Value, Value)> {
    match StringToValue(askArg)
    case None => None
    case Some(ask) =>
      if ask.quant <= 0.0 then None
      else
        match StringToValue(bidArg)
        case None => None
        case Some(bid) => if bid.quant <= 0.0 || ask.denom == bid.denom then None else Some((ask, bid))
  }

  function OfferCreateCmd(db: Db, me: Id, o: Id, askArg: CString, bidArg: CString, skip: nat): Outcome {
    match OfferArgs(askArg, bidArg)
    case None => Abort(db, Invalid)
    case Some((ask, bid)) =>
      match Debit(db, me, bid)
      case Failed => Error
      case Refused => Abort(db, DatabaseError)
      case Debited(db') =>
        Commit(Logged(db'.(offers := List(db'.offers, o, me, ask, bid, skip)), OfferCreateEvent(o)))
  }

  /** The bid goes to the calling account, whoever issued the offer. */
  function OfferDestroyCmd(db: Db, me: Id, o: Id): Outcome {
    var t := db.offers;
    if o !in t.issuer then Abort(db, NotFound)
    else if o !in t.bid then Error
    else if t.issuer[o] != me && me !in db.accts.flags then Error
    else if t.issuer[o] != me && !db.accts.flags[me].super then Abort(db, NoAuth)
    else Commit(DestroyOffer(Credit(db, me, t.bid[o]), o))
  }

  function AcctDestroyCmd(db: Db, me: Id, target: Id): Outcome {
    if me !in db.accts.flags then Error
    else if !db.accts.flags[me].super || me == target then Abort(db, NoAuth)
    else if target !in db.accts.public then Abort(db, NotFound)
    else Commit(DestroyAcct(db, target))
  }

  // ---------- the invariant ----------

  /** Whatever tables an outcome leaves are in order. */
  ghost predicate LeavesInv(o: Outcome) { o.Error? || Inv(o.db) }

  lemma CreditCmdInv(db: Db, me: Id, target: Id, args: seq<CString>)
    requires Inv(db)
    ensures LeavesInv(CreditCmd(db, me, target, args))
  {
    hide Inv, Gather, CreditAll;
    if Gather([], args).Some? { InvCreditAll(db, target, Gather([], args).value); }
  }

  lemma DebitCmdInv(db: Db, me: Id, target: Id, args: seq<CString>)
    requires Inv(db)
    ensures LeavesInv(DebitCmd(db, me, target, args))
  {
    hide Inv, Gather, DebitForcedAll;
    if Gather([], args).Some? { InvDebitAll(db, target, Gather([], args).value); }
  }

  lemma DebitedIs(db: Db, a: Id, v: Value)
    ensures Debit(db, a, v).Debited? ==> Debit(db, a, v).db == DebitForced(db, a, v)
  {}

  lemma InvSetNoteValue(db: Db, n: Id, v: Value)
    requires Inv(db) && n in db.notes.issuer && v.quant > 0.0
    ensures Inv(SetNoteValue(db, n, v))
  {
    hide OffersInv, NotesInv, JournalOk;
    NotesSetValue(db.notes, n, v);
  }

  lemma {:induction false} WithdrawAllInv(db: Db, me: Id, n: Id, vl: seq<Value>)
    requires Inv(db) && n in db.notes.issuer && AllPositive(vl)
    ensures LeavesInv(WithdrawAll(db, me, n, vl))
    decreases |vl|
  {
    hide Inv, Debit;
    if vl == [] {
    } else if Debit(db, me, vl[0]).Debited? {
      assert forall v :: v in vl[1..] ==> v in vl;
      DebitedIs(db, me, vl[0]);
      InvDebit(db, me, vl[0]);
      InvSetNoteValue(DebitForced(db, me, vl[0]), n, vl[0]);
      WithdrawAllInv(SetNoteValue(DebitForced(db, me, vl[0]), n, vl[0]), me, n, vl[1..]);
    }
  }

  lemma InvNewNote(db: Db, n: Id, a: Id, c: int)
    requires Inv(db) && n !in db.notes.issuer
    ensures Inv(db.(notes := SetNoteIssuer(db.notes, n, a)))
    ensures Inv(SetChallenge(db.(notes := SetNoteIssuer(db.notes, n, a)), n, c))
  {
    hide OffersInv, ReverseOk, JournalOk, AddLast;
    NotesSetIssuer(db.notes, n, a);
  }

  lemma WithdrawCmdInv(db: Db, inside: bool, me: Id, n: Id, c: int, args: seq<CString>)
    requires Inv(db) && n !in db.notes.issuer
    ensures LeavesInv(WithdrawCmd(db, inside, me, n, c, args))
  {
    hide Inv, Gather, WithdrawAll, Funded, Logged;
    InvNewNote(db, n, me, c);
    Gathered(args, "");
    if Gather([], args).Some? {
      var db2 := SetChallenge(db.(notes := SetNoteIssuer(db.notes, n, me)), n, c);
      var o := WithdrawAll(db2, me, n, Gather([], args).value);
      WithdrawAllInv(db2, me, n, Gather([], args).value);
      if o.Commit? { InvLogged(o.db, NoteCreateEvent(n)); }
    }
  }

  lemma DepositCmdInv(db: Db, me: Id, n: Id, response: Option<int>)
    requires Inv(db)
    ensures LeavesInv(DepositCmd(db, me, n, response))
  {
    hide Inv, Answers, CreditAll, DestroyNote;
    var vl := KeyScan.Listing(db.notes.value, n);
    InvCreditAll(db, me, vl);
    InvDestroyNote(CreditAll(db, me, vl), n);
  }

  lemma InvList(db: Db, o: Id, me: Id, ask: Value, bid: Value, skip: nat)
    requires Inv(db) && o !in db.offers.issuer
    requires ask.quant > 0.0 && bid.quant > 0.0 && ask.denom != bid.denom
    ensures Inv(db.(offers := List(db.offers, o, me, ask, bid, skip)))
  {
    hide OffersInv, NotesInv, JournalOk, List;
    OffersList(db.offers, o, me, ask, bid, skip);
  }

  lemma OfferCreateCmdInv(db: Db, me: Id, o: Id, askArg: CString, bidArg: CString, skip: nat)
    requires Inv(db) && o !in db.offers.issuer
    ensures LeavesInv(OfferCreateCmd(db, me, o, askArg, bidArg, skip))
  {
    hide Inv, List, Debit, StringToValue, Logged;
    match OfferArgs(askArg, bidArg)
    case None =>
    case Some((ask, bid)) =>
      if Debit(db, me, bid).Debited? {
        DebitedIs(db, me, bid);
        InvDebit(db, me, bid);
        DebitOffers(db, me, bid);
        InvList(DebitForced(db, me, bid), o, me, ask, bid, skip);
        var db' := DebitForced(db, me, bid);
        InvLogged(db'.(offers := List(db'.offers, o, me, ask, bid, skip)), OfferCreateEvent(o));
      }
  }

  lemma DebitOffers(db: Db, a: Id, v: Value)
    ensures DebitForced(db, a, v).offers == db.offers && DebitForced(db, a, v).notes == db.notes
  {}

  lemma OfferDestroyCmdInv(db: Db, me: Id, o: Id)
    requires Inv(db)
    ensures LeavesInv(OfferDestroyCmd(db, me, o))
  {
    hide Inv, Credit, DestroyOffer;
    if o in db.offers.bid {
      InvCredit(db, me, db.offers.bid[o]);
      InvDestroyOffer(Credit(db, me, db.offers.bid[o]), o);
    }
  }

  lemma AcctDestroyCmdInv(db: Db, me: Id, target: Id)
    requires Inv(db)
    ensures LeavesInv(AcctDestroyCmd(db, me, target))
  {
    hide Inv, DestroyAcct;
    InvDestroyAcct(db, target);
  }

  // ---------- balances ----------

  /** One amount for one account, nothing for the others. */
  function Only(x: Id, a: Id, q: real): real { if x == a then q else 0.0 }

  lemma BalanceCredit(db: Db, a: Id, v: Value, x: Id, d: Id)
    ensures Balance(Credit(db, a, v), x, d) == Balance(db, x, d) + Only(x, a, Of(v, d))
  {
    assert (x, d) == (a, v.denom) <==> x == a && d == v.denom;
  }

  lemma BalanceDebit(db: Db, a: Id, v: Value, x: Id, d: Id)
    ensures Balance(DebitForced(db, a, v), x, d) == Balance(db, x, d) - Only(x, a, Of(v, d))
  {
    assert (x, d) == (a, v.denom) <==> x == a && d == v.denom;
  }

  lemma {:induction false} BalanceCreditAll(db: Db, a: Id, vl: seq<Value>, x: Id, d: Id)
    ensures Balance(CreditAll(db, a, vl), x, d) == Balance(db, x, d) + Only(x, a, Total(vl, d))
    ensures CreditAll(db, a, vl).notes == db.notes && CreditAll(db, a, vl).offers == db.offers
    ensures CreditAll(db, a, vl).accts == db.accts.(value := CreditAll(db, a, vl).accts.value)
    decreases |vl|
  {
    hide Balance, Of;
    if vl == [] {
    } else {
      BalanceCredit(db, a, vl[0], x, d);
      BalanceCreditAll(Credit(db, a, vl[0]), a, vl[1..], x, d);
    }
  }

  // ---------- withdrawing ----------

  /** When the funds are there for every entry, every debit of the loop succeeds. */
  lemma {:induction false} FundedSucceeds(db: Db, me: Id, n: Id, vl: seq<Value>)
    requires KeyScan.Distinct(vl) && Funded(db, me, vl)
    ensures WithdrawAll(db, me, n, vl).Commit?
    decreases |vl|
  {
    hide Balance, DebitForced;
    if vl == [] {
    } else {
      var v, t := vl[0], vl[1..];
      assert vl == [v] + t && v in vl;
      var db' := SetNoteValue(DebitForced(db, me, v), n, v);
      forall w | w in t ensures Balance(db', me, w.denom) >= w.quant {
        var i :| 0 <= i < |t| && t[i] == w;
        assert vl[i + 1] == w && vl[0].denom != w.denom;
        assert w in vl;
        BalanceDebit(db, me, v, me, w.denom);
        SameBalance(DebitForced(db, me, v), n, v, me, w.denom);
      }
      FundedSucceeds(db', me, n, t);
    }
  }

  lemma SameBalance(db: Db, n: Id, v: Value, a: Id, d: Id)
    ensures Balance(SetNoteValue(db, n, v), a, d) == Balance(db, a, d)
  {}

  /** In a parent transaction the check at the start decides: the debits behind it cannot be refused. */
  lemma CheckedWithdraw(db: Db, me: Id, n: Id, c: int, args: seq<CString>)
    requires args != [] && Gather([], args).Some? && me in db.accts.modulus && db.accts.modulus[me] > 0
    ensures WithdrawCmd(db, true, me, n, c, args).Commit? <==> Funded(db, me, Gather([], args).value)
    ensures !WithdrawCmd(db, true, me, n, c, args).Error?
  {
    hide Gather, WithdrawAll, StringToValue;
    var vl := Gather([], args).value;
    Gathered(args, "");
    if Funded(db, me, vl) {
      var db2 := SetChallenge(db.(notes := SetNoteIssuer(db.notes, n, me)), n, c);
      assert db2.accts == db.accts;
      FundedSucceeds(db2, me, n, vl);
    }
  }

  /** What the loop has done when it gets to its end: exactly the listed amounts moved to the note. */
  lemma {:induction false} WithdrawMoves(db: Db, me: Id, n: Id, vl: seq<Value>, x: Id, d: Id)
    requires WithdrawAll(db, me, n, vl).Commit?
    ensures
      var db' := WithdrawAll(db, me, n, vl).db;
      && Balance(db', x, d) == Balance(db, x, d) - Only(x, me, Total(vl, d))
      && db'.offers == db.offers && db'.accts == db.accts.(value := db'.accts.value)
      && db'.notes == db.notes.(value := db'.notes.value)
    decreases |vl|
  {
    hide Balance, Debit, Of;
    if vl == [] {
    } else {
      DebitedIs(db, me, vl[0]);
      BalanceDebit(db, me, vl[0], x, d);
      SameBalance(DebitForced(db, me, vl[0]), n, vl[0], x, d);
      WithdrawMoves(SetNoteValue(DebitForced(db, me, vl[0]), n, vl[0]), me, n, vl[1..], x, d);
    }
  }

  lemma {:induction false} WithdrawNote(db: Db, me: Id, n: Id, vl: seq<Value>, k: Key)
    requires KeyScan.Distinct(vl) && WithdrawAll(db, me, n, vl).Commit?
    ensures
      var db' := WithdrawAll(db, me, n, vl).db;
      Get(db'.notes.value, k) == if k.0 == n && Has(vl, k.1) then Total(vl, k.1) else Get(db.notes.value, k)
    decreases |vl|
  {
    hide Debit;
    if vl == [] {
    } else {
      var v, t := vl[0], vl[1..];
      assert forall i :: 0 <= i < |t| ==> t[i] == vl[i + 1];
      DebitedIs(db, me, v);
      DebitOffers(db, me, v);
      var db' := SetNoteValue(DebitForced(db, me, v), n, v);
      WithdrawNote(db', me, n, t, k);
      DistinctTotal(vl, k.1);
      DistinctTotal(t, k.1);
      assert k == (k.0, k.1);
      assert Has(vl, k.1) <==> k.1 == v.denom || Has(t, k.1) by { HasCons(v, t, k.1); assert vl == [v] + t; }
      assert Has(t, k.1) ==> k.1 != v.denom;
    }
  }

  lemma HasCons(v: Value, t: seq<Value>, d: Id)
    ensures Has([v] + t, d) <==> d == v.denom || Has(t, d)
  {
    var l := [v] + t;
    assert l[0] == v;
    assert forall i :: 0 <= i < |t| ==> l[i + 1] == t[i];
    if Has(l, d) && d != v.denom {
      var i :| 0 <= i < |l| && l[i].denom == d;
      assert t[i - 1].denom == d;
    }
  }
}
