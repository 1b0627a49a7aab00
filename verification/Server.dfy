/** The objects of bif: a trader working on a pair of denominations (bif/trader.cc) and the shell of one
    connection (bif/shell.cc), each method proved against the step of Market or Exchange it takes. */
module Server {
  import opened Text
  import opened Portfolio
  import L = Ledger
  import opened Invariants
  import M = Market
  import opened Merge
  import C = Commands
  import X = Exchange
  import D = Database
  import KeyScan
  import Rsa

  type Db = L.Db

  class Trader {
    const tables: D.Tables
    const d0: Id
    const d1: Id

    constructor (tables: D.Tables, d0: Id, d1: Id)
      ensures this.tables == tables && this.d0 == d0 && this.d1 == d1
    {
      this.tables := tables;
      this.d0 := d0;
      this.d1 := d1;
    }

    /** The end of trader::execute for one side. */
    method SettleBid(o: Id, left: Value)
      modifies tables
      ensures tables.View() == M.SettleBid(old(tables.View()), o, left)
    {
      if left.quant == 0.0 {
        tables.DestroyOffer(o);
      } else {
        tables.offerBid := tables.offerBid[o := left];
      }
    }

    /** One side is credited and asks for that much less. */
    method CreditAsk(issuer: Id, credit: Value, o: Id, ask: Value)
      modifies tables
      ensures tables.View() == M.SetAsk(L.Credit(old(tables.View()), issuer, credit), o, M.Minus(ask, credit))
    {
      tables.Credit(issuer, credit);
      tables.offerAsk := tables.offerAsk[o := Value(ask.denom, ask.quant - credit.quant)];
    }

    /** Everything behind the test of the ratios. */
    method Fill(o0: Id, o1: Id)
      requires M.Tradable(tables.View().offers, o0, o1)
      modifies tables
      ensures tables.View() == M.Trade(old(tables.View()), o0, o1)
    {
      hide L.Credit, L.DestroyOffer, M.SettleBid, M.SetAsk, M.Minus;
      var bid0, ask0, issuer0 := tables.offerBid[o0], tables.offerAsk[o0], tables.offerIssuer[o0];
      var bid1, ask1, issuer1 := tables.offerBid[o1], tables.offerAsk[o1], tables.offerIssuer[o1];
      var theta0, theta1 := 1.0, 1.0;
      if bid0.quant < ask1.quant {
        theta1 := bid0.quant / ask1.quant;
      } else if bid1.quant < ask0.quant {
        theta0 := bid1.quant / ask0.quant;
      }
      assert (theta0, theta1) == M.ThetasOf(tables.View().offers, o0, o1);
      hide M.ThetasOf, D.Tables.View;
      CreditAsk(issuer0, M.Scaled(ask0, theta0), o0, ask0);
      CreditAsk(issuer1, M.Scaled(ask1, theta1), o1, ask1);
      SettleBid(o0, M.Minus(bid0, M.Scaled(bid0, theta0)));
      SettleBid(o1, M.Minus(bid1, M.Scaled(bid1, theta1)));
    }

    method Execute() returns (success: bool)
      requires Inv(tables.View())
      modifies tables
      ensures success <==> M.CanTrade(old(tables.View()).offers, d0, d1)
      ensures success ==> tables.View() == M.Execute(old(tables.View()), d0, d1)
      ensures !success ==> tables.View() == old(tables.View())
    {
      hide OffersInv, NotesInv, JournalOk, M.Trade, M.Crossing, M.Tradable, M.Cross;
      var e0 := tables.FindBestOffer(d0, d1);
      if e0.None? { return false; }
      var e1 := tables.FindBestOffer(d1, d0);
      if e1.None? { return false; }
      if !M.Cross(e0.value.ratio, e1.value.ratio) { return false; }
      M.BestCross(tables.View().offers, d0, d1);
      Fill(e0.value.offer, e1.value.offer);
      success := true;
    }

    method Process()
      requires Inv(tables.View())
      modifies tables
      ensures tables.View() == M.Process(old(tables.View()), d0, d1)
      ensures Inv(tables.View()) && (d0 != d1 ==> M.Uncrossed(tables.View().offers, d0, d1))
    {
      hide Inv, M.Execute, M.CanTrade, M.Uncrossed, M.Survivors;
      M.ProcessUncrosses(tables.View(), d0, d1);
      if d0 == d1 { return; }
      var success := true;
      while success
        invariant Inv(tables.View())
        invariant success ==> M.Process(tables.View(), d0, d1) == M.Process(old(tables.View()), d0, d1)
        invariant !success ==> tables.View() == M.Process(old(tables.View()), d0, d1)
        decreases success, |tables.View().offers.bid|
      {
        ghost var before := tables.View();
        if M.CanTrade(before.offers, d0, d1) { M.ExecutePreserves(before, d0, d1); }
        success := Execute();
      }
    }
  }

  function ReplyOf(o: C.Outcome): C.Reply {
    match o
    case Commit(_) => C.Success
    case Abort(_, reply) => reply
    case Error => C.DatabaseError
  }

  /** The shell of a logged-in connection. saved: where txn_abort goes back to, if a parent transaction is
      open; traders: the trader threads started so far and still running. */
  class Shell {
    const tables: D.Tables
    const acct: Id
    var saved: Option<Db>
    var traders: multiset<(Id, Id)>

    constructor (tables: D.Tables, acct: Id)
      ensures this.tables == tables && this.acct == acct && saved == None && traders == multiset{}
    {
      this.tables := tables;
      this.acct := acct;
      saved := None;
      traders := multiset{};
    }

    function Site(): X.Site
      reads this, tables
    {
      X.Site(tables.View(), saved, traders)
    }

    /** abort_transaction: nothing in a parent transaction. */
    method AbortTransaction(before: Db)
      modifies tables
      ensures tables.View() == if saved.Some? then old(tables.View()) else before
    {
      if saved.None? { tables.Restore(before); }
    }

    /** error_check with an error: the parent transaction is lost too. */
    method ErrorCheck(before: Db)
      modifies tables, `saved
      ensures tables.View() == if old(saved).Some? then old(saved).value else before
      ensures saved == None
    {
      if saved.Some? {
        tables.Restore(saved.value);
        saved := None;
      } else {
        tables.Restore(before);
      }
    }

    /** The three macros at the end of a command. The tables are as the outcome says, unless it is an
        error. before: the tables at begin_transaction. */
    method Close(before: Db, ghost o: C.Outcome, reply: C.Reply, failed: bool)
      requires failed <==> o.Error?
      requires !failed ==> tables.View() == o.db && reply == ReplyOf(o)
      requires o.Abort? <==> !failed && reply != C.Success
      modifies tables, `saved
      ensures X.Site(tables.View(), saved, traders) == X.Finish(X.Site(before, old(saved), traders), o)
    {
      hide D.Tables.View;
      if failed {
        ErrorCheck(before);
      } else if reply != C.Success {
        AbortTransaction(before);
      }
    }

    /** The checks that credit and debit make before they touch a balance. */
    method Authorize(target: Id, vl: seq<Value>) returns (reply: C.Reply, failed: bool)
      ensures
        var o := C.Authorized(tables.View(), acct, target, vl);
        (failed <==> o.Error?) && (!failed ==> reply == ReplyOf(o))
    {
      if target !in tables.acctPublic { return C.NotFound, false; }
      if acct !in tables.acctFlags { return C.DatabaseError, true; }
      if !tables.acctFlags[acct].super { return C.NoAuth, false; }
      var i := 0;
      while i < |vl|
        invariant i <= |vl|
        invariant forall j :: 0 <= j < i ==> vl[j].denom in tables.denomIssuer
      {
        if vl[i].denom !in tables.denomIssuer {
          assert vl[i] in vl;
          return C.NotFound, false;
        }
        i := i + 1;
      }
      reply, failed := C.Success, false;
    }

    method Credit(target: Id, args: seq<CString>) returns (reply: C.Reply)
      requires X.Valid(Site())
      modifies this, tables
      ensures Site() == X.Next(old(Site()), X.CreditStep(acct, target, args))
      ensures reply == ReplyOf(C.CreditCmd(old(tables.View()), acct, target, args))
    {
      hide Inv, Gather, L.CreditAll, C.Authorized, D.Tables.View;
      if args == [] { return C.Usage; }
      var vl := ParseValues(args);
      if vl.None? { return C.Invalid; }
      var before := tables.View();
      ghost var o := C.CreditCmd(before, acct, target, args);
      AuthorizedKeeps(before, acct, target, vl.value);
      var failed;
      reply, failed := Authorize(target, vl.value);
      if !failed && reply == C.Success {
        tables.CreditEach(target, vl.value);
      }
      Close(before, o, reply, failed);
      if failed { reply := C.DatabaseError; }
    }

    method Debit(target: Id, args: seq<CString>) returns (reply: C.Reply)
      requires X.Valid(Site())
      modifies this, tables
      ensures Site() == X.Next(old(Site()), X.DebitStep(acct, target, args))
      ensures reply == ReplyOf(C.DebitCmd(old(tables.View()), acct, target, args))
    {
      hide Inv, Gather, L.DebitForcedAll, C.Authorized, D.Tables.View;
      if args == [] { return C.Usage; }
      var vl := ParseValues(args);
      if vl.None? { return C.Invalid; }
      var before := tables.View();
      ghost var o := C.DebitCmd(before, acct, target, args);
      AuthorizedKeeps(before, acct, target, vl.value);
      var failed;
      reply, failed := Authorize(target, vl.value);
      if !failed && reply == C.Success {
        tables.DebitForcedEach(target, vl.value);
      }
      Close(before, o, reply, failed);
      if failed { reply := C.DatabaseError; }
    }

    /** The check at the start of note_withdraw in a parent transaction. */
    method CheckFunds(vl: seq<Value>) returns (ok: bool)
      ensures ok == C.Funded(tables.View(), acct, vl)
    {
      var i := 0;
      while i < |vl|
        invariant i <= |vl|
        invariant forall j :: 0 <= j < i ==> L.Balance(tables.View(), acct, vl[j].denom) >= vl[j].quant
      {
        var q := tables.GetValue(acct, vl[i].denom);
        if q < vl[i].quant {
          assert vl[i] in vl;
          return false;
        }
        i := i + 1;
      }
      ok := true;
    }

    /** The loop of note_withdraw: debit the account, set the value of the note. */
    method MoveToNote(n: Id, vl: seq<Value>) returns (reply: C.Reply, failed: bool)
      modifies tables
      ensures
        var o := C.WithdrawAll(old(tables.View()), acct, n, vl);
        && (failed <==> o.Error?)
        && (!failed ==> tables.View() == o.db && reply == ReplyOf(o))
    {
      ghost var o := C.WithdrawAll(tables.View(), acct, n, vl);
      var i := 0;
      while i < |vl|
        invariant i <= |vl|
        invariant C.WithdrawAll(tables.View(), acct, n, vl[i..]) == o
      {
        hide L.Debit;
        assert vl[i..][1..] == vl[i + 1..];
        var r := tables.Debit(acct, vl[i]);
        if r == D.Failure { return C.DatabaseError, true; }
        if r == D.Refusal { return C.Insufficient, false; }
        tables.SetNoteValue(n, vl[i]);
        i := i + 1;
      }
      reply, failed := C.Success, false;
    }

    method SetChallenge(n: Id, challenge: int)
      modifies tables
      ensures tables.View() == C.SetChallenge(old(tables.View()), n, challenge)
    {
      tables.noteChallenge := tables.noteChallenge[n := challenge];
    }

    /** note_withdraw between begin_transaction and the end. n: the new id; challenge: what rsa_challenge
        drew for the modulus of the account. */
    method Withdraw(n: Id, challenge: int, vl: seq<Value>) returns (reply: C.Reply, failed: bool)
      modifies tables
      ensures
        var o := Withdrawn(old(tables.View()), saved.Some?, acct, n, challenge, vl);
        && (failed <==> o.Error?)
        && (!failed ==> tables.View() == o.db && reply == ReplyOf(o))
    {
      hide C.Funded, C.WithdrawAll, L.SetNoteIssuer;
      if saved.Some? {
        var ok := CheckFunds(vl);
        if !ok { return C.Insufficient, false; }
      }
      tables.SetNoteIssuer(n, acct);
      assert tables.View().accts == old(tables.View()).accts;
      if acct !in tables.acctModulus { return C.DatabaseError, true; }
      if tables.acctModulus[acct] <= 0 { return C.DatabaseError, false; }
      hide D.Tables.View, C.SetChallenge;
      SetChallenge(n, challenge);
      WithdrawAllReplies(tables.View(), acct, n, vl);
      reply, failed := MoveToNote(n, vl);
      if !failed && reply == C.Success {
        var _ := tables.NewEvent(L.NoteCreateEvent(n));
      }
    }

    method NoteWithdraw(n: Id, challenge: int, args: seq<CString>) returns (reply: C.Reply)
      requires X.Valid(Site()) && n !in tables.noteIssuer
      modifies this, tables
      ensures Site() == X.Next(old(Site()), X.WithdrawStep(acct, n, challenge, args))
      ensures reply == ReplyOf(C.WithdrawCmd(old(tables.View()), old(saved).Some?, acct, n, challenge, args))
    {
      hide Inv, Gather, Withdrawn, D.Tables.View;
      if args == [] { return C.Usage; }
      var vl := ParseValues(args);
      if vl.None? { return C.Invalid; }
      var before := tables.View();
      ghost var o := C.WithdrawCmd(before, saved.Some?, acct, n, challenge, args);
      WithdrawnIs(before, saved.Some?, acct, n, challenge, args);
      var failed;
      reply, failed := Withdraw(n, challenge, vl.value);
      Close(before, o, reply, failed);
      if failed { reply := C.DatabaseError; }
    }

    /** note_deposit between begin_transaction and the end. */
    method Deposit(n: Id, response: int) returns (reply: C.Reply, failed: bool)
      modifies tables
      ensures
        var o := C.DepositCmd(old(tables.View()), acct, n, Some(response));
        && (failed <==> o.Error?)
        && (!failed ==> tables.View() == o.db && reply == ReplyOf(o))
    {
      hide L.CreditAll, L.DestroyNote, KeyScan.Listing, Rsa.Verifies;
      if n !in tables.noteIssuer { return C.NotFound, false; }
      if n !in tables.noteChallenge { return C.DatabaseError, true; }
      var issuer := tables.noteIssuer[n];
      if issuer !in tables.acctModulus || issuer !in tables.acctPublic { return C.DatabaseError, true; }
      var km, kp := tables.acctModulus[issuer], tables.acctPublic[issuer];
      if kp < 0 || (km == 1 && response > 0) { return C.NoAuth, false; }
      var ok := Rsa.VerifyResponse(tables.noteChallenge[n], response, kp, km);
      if !ok { return C.NoAuth, false; }
      var vl := KeyScan.GetPortfolio(tables.noteValue, n);
      tables.CreditEach(acct, vl);
      tables.DestroyNote(n);
      reply, failed := C.Success, false;
    }

    method NoteDeposit(n: Id, response: Option<int>) returns (reply: C.Reply)
      requires X.Valid(Site())
      modifies this, tables
      ensures Site() == X.Next(old(Site()), X.DepositStep(acct, n, response))
      ensures reply == ReplyOf(C.DepositCmd(old(tables.View()), acct, n, response))
    {
      if response.None? {
        DepositStepIs(Site(), acct, n, response);
        return C.Invalid;
      }
      var before := tables.View();
      ghost var o := C.DepositCmd(before, acct, n, response);
      DepositReplies(before, acct, n, response);
      DepositStepIs(Site(), acct, n, response);
      hide Inv, C.DepositCmd, D.Tables.View, X.Next;
      var failed;
      reply, failed := Deposit(n, response.value);
      Close(before, o, reply, failed);
      if failed { reply := C.DatabaseError; }
    }

    method SetBid(o: Id, bid: Value)
      modifies tables
      ensures
        var db := old(tables.View());
        tables.View() == db.(offers := db.offers.(bid := db.offers.bid[o := bid]))
    {
      tables.offerBid := tables.offerBid[o := bid];
    }

    method SetAsk(o: Id, ask: Value)
      modifies tables
      ensures
        var db := old(tables.View());
        tables.View() == db.(offers := db.offers.(ask := db.offers.ask[o := ask]))
    {
      tables.offerAsk := tables.offerAsk[o := ask];
    }

    /** offer_create between begin_transaction and the end. */
    method List(o: Id, ask: Value, bid: Value, skip: nat) returns (reply: C.Reply, failed: bool)
      requires bid.quant > 0.0
      modifies tables
      ensures
        var r := Listed(old(tables.View()), acct, o, ask, bid, skip);
        && (failed <==> r.Error?)
        && (!failed ==> tables.View() == r.db && reply == ReplyOf(r))
    {
      hide L.Debit, L.SetOfferIssuer, L.SetIndex, D.Tables.View;
      var r := tables.Debit(acct, bid);
      if r == D.Failure { return C.DatabaseError, true; }
      if r == D.Refusal { return C.DatabaseError, false; }
      tables.SetOfferIssuer(o, acct);
      SetBid(o, bid);
      SetAsk(o, ask);
      r := tables.SetIndex(o, ask, bid, skip);
      var _ := tables.NewEvent(L.OfferCreateEvent(o));
      reply, failed := C.Success, false;
    }

    method OfferCreate(o: Id, askArg: CString, bidArg: CString, skip: nat) returns (reply: C.Reply)
      requires X.Valid(Site()) && o !in tables.offerIssuer
      modifies this, tables
      ensures Site() == X.Next(old(Site()), X.OfferCreateStep(acct, o, askArg, bidArg, skip))
      ensures reply == ReplyOf(C.OfferCreateCmd(old(tables.View()), acct, o, askArg, bidArg, skip))
    {
      hide Inv, StringToValue, Listed, D.Tables.View;
      var ask := StringToValue(askArg);
      if ask.None? || ask.value.quant <= 0.0 { return C.Invalid; }
      var bid := StringToValue(bidArg);
      if bid.None? || bid.value.quant <= 0.0 || ask.value.denom == bid.value.denom { return C.Invalid; }
      var before := tables.View();
      ghost var r := C.OfferCreateCmd(before, acct, o, askArg, bidArg, skip);
      ListedIs(before, acct, o, askArg, bidArg, skip);
      var failed;
      reply, failed := List(o, ask.value, bid.value, skip);
      Close(before, r, reply, failed);
      if failed {
        reply := C.DatabaseError;
      } else if reply == C.Success {
        traders := traders + multiset{(ask.value.denom, bid.value.denom)};
      }
    }

    /** offer_destroy between begin_transaction and the end. */
    method Unlist(o: Id) returns (reply: C.Reply, failed: bool)
      modifies tables
      ensures
        var r := C.OfferDestroyCmd(old(tables.View()), acct, o);
        && (failed <==> r.Error?)
        && (!failed ==> tables.View() == r.db && reply == ReplyOf(r))
    {
      hide L.Credit, L.DestroyOffer;
      if o !in tables.offerIssuer { return C.NotFound, false; }
      if o !in tables.offerBid { return C.DatabaseError, true; }
      if tables.offerIssuer[o] != acct {
        if acct !in tables.acctFlags { return C.DatabaseError, true; }
        if !tables.acctFlags[acct].super { return C.NoAuth, false; }
      }
      tables.Credit(acct, tables.offerBid[o]);
      tables.DestroyOffer(o);
      reply, failed := C.Success, false;
    }

    method OfferDestroy(o: Id) returns (reply: C.Reply)
      requires X.Valid(Site())
      modifies this, tables
      ensures Site() == X.Next(old(Site()), X.OfferDestroyStep(acct, o))
      ensures reply == ReplyOf(C.OfferDestroyCmd(old(tables.View()), acct, o))
    {
      var before := tables.View();
      ghost var r := C.OfferDestroyCmd(before, acct, o);
      assert r.Abort? ==> r.reply != C.Success;
      OfferDestroyStepIs(Site(), acct, o);
      hide Inv, C.OfferDestroyCmd, D.Tables.View, X.Next;
      var failed;
      reply, failed := Unlist(o);
      Close(before, r, reply, failed);
      if failed { reply := C.DatabaseError; }
    }

    method AcctDestroy(target: Id) returns (reply: C.Reply)
      requires X.Valid(Site())
      modifies this, tables
      ensures Site() == X.Next(old(Site()), X.AcctDestroyStep(acct, target))
      ensures reply == ReplyOf(C.AcctDestroyCmd(old(tables.View()), acct, target))
    {
      hide Inv, L.DestroyAcct;
      var before := tables.View();
      ghost var o := C.AcctDestroyCmd(before, acct, target);
      var failed := false;
      if acct !in tables.acctFlags {
        reply, failed := C.DatabaseError, true;
      } else if !tables.acctFlags[acct].super || acct == target {
        reply := C.NoAuth;
      } else if target !in tables.acctPublic {
        reply := C.NotFound;
      } else {
        tables.DestroyAcct(target);
        reply := C.Success;
      }
      Close(before, o, reply, failed);
    }

    method TxnCreate() returns (reply: C.Reply)
      requires X.Valid(Site())
      modifies `saved
      ensures Site() == X.Next(old(Site()), X.TxnCreateStep(acct))
      ensures reply == C.Success <==> X.MayOpen(old(Site()), acct)
    {
      if saved.Some? { return C.Invalid; }
      if acct !in tables.acctFlags { return C.DatabaseError; }
      if !tables.acctFlags[acct].txn && !tables.acctFlags[acct].super { return C.NoAuth; }
      saved := Some(tables.View());
      reply := C.Success;
    }

    method TxnCommit() returns (reply: C.Reply)
      requires X.Valid(Site())
      modifies `saved
      ensures Site() == X.Next(old(Site()), X.TxnCommitStep)
      ensures reply == C.Success <==> old(saved).Some?
    {
      if saved.None? { return C.Invalid; }
      saved := None;
      reply := C.Success;
    }

    method TxnAbort() returns (reply: C.Reply)
      requires X.Valid(Site())
      modifies tables, `saved
      ensures Site() == X.Next(old(Site()), X.TxnAbortStep)
      ensures reply == C.Success <==> old(saved).Some?
    {
      hide Inv;
      if saved.None? { return C.Invalid; }
      tables.Restore(saved.value);
      saved := None;
      reply := C.Success;
    }

    /** One transaction of a trader thread; it runs while no parent transaction holds the tables. */
    method RunTrader(d0: Id, d1: Id)
      requires X.Valid(Site()) && X.Enabled(Site(), X.TraderStep(d0, d1))
      modifies this, tables
      ensures Site() == X.Next(old(Site()), X.TraderStep(d0, d1))
    {
      hide Inv, M.Execute, M.CanTrade, D.Tables.View;
      var success := false;
      if d0 != d1 {
        var trader := new Trader(tables, d0, d1);
        success := trader.Execute();
      }
      if !success { traders := traders - multiset{(d0, d1)}; }
    }

    /** offer_list_by_denom: the list comes reversed and is turned around again. */
    method OfferListByDenom(ask: Id, bid: Id) returns (reply: C.Reply, ol: seq<Id>)
      ensures reply == if ask in tables.denomIssuer && bid in tables.denomIssuer then C.Success else C.NotFound
      ensures ol == if reply == C.Success then D.OfferIds(L.At(tables.offerIndex, (ask, bid))) else []
    {
      if ask !in tables.denomIssuer || bid !in tables.denomIssuer { return C.NotFound, []; }
      ol := tables.FindAllOffers(ask, bid);
      ReverseTwice(D.OfferIds(L.At(tables.offerIndex, (ask, bid))));
      ghost var listed := ol;
      var rest := ol;
      ol := [];
      while rest != []
        invariant Reverse(rest) + ol == Reverse(listed)
        decreases |rest|
      {
        assert Reverse(rest) == Reverse(rest[1..]) + [rest[0]];
        ol := [rest[0]] + ol;
        rest := rest[1..];
      }
      assert Reverse(rest) + ol == ol;
      reply := C.Success;
    }
  }

  // ---------- the commands behind their argument checks ----------

  lemma AuthorizedKeeps(db: Db, me: Id, target: Id, vl: seq<Value>)
    ensures
      var o := C.Authorized(db, me, target, vl);
      (!o.Error? ==> o.db == db) && (o.Abort? ==> o.reply != C.Success)
  {}

  function Withdrawn(db: Db, inside: bool, me: Id, n: Id, challenge: int, vl: seq<Value>): C.Outcome {
    if inside && !C.Funded(db, me, vl) then C.Abort(db, C.Insufficient)
    else
      var db1 := db.(notes := L.SetNoteIssuer(db.notes, n, me));
      if me !in db.accts.modulus then C.Error
      else if db.accts.modulus[me] <= 0 then C.Abort(db1, C.DatabaseError)
      else
        match C.WithdrawAll(C.SetChallenge(db1, n, challenge), me, n, vl)
        case Commit(db2) => C.Commit(L.Logged(db2, L.NoteCreateEvent(n)))
        case o => o
  }

  lemma {:induction false} WithdrawAllReplies(db: Db, me: Id, n: Id, vl: seq<Value>)
    ensures C.WithdrawAll(db, me, n, vl).Abort? ==> C.WithdrawAll(db, me, n, vl).reply != C.Success
    decreases |vl|
  {
    hide L.Debit;
    if vl == [] {
    } else if L.Debit(db, me, vl[0]).Debited? {
      WithdrawAllReplies(C.SetNoteValue(L.Debit(db, me, vl[0]).db, n, vl[0]), me, n, vl[1..]);
    }
  }

  lemma WithdrawnIs(db: Db, inside: bool, me: Id, n: Id, challenge: int, args: seq<CString>)
    ensures args != [] && Gather([], args).Some? ==>
      var vl := Gather([], args).value;
      C.WithdrawCmd(db, inside, me, n, challenge, args) == Withdrawn(db, inside, me, n, challenge, vl)
    ensures
      var o := C.WithdrawCmd(db, inside, me, n, challenge, args);
      o.Abort? ==> o.reply != C.Success
  {
    hide Gather, C.WithdrawAll, C.Funded;
    if Gather([], args).Some? {
      var db2 := C.SetChallenge(db.(notes := L.SetNoteIssuer(db.notes, n, me)), n, challenge);
      WithdrawAllReplies(db2, me, n, Gather([], args).value);
    }
  }

  lemma DepositStepIs(s: X.Site, me: Id, n: Id, response: Option<int>)
    requires X.Valid(s)
    ensures X.Next(s, X.DepositStep(me, n, response)) == X.Finish(s, C.DepositCmd(s.db, me, n, response))
  {
    hide Inv, C.DepositCmd;
  }

  lemma OfferDestroyStepIs(s: X.Site, me: Id, o: Id)
    requires X.Valid(s)
    ensures X.Next(s, X.OfferDestroyStep(me, o)) == X.Finish(s, C.OfferDestroyCmd(s.db, me, o))
  {
    hide Inv, C.OfferDestroyCmd;
  }

  lemma DepositReplies(db: Db, me: Id, n: Id, response: Option<int>)
    ensures
      var o := C.DepositCmd(db, me, n, response);
      o.Abort? ==> o.reply != C.Success
  {
    hide L.CreditAll, L.DestroyNote, C.Answers, KeyScan.Listing;
  }

  function Listed(db: Db, me: Id, o: Id, ask: Value, bid: Value, skip: nat): C.Outcome
    requires bid.quant > 0.0
  {
    match L.Debit(db, me, bid)
    case Failed => C.Error
    case Refused => C.Abort(db, C.DatabaseError)
    case Debited(db') =>
      C.Commit(L.Logged(db'.(offers := List(db'.offers, o, me, ask, bid, skip)), L.OfferCreateEvent(o)))
  }

  lemma ListedIs(db: Db, me: Id, o: Id, askArg: CString, bidArg: CString, skip: nat)
    ensures
      var r := C.OfferCreateCmd(db, me, o, askArg, bidArg, skip);
      && (C.OfferArgs(askArg, bidArg).Some? ==>
          r == Listed(db, me, o, C.OfferArgs(askArg, bidArg).value.0, C.OfferArgs(askArg, bidArg).value.1, skip))
      && (r.Abort? ==> r.reply != C.Success)
  {
    hide L.Debit, List, StringToValue;
  }

  lemma OfferIdsAt(l: seq<L.Entry>)
    ensures |D.OfferIds(l)| == |l| && forall i :: 0 <= i < |l| ==> D.OfferIds(l)[i] == l[i].offer
    ensures forall o :: o in D.OfferIds(l) <==> o in OffersIn(l)
  {
    forall o ensures o in D.OfferIds(l) <==> o in OffersIn(l) {
      if o in OffersIn(l) {
        var i :| 0 <= i < |l| && l[i].offer == o;
        assert D.OfferIds(l)[i] == o;
      }
    }
  }

  lemma GoodList(t: L.Offers, p: (Id, Id))
    requires OffersInv(t)
    ensures OffersOk(t.bid, t.ask) && ListOk(t.bid, t.ask, p, L.At(t.index, p))
  {}

  lemma EntryOfList(t: L.Offers, p: (Id, Id), l: seq<L.Entry>, i: nat)
    requires OffersOk(t.bid, t.ask) && ListOk(t.bid, t.ask, p, l) && i < |l|
    ensures l[i].offer in t.bid && t.bid[l[i].offer].quant > 0.0 && l[i].ratio == Ratio(t.bid, t.ask, l[i].offer)
  {
    hide Sorted, NoRepeats, OffersIn;
    assert l[i] in l;
  }

  /** What offer_list_by_denom shows: exactly the offers of the pair, the best ratio first. */
  lemma ListedBestFirst(db: Db, ask: Id, bid: Id)
    requires Inv(db)
    ensures
      var t := db.offers;
      var ol := D.OfferIds(L.At(t.index, (ask, bid)));
      && (forall o :: o in ol <==> o in t.bid && o in t.ask && Pair(t.bid, t.ask, o) == (ask, bid))
      && (forall o :: o in ol ==> o in t.bid && o in t.ask && t.bid[o].quant > 0.0)
      && (forall i, j :: 0 <= i < j < |ol| ==> ol[i] != ol[j])
      && (forall i, j :: 0 <= i < j < |ol| ==> Ratio(t.bid, t.ask, ol[i]) <= Ratio(t.bid, t.ask, ol[j]))
  {
    var t := db.offers;
    var l := L.At(t.index, (ask, bid));
    var ol := D.OfferIds(l);
    GoodList(t, (ask, bid));
    OfferIdsAt(l);
    hide Inv, L.At, D.OfferIds, OffersIn, Ratio;
    forall i, j | 0 <= i < j < |ol|
      ensures ol[i] in t.bid && ol[j] in t.bid && t.bid[ol[i]].quant > 0.0 && t.bid[ol[j]].quant > 0.0
      ensures ol[i] != ol[j] && Ratio(t.bid, t.ask, ol[i]) <= Ratio(t.bid, t.ask, ol[j])
    {
      EntryOfList(t, (ask, bid), l, i);
      EntryOfList(t, (ask, bid), l, j);
    }
  }
}
