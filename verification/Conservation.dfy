/** What every operation does to the supply of a denomination: the sum over all accounts, all notes and
    everything offers hold. */
module Conservation {
  import opened Portfolio
  import opened Sums
  import opened Ledger
  import opened Invariants

  /** The amount of d in a value. */
  function Of(v: Value, d: Id): real { if v.denom == d then v.quant else 0.0 }

  function Total(vl: seq<Value>, d: Id): real {
    if vl == [] then 0.0 else Of(vl[0], d) + Total(vl[1..], d)
  }

  lemma PartPut(m: map<Key, real>, k: Key, q: real, d: Id)
    ensures Sum(Part(m[k := q], d)) == Sum(Part(m, d)) + (if k.1 == d then q - Get(m, k) else 0.0)
  {
    if k.1 == d {
      SumPut(Part(m, d), k, q);
      assert Part(m[k := q], d) == Part(m, d)[k := q];
    } else {
      assert Part(m[k := q], d) == Part(m, d);
    }
  }

  lemma PartDrop(m: map<Key, real>, k: Key, d: Id)
    ensures Sum(Part(m - {k}, d)) == Sum(Part(m, d)) - (if k.1 == d then Get(m, k) else 0.0)
  {
    if k.1 == d {
      SumDrop(Part(m, d), k);
      assert Part(m - {k}, d) == Part(m, d) - {k};
    } else {
      assert Part(m - {k}, d) == Part(m, d);
    }
  }

  lemma PartStore(m: map<Key, real>, k: Key, q: real, d: Id)
    ensures Sum(Part(Store(m, k, q), d)) == Sum(Part(m, d)) + (if k.1 == d then q - Get(m, k) else 0.0)
  {
    if q == 0.0 { PartDrop(m, k, d); } else { PartPut(m, k, q, d); }
  }

  lemma PartOthers(m: map<Key, real>, id: Id, d: Id)
    ensures Sum(Part(Others(m, id), d)) == Sum(Part(m, d)) - Get(m, (id, d))
  {
    SumDrop(Part(m, d), (id, d));
    assert Part(Others(m, id), d) == Part(m, d) - {(id, d)};
  }

  function BidOf(bid: map<Id, Value>, o: Id, d: Id): real { if o in bid then Of(bid[o], d) else 0.0 }

  lemma BidPut(bid: map<Id, Value>, o: Id, b: Value, d: Id)
    ensures Sum(Bids(bid[o := b], d)) == Sum(Bids(bid, d)) - BidOf(bid, o, d) + Of(b, d)
  {
    if b.denom == d {
      SumPut(Bids(bid, d), o, b.quant);
      assert Bids(bid[o := b], d) == Bids(bid, d)[o := b.quant];
    } else {
      SumDrop(Bids(bid, d), o);
      assert Bids(bid[o := b], d) == Bids(bid, d) - {o};
    }
  }

  lemma BidDrop(bid: map<Id, Value>, o: Id, d: Id)
    ensures Sum(Bids(bid - {o}, d)) == Sum(Bids(bid, d)) - BidOf(bid, o, d)
  {
    SumDrop(Bids(bid, d), o);
    assert Bids(bid - {o}, d) == Bids(bid, d) - {o};
  }

  lemma SupplyCredit(db: Db, a: Id, v: Value, d: Id)
    ensures Supply(Credit(db, a, v), d) == Supply(db, d) + Of(v, d)
  {
    PartStore(db.accts.value, (a, v.denom), Balance(db, a, v.denom) + v.quant, d);
  }

  lemma SupplyDebit(db: Db, a: Id, v: Value, d: Id)
    ensures Supply(DebitForced(db, a, v), d) == Supply(db, d) - Of(v, d)
  {
    PartStore(db.accts.value, (a, v.denom), Balance(db, a, v.denom) - v.quant, d);
  }

  lemma {:induction false} SupplyCreditAll(db: Db, a: Id, vl: seq<Value>, d: Id)
    ensures Supply(CreditAll(db, a, vl), d) == Supply(db, d) + Total(vl, d)
    decreases |vl|
  {
    hide Supply, Credit;
    if vl == [] {
    } else {
      SupplyCredit(db, a, vl[0], d);
      SupplyCreditAll(Credit(db, a, vl[0]), a, vl[1..], d);
    }
  }

  lemma {:induction false} SupplyDebitAll(db: Db, a: Id, vl: seq<Value>, d: Id)
    ensures Supply(DebitForcedAll(db, a, vl), d) == Supply(db, d) - Total(vl, d)
    decreases |vl|
  {
    hide Supply, DebitForced;
    if vl == [] {
    } else {
      SupplyDebit(db, a, vl[0], d);
      SupplyDebitAll(DebitForced(db, a, vl[0]), a, vl[1..], d);
    }
  }

  lemma SupplyNoteValue(db: Db, n: Id, v: Value, d: Id)
    ensures
      var t := db.notes;
      Supply(db.(notes := t.(value := t.value[(n, v.denom) := v.quant])), d)
      == Supply(db, d) + (if v.denom == d then v.quant - Get(t.value, (n, d)) else 0.0)
  {
    PartPut(db.notes.value, (n, v.denom), v.quant, d);
  }

  lemma SupplyDestroyNote(db: Db, n: Id, d: Id)
    ensures Supply(DestroyNote(db, n), d) == Supply(db, d) - Get(db.notes.value, (n, d))
  {
    PartOthers(db.notes.value, n, d);
  }

  lemma SupplyDestroyOffer(db: Db, o: Id, d: Id)
    requires o in db.offers.ask
    ensures Supply(DestroyOffer(db, o), d) == Supply(db, d) - BidOf(db.offers.bid, o, d)
  {
    hide Unlist, Part, Bids;
    BidDrop(db.offers.bid, o, d);
    UnlistBid(db.offers, o);
  }

  lemma UnlistBid(t: Offers, o: Id)
    requires o in t.ask
    ensures Unlist(t, o).bid == t.bid - {o}
  {
    hide At, Drop, RemoveOffer;
    assert o !in t.bid ==> t.bid - {o} == t.bid;
  }

  lemma SupplySetBid(db: Db, o: Id, b: Value, d: Id)
    ensures
      var t := db.offers;
      Supply(db.(offers := t.(bid := t.bid[o := b])), d) == Supply(db, d) - BidOf(t.bid, o, d) + Of(b, d)
  {
    BidPut(db.offers.bid, o, b, d);
  }

  // ---------- destroying an account ----------

  /** What the notes of a list hold. */
  function NotesHold(noteValue: map<Key, real>, ns: seq<Id>, d: Id): real {
    if ns == [] then 0.0 else Get(noteValue, (ns[0], d)) + NotesHold(noteValue, ns[1..], d)
  }

  lemma {:induction false} NotesHoldOthers(m: map<Key, real>, ns: seq<Id>, n: Id, d: Id)
    requires n !in ns
    ensures NotesHold(Others(m, n), ns, d) == NotesHold(m, ns, d)
  {
    if ns == [] {
    } else {
      assert n !in ns[1..];
      NotesHoldOthers(m, ns[1..], n, d);
    }
  }

  lemma {:induction false} SupplyDestroyNotes(db: Db, ns: seq<Id>, d: Id)
    requires forall i, j :: 0 <= i < j < |ns| ==> ns[i] != ns[j]
    ensures Supply(DestroyNotes(db, ns), d) == Supply(db, d) - NotesHold(db.notes.value, ns, d)
    decreases |ns|
  {
    hide Supply;
    if ns == [] {
    } else {
      SupplyDestroyNote(db, ns[0], d);
      assert ns[0] !in ns[1..];
      assert DestroyNote(db, ns[0]).notes.value == Others(db.notes.value, ns[0]);
      NotesHoldOthers(db.notes.value, ns[1..], ns[0], d);
      SupplyDestroyNotes(DestroyNote(db, ns[0]), ns[1..], d);
    }
  }

  lemma {:induction false} ReverseUnrepeated(l: seq<Id>)
    requires forall i, j :: 0 <= i < j < |l| ==> l[i] != l[j]
    ensures forall i, j :: 0 <= i < j < |Reverse(l)| ==> Reverse(l)[i] != Reverse(l)[j]
    ensures forall x :: x in Reverse(l) <==> x in l
  {
    if l == [] {
    } else {
      ReverseUnrepeated(l[1..]);
      assert l == [l[0]] + l[1..];
      assert l[0] !in l[1..];
      var r := Reverse(l[1..]);
      assert Reverse(l) == r + [l[0]];
      assert forall i :: 0 <= i < |r| ==> r[i] in r;
    }
  }

  /** The supply loses the balance of the account and what its notes hold; its offers stay. */
  lemma SupplyDestroyAcct(db: Db, a: Id, d: Id)
    requires Unrepeated(At(db.notes.acctNote, a))
    ensures Supply(DestroyAcct(db, a), d)
            == Supply(db, d) - Balance(db, a, d) - NotesHold(db.notes.value, Reverse(At(db.notes.acctNote, a)), d)
  {
    hide Others, Part, Bids, DestroyNotes;
    var db1 := Logged(db, AcctDestroyEvent(a));
    var ns := Reverse(At(db.notes.acctNote, a));
    ReverseUnrepeated(At(db.notes.acctNote, a));
    SupplyDestroyNotes(db1, ns, d);
    DestroyNotesFrame(db1, ns, db.accts);
    PartOthers(db.accts.value, a, d);
  }
}
