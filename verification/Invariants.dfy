/** What every operation on the tables keeps. */
module Invariants {
  import opened Portfolio
  import opened Ledger

  // ---------- the offer index ----------

  /** Both sides of every offer are positive and of different denominations. */
  ghost predicate OffersOk(bid: map<Id, Value>, ask: map<Id, Value>) {
    && bid.Keys == ask.Keys
    && (forall o :: o in bid ==> bid[o].quant > 0.0 && ask[o].quant > 0.0 && ask[o].denom != bid[o].denom)
  }

  /** The ratio an offer has now. */
  function Ratio(bid: map<Id, Value>, ask: map<Id, Value>, o: Id): real
    requires o in bid && o in ask && bid[o].quant != 0.0
  {
    ask[o].quant / bid[o].quant
  }

  function Pair(bid: map<Id, Value>, ask: map<Id, Value>, o: Id): (Id, Id)
    requires o in bid && o in ask
  {
    (ask[o].denom, bid[o].denom)
  }

  function OffersIn(l: seq<Entry>): set<Id> { set i | 0 <= i < |l| :: l[i].offer }

  predicate Sorted(l: seq<Entry>) { forall i, j :: 0 <= i < j < |l| ==> l[i].ratio <= l[j].ratio }

  predicate NoRepeats(l: seq<Entry>) { forall i, j :: 0 <= i < j < |l| ==> l[i].offer != l[j].offer }

  /** Every list is sorted, lists no offer twice, and holds exactly the live offers of its pair, each
      with the ratio it has now. */
  ghost predicate ListOk(bid: map<Id, Value>, ask: map<Id, Value>, p: (Id, Id), l: seq<Entry>)
    requires OffersOk(bid, ask)
  {
    && Sorted(l) && NoRepeats(l)
    && (forall o :: o in OffersIn(l) <==> o in bid && Pair(bid, ask, o) == p)
    && (forall e :: e in l ==> e.offer in bid && e.ratio == Ratio(bid, ask, e.offer))
  }

  ghost predicate IndexOk(bid: map<Id, Value>, ask: map<Id, Value>, index: map<(Id, Id), seq<Entry>>) {
    OffersOk(bid, ask) && forall p: (Id, Id) :: ListOk(bid, ask, p, At(index, p))
  }

  lemma ConsOffers(h: Entry, t: seq<Entry>)
    ensures OffersIn([h] + t) == {h.offer} + OffersIn(t)
  {
    var l := [h] + t;
    forall o | o in {h.offer} + OffersIn(t) ensures o in OffersIn(l) {
      if o in OffersIn(t) {
        var i :| 0 <= i < |t| && t[i].offer == o;
        assert l[i + 1].offer == o;
      } else {
        assert l[0].offer == o;
      }
    }
  }

  lemma ConsRepeats(h: Entry, t: seq<Entry>)
    ensures NoRepeats([h] + t) <==> NoRepeats(t) && h.offer !in OffersIn(t)
  {
    var l := [h] + t;
    assert l[0] == h;
    assert forall i :: 0 <= i < |t| ==> t[i] == l[i + 1];
    assert forall i :: 1 <= i < |l| ==> l[i] == t[i - 1];
    if NoRepeats(t) && h.offer !in OffersIn(t) {
      assert forall i :: 0 <= i < |t| ==> t[i].offer in OffersIn(t);
    }
  }

  lemma ConsSorted(h: Entry, t: seq<Entry>)
    ensures Sorted([h] + t) <==> Sorted(t) && forall x :: x in t ==> h.ratio <= x.ratio
  {
    var l := [h] + t;
    assert l[0] == h;
    assert forall i :: 0 <= i < |t| ==> t[i] == l[i + 1];
    assert forall i :: 1 <= i < |l| ==> l[i] == t[i - 1] && l[i] in t;
  }

  lemma Cons(h: Entry, t: seq<Entry>)
    ensures OffersIn([h] + t) == {h.offer} + OffersIn(t)
    ensures NoRepeats([h] + t) <==> NoRepeats(t) && h.offer !in OffersIn(t)
    ensures Sorted([h] + t) <==> Sorted(t) && forall x :: x in t ==> h.ratio <= x.ratio
    ensures forall x :: x in [h] + t <==> x == h || x in t
  {
    ConsOffers(h, t);
    ConsRepeats(h, t);
    ConsSorted(h, t);
  }

  lemma OffersMembers(l: seq<Entry>)
    ensures forall x :: x in l ==> x.offer in OffersIn(l)
  {}

  lemma {:induction false} InsertFacts(l: seq<Entry>, e: Entry, skip: nat)
    requires Sorted(l) && NoRepeats(l) && e.offer !in OffersIn(l)
    ensures
      var r := Insert(l, e, skip);
      && Sorted(r) && NoRepeats(r) && OffersIn(r) == OffersIn(l) + {e.offer}
      && forall x :: x in r <==> x in l || x == e
    decreases |l|
  {
    hide Sorted, NoRepeats, OffersIn;
    if l != [] {
      assert l == [l[0]] + l[1..];
      Cons(l[0], l[1..]);
    }
    if l == [] || e.ratio < l[0].ratio || (e.ratio == l[0].ratio && skip == 0) {
      Cons(e, l);
    } else {
      var skip' := if e.ratio == l[0].ratio then skip - 1 else skip;
      InsertFacts(l[1..], e, skip');
      Cons(l[0], Insert(l[1..], e, skip'));
    }
  }

  lemma InsertList(bid: map<Id, Value>, ask: map<Id, Value>, p: (Id, Id), l: seq<Entry>, o: Id, b: Value, a: Value,
                   skip: nat)
    requires OffersOk(bid, ask) && ListOk(bid, ask, p, l) && o !in bid
    requires b.quant > 0.0 && a.quant > 0.0 && a.denom != b.denom && p == (a.denom, b.denom)
    ensures OffersOk(bid[o := b], ask[o := a])
    ensures ListOk(bid[o := b], ask[o := a], p, Insert(l, Entry(o, a.quant / b.quant), skip))
  {
    hide Sorted, NoRepeats, OffersIn, Insert;
    InsertFacts(l, Entry(o, a.quant / b.quant), skip);
  }

  lemma OtherList(bid: map<Id, Value>, ask: map<Id, Value>, p: (Id, Id), l: seq<Entry>, o: Id, b: Value, a: Value)
    requires OffersOk(bid, ask) && ListOk(bid, ask, p, l) && o !in bid
    requires b.quant > 0.0 && a.quant > 0.0 && a.denom != b.denom && p != (a.denom, b.denom)
    ensures OffersOk(bid[o := b], ask[o := a])
    ensures ListOk(bid[o := b], ask[o := a], p, l)
  {
    hide Sorted, NoRepeats, OffersIn;
  }

  /** Creating an offer keeps the index in agreement. */
  lemma IndexInsert(bid: map<Id, Value>, ask: map<Id, Value>, index: map<(Id, Id), seq<Entry>>, o: Id, b: Value,
                    a: Value, skip: nat)
    requires IndexOk(bid, ask, index) && o !in bid
    requires b.quant > 0.0 && a.quant > 0.0 && a.denom != b.denom
    ensures
      var p := (a.denom, b.denom);
      IndexOk(bid[o := b], ask[o := a], index[p := Insert(At(index, p), Entry(o, a.quant / b.quant), skip)])
  {
    hide ListOk, Insert;
    var p := (a.denom, b.denom);
    InsertList(bid, ask, p, At(index, p), o, b, a, skip);
    var index' := index[p := Insert(At(index, p), Entry(o, a.quant / b.quant), skip)];
    forall q: (Id, Id)
      ensures ListOk(bid[o := b], ask[o := a], q, At(index', q))
    {
      if q != p {
        assert At(index', q) == At(index, q);
        OtherList(bid, ask, q, At(index, q), o, b, a);
      }
    }
  }

  lemma {:induction false} RemoveFacts(l: seq<Entry>, o: Id)
    requires Sorted(l) && NoRepeats(l)
    ensures
      var r := RemoveOffer(l, o);
      && Sorted(r) && NoRepeats(r) && OffersIn(r) == OffersIn(l) - {o}
      && forall x :: x in r <==> x in l && x.offer != o
    decreases |l|
  {
    if l == [] {
      assert OffersIn(l) == {};
    } else {
      hide Sorted, NoRepeats, OffersIn;
      assert l == [l[0]] + l[1..];
      Cons(l[0], l[1..]);
      RemoveFacts(l[1..], o);
      OffersMembers(l[1..]);
      if l[0].offer != o {
        Cons(l[0], RemoveOffer(l[1..], o));
      }
    }
  }

  lemma RemoveList(bid: map<Id, Value>, ask: map<Id, Value>, p: (Id, Id), l: seq<Entry>, o: Id)
    requires OffersOk(bid, ask) && ListOk(bid, ask, p, l) && o in bid
    ensures OffersOk(bid - {o}, ask - {o})
    ensures ListOk(bid - {o}, ask - {o}, p, RemoveOffer(l, o))
    ensures Pair(bid, ask, o) != p ==> ListOk(bid - {o}, ask - {o}, p, l)
  {
    hide Sorted, NoRepeats, OffersIn, RemoveOffer;
    RemoveFacts(l, o);
    OffersMembers(l);
  }

  lemma HasList(bid: map<Id, Value>, ask: map<Id, Value>, index: map<(Id, Id), seq<Entry>>, o: Id)
    requires IndexOk(bid, ask, index) && o in bid
    ensures o in OffersIn(At(index, Pair(bid, ask, o)))
  {
    assert ListOk(bid, ask, Pair(bid, ask, o), At(index, Pair(bid, ask, o)));
  }

  /** Destroying an offer keeps the index in agreement. */
  lemma IndexRemove(bid: map<Id, Value>, ask: map<Id, Value>, index: map<(Id, Id), seq<Entry>>, o: Id)
    requires IndexOk(bid, ask, index) && o in bid
    ensures
      var p := Pair(bid, ask, o);
      At(index, p) != [] && IndexOk(bid - {o}, ask - {o}, index[p := RemoveOffer(At(index, p), o)])
  {
    hide ListOk, RemoveOffer;
    var p := Pair(bid, ask, o);
    HasList(bid, ask, index, o);
    RemoveList(bid, ask, p, At(index, p), o);
    var index' := index[p := RemoveOffer(At(index, p), o)];
    forall q: (Id, Id)
      ensures ListOk(bid - {o}, ask - {o}, q, At(index', q))
    {
      if q != p {
        assert At(index', q) == At(index, q);
        RemoveList(bid, ask, q, At(index, q), o);
      }
    }
  }

  /** Scaling both sides of an offer by the same factor keeps its ratio, so the index need not be
      written again. */
  lemma IndexScale(bid: map<Id, Value>, ask: map<Id, Value>, index: map<(Id, Id), seq<Entry>>, o: Id, b: Value,
                   a: Value)
    requires IndexOk(bid, ask, index) && o in bid
    requires b.denom == bid[o].denom && a.denom == ask[o].denom && b.quant > 0.0 && a.quant > 0.0
    requires a.quant / b.quant == Ratio(bid, ask, o)
    ensures IndexOk(bid[o := b], ask[o := a], index)
  {
    var bid', ask' := bid[o := b], ask[o := a];
    assert OffersOk(bid', ask');
    forall p: (Id, Id)
      ensures ListOk(bid', ask', p, At(index, p))
    {
      var l := At(index, p);
      assert ListOk(bid, ask, p, l);
      forall x ensures x in OffersIn(l) <==> x in bid' && Pair(bid', ask', x) == p {
        assert x in bid ==> Pair(bid', ask', x) == Pair(bid, ask, x);
      }
    }
  }

  // ---------- reverse indexes ----------

  predicate Unrepeated(l: seq<Id>) { forall i, j :: 0 <= i < j < |l| ==> l[i] != l[j] }

  /** The issuer table and the per-account lists say the same, both ways. */
  ghost predicate ReverseOk(issuer: map<Id, Id>, lists: map<Id, seq<Id>>) {
    && (forall a: Id, x: Id :: x in At(lists, a) <==> x in issuer && issuer[x] == a)
    && (forall a: Id :: Unrepeated(At(lists, a)))
  }

  /** One list of a reverse index replaced: the others stay. */
  lemma AtPut(lists: map<Id, seq<Id>>, a: Id, l: seq<Id>, b: Id)
    ensures At(lists[a := l], b) == if b == a then l else At(lists, b)
  {}

  lemma UnrepeatedMore(l: seq<Id>, x: Id)
    requires Unrepeated(l) && x !in l
    ensures Unrepeated(l + [x]) && Unrepeated([x] + l)
    ensures forall y :: (y in l + [x] <==> y in l || y == x) && (y in [x] + l <==> y in l || y == x)
  {}

  /** A list put in place of the one of a, with x as its only new member. */
  lemma ReversePut(issuer: map<Id, Id>, lists: map<Id, seq<Id>>, x: Id, a: Id, l: seq<Id>)
    requires ReverseOk(issuer, lists) && x !in issuer
    requires Unrepeated(l) && forall y :: y in l <==> y in At(lists, a) || y == x
    ensures ReverseOk(issuer[x := a], lists[a := l])
  {
    hide At, Unrepeated;
    var issuer', lists' := issuer[x := a], lists[a := l];
    forall b: Id ensures Unrepeated(At(lists', b)) {
      AtPut(lists, a, l, b);
    }
    forall b: Id, y: Id
      ensures y in At(lists', b) <==> y in issuer' && issuer'[y] == b
    {
      AtPut(lists, a, l, b);
    }
  }

  lemma ReverseAddLast(issuer: map<Id, Id>, lists: map<Id, seq<Id>>, x: Id, a: Id)
    requires ReverseOk(issuer, lists) && x !in issuer
    ensures ReverseOk(issuer[x := a], AddLast(lists, a, x))
  {
    var l := At(lists, a);
    assert x !in l && Unrepeated(l);
    hide ReverseOk, At, Unrepeated;
    UnrepeatedMore(l, x);
    ReversePut(issuer, lists, x, a, l + [x]);
  }

  lemma ReverseAddFirst(issuer: map<Id, Id>, lists: map<Id, seq<Id>>, x: Id, a: Id)
    requires ReverseOk(issuer, lists) && x !in issuer
    ensures ReverseOk(issuer[x := a], AddFirst(lists, a, x))
  {
    var l := At(lists, a);
    assert x !in l && Unrepeated(l);
    hide ReverseOk, At, Unrepeated;
    UnrepeatedMore(l, x);
    ReversePut(issuer, lists, x, a, [x] + l);
  }

  lemma {:induction false} WithoutFacts(l: seq<Id>, x: Id)
    requires Unrepeated(l)
    ensures Unrepeated(Without(l, x))
    ensures forall y :: y in Without(l, x) <==> y in l && y != x
    decreases |l|
  {
    if l == [] {
    } else {
      WithoutFacts(l[1..], x);
      assert l == [l[0]] + l[1..];
      assert l[0] !in l[1..];
      if l[0] != x {
        var r := Without(l[1..], x);
        assert forall y :: y in [l[0]] + r <==> y == l[0] || y in r;
      }
    }
  }

  lemma ReverseDrop(issuer: map<Id, Id>, lists: map<Id, seq<Id>>, x: Id)
    requires ReverseOk(issuer, lists) && x in issuer
    ensures ReverseOk(issuer - {x}, Drop(lists, issuer[x], x))
  {
    var a := issuer[x];
    assert x in At(lists, a);
    WithoutFacts(lists[a], x);
    var lists' := Drop(lists, a, x);
    assert forall b: Id :: At(lists', b) == if b == a then Without(lists[a], x) else At(lists, b);
  }

  // ---------- the whole database ----------

  ghost predicate OffersInv(t: Offers) {
    && IndexOk(t.bid, t.ask, t.index)
    && t.issuer.Keys == t.bid.Keys
    && ReverseOk(t.issuer, t.acctOffer)
  }

  /** Notes hold positive quantities, and only existing notes hold any. */
  ghost predicate NotesInv(t: Notes) {
    && ReverseOk(t.issuer, t.acctNote)
    && forall k :: k in t.value ==> k.0 in t.issuer && t.value[k] > 0.0
  }

  /** The log replays to exactly the stored balances, and no balance of zero is stored. */
  ghost predicate JournalOk(value: map<Key, real>, events: seq<Event>) {
    value == Replay(events) && forall k :: k in value ==> value[k] != 0.0
  }

  ghost predicate Inv(db: Db) {
    OffersInv(db.offers) && NotesInv(db.notes) && JournalOk(db.accts.value, db.events)
  }

  lemma JournalStep(value: map<Key, real>, events: seq<Event>, e: Event)
    requires JournalOk(value, events)
    ensures
      var value' :=
        match e
        case CreditEvent(a, v) => Add(value, a, v)
        case DebitEvent(a, v) => Subtract(value, a, v)
        case AcctDestroyEvent(a) => Others(value, a)
        case _ => value;
      JournalOk(value', events + [e])
  {
    var es := events + [e];
    assert es[..|es| - 1] == events && es[|es| - 1] == e;
  }

  lemma InvCredit(db: Db, a: Id, v: Value)
    requires Inv(db)
    ensures Inv(Credit(db, a, v))
  {
    hide OffersInv, NotesInv, JournalOk, Add;
    JournalStep(db.accts.value, db.events, CreditEvent(a, v));
  }

  lemma InvDebit(db: Db, a: Id, v: Value)
    requires Inv(db)
    ensures Inv(DebitForced(db, a, v))
  {
    hide OffersInv, NotesInv, JournalOk, Subtract;
    JournalStep(db.accts.value, db.events, DebitEvent(a, v));
  }

  lemma {:induction false} InvCreditAll(db: Db, a: Id, vl: seq<Value>)
    requires Inv(db)
    ensures Inv(CreditAll(db, a, vl))
    decreases |vl|
  {
    hide Inv, Credit;
    if vl == [] {
    } else {
      InvCredit(db, a, vl[0]);
      InvCreditAll(Credit(db, a, vl[0]), a, vl[1..]);
    }
  }

  lemma {:induction false} InvDebitAll(db: Db, a: Id, vl: seq<Value>)
    requires Inv(db)
    ensures Inv(DebitForcedAll(db, a, vl))
    decreases |vl|
  {
    hide Inv, DebitForced;
    if vl == [] {
    } else {
      InvDebit(db, a, vl[0]);
      InvDebitAll(DebitForced(db, a, vl[0]), a, vl[1..]);
    }
  }

  /** Events that do not touch balances. */
  predicate Silent(e: Event) { !e.CreditEvent? && !e.DebitEvent? && !e.AcctDestroyEvent? }

  lemma InvLogged(db: Db, e: Event)
    requires Inv(db) && Silent(e)
    ensures Inv(Logged(db, e))
  {
    hide OffersInv, NotesInv, JournalOk;
    JournalStep(db.accts.value, db.events, e);
  }

  lemma NotesSetIssuer(t: Notes, n: Id, a: Id)
    requires NotesInv(t) && n !in t.issuer
    ensures NotesInv(SetNoteIssuer(t, n, a))
  {
    hide ReverseOk, AddLast;
    ReverseAddLast(t.issuer, t.acctNote, n, a);
  }

  lemma NotesSetValue(t: Notes, n: Id, v: Value)
    requires NotesInv(t) && n in t.issuer && v.quant > 0.0
    ensures NotesInv(t.(value := t.value[(n, v.denom) := v.quant]))
  {
    hide ReverseOk;
  }

  lemma NotesBurn(t: Notes, n: Id)
    requires NotesInv(t)
    ensures NotesInv(Burn(t, n))
  {
    hide ReverseOk, Drop;
    if n in t.issuer { ReverseDrop(t.issuer, t.acctNote, n); }
  }

  lemma InvDestroyNote(db: Db, n: Id)
    requires Inv(db)
    ensures Inv(DestroyNote(db, n))
  {
    hide OffersInv, NotesInv, JournalOk, Burn;
    InvLogged(db, NoteDestroyEvent(n));
    NotesBurn(db.notes, n);
  }

  lemma {:induction false} InvDestroyNotes(db: Db, ns: seq<Id>)
    requires Inv(db)
    ensures Inv(DestroyNotes(db, ns))
    decreases |ns|
  {
    hide Inv, DestroyNote;
    if ns == [] {
    } else {
      InvDestroyNote(db, ns[0]);
      InvDestroyNotes(DestroyNote(db, ns[0]), ns[1..]);
    }
  }

  /** The balances do not matter to the destruction of notes. */
  lemma {:induction false} DestroyNotesFrame(db: Db, ns: seq<Id>, accts: Accts)
    ensures DestroyNotes(db.(accts := accts), ns) == DestroyNotes(db, ns).(accts := accts)
    ensures DestroyNotes(db, ns).accts == db.accts && DestroyNotes(db, ns).offers == db.offers
    decreases |ns|
  {
    hide Burn;
    if ns == [] {
    } else {
      DestroyNotesFrame(DestroyNote(db, ns[0]), ns[1..], accts);
      assert DestroyNote(db.(accts := accts), ns[0]) == DestroyNote(db, ns[0]).(accts := accts);
    }
  }

  lemma InvDestroyAcct(db: Db, a: Id)
    requires Inv(db)
    ensures Inv(DestroyAcct(db, a))
  {
    hide OffersInv, NotesInv, JournalOk, DestroyNotes, Others;
    var t := db.accts;
    var cleared := t.(value := Others(t.value, a), public := t.public - {a}, secret := t.secret - {a},
                      modulus := t.modulus - {a}, flags := t.flags - {a});
    var db1 := Logged(db, AcctDestroyEvent(a));
    JournalStep(db.accts.value, db.events, AcctDestroyEvent(a));
    var ns := Reverse(At(db.notes.acctNote, a));
    InvDestroyNotes(db1.(accts := cleared), ns);
    DestroyNotesFrame(db1, ns, cleared);
  }

  lemma HasOffers(t: Offers)
    requires OffersInv(t)
    ensures OffersOk(t.bid, t.ask)
  {}

  lemma OffersUnlist(t: Offers, o: Id)
    requires OffersInv(t)
    ensures OffersInv(Unlist(t, o))
    ensures Unlist(t, o).bid == t.bid - {o} && Unlist(t, o).ask == t.ask - {o}
  {
    hide IndexOk, ReverseOk, Drop, RemoveOffer;
    HasOffers(t);
    if o in t.bid {
      IndexRemove(t.bid, t.ask, t.index, o);
      ReverseDrop(t.issuer, t.acctOffer, o);
    } else {
      assert t.bid - {o} == t.bid && t.ask - {o} == t.ask;
    }
  }

  lemma InvDestroyOffer(db: Db, o: Id)
    requires Inv(db)
    ensures Inv(DestroyOffer(db, o))
  {
    hide OffersInv, NotesInv, JournalOk, Unlist;
    InvLogged(db, OfferDestroyEvent(o));
    OffersUnlist(db.offers, o);
  }

  /** A new offer with all its tables. */
  function List(t: Offers, o: Id, a: Id, ask: Value, bid: Value, skip: nat): Offers
    requires bid.quant != 0.0
  {
    var t1 := SetOfferIssuer(t, o, a);
    var t2 := t1.(bid := t1.bid[o := bid]);
    var t3 := t2.(ask := t2.ask[o := ask]);
    SetIndex(t3, o, ask.denom, bid.denom, ask.quant / bid.quant, skip)
  }

  lemma OffersList(t: Offers, o: Id, a: Id, ask: Value, bid: Value, skip: nat)
    requires OffersInv(t) && o !in t.issuer
    requires ask.quant > 0.0 && bid.quant > 0.0 && ask.denom != bid.denom
    ensures OffersInv(List(t, o, a, ask, bid, skip))
  {
    hide IndexOk, ReverseOk, AddFirst, Insert;
    ReverseAddFirst(t.issuer, t.acctOffer, o, a);
    IndexInsert(t.bid, t.ask, t.index, o, bid, ask, skip);
  }
}
