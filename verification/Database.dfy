/** The tables as they are updated in place: the methods of bom/acct.cc, bom/note.cc, bom/offer.cc and
    bom/event.cc, each proved against what Ledger says it does. */
module Database {
  import opened Text
  import opened Portfolio
  import opened Ledger
  import opened Invariants
  import KeyScan
  import M = Market

  datatype Status = Success | Refusal | Failure

  class Tables {
    var acctValue: map<Key, real>
    var acctFlags: map<Id, Flags>
    var acctPublic: map<Id, int>
    var acctSecret: map<Id, int>
    var acctModulus: map<Id, int>
    var denomIssuer: map<Id, Id>
    var noteIssuer: map<Id, Id>
    var acctNote: map<Id, seq<Id>>
    var noteChallenge: map<Id, int>
    var noteValue: map<Key, real>
    var offerIssuer: map<Id, Id>
    var acctOffer: map<Id, seq<Id>>
    var offerBid: map<Id, Value>
    var offerAsk: map<Id, Value>
    var offerIndex: map<(Id, Id), seq<Entry>>
    var events: seq<Event>

    function AcctTables(): Accts
      reads `acctValue, `acctFlags, `acctPublic, `acctSecret, `acctModulus, `denomIssuer
    {
      Accts(acctValue, acctFlags, acctPublic, acctSecret, acctModulus, denomIssuer)
    }

    function NoteTables(): Notes
      reads `noteIssuer, `acctNote, `noteChallenge, `noteValue
    {
      Notes(noteIssuer, acctNote, noteChallenge, noteValue)
    }

    function OfferTables(): Offers
      reads `offerIssuer, `acctOffer, `offerBid, `offerAsk, `offerIndex
    {
      Offers(offerIssuer, acctOffer, offerBid, offerAsk, offerIndex)
    }

    function View(): Db
      reads this
    {
      Db(AcctTables(), NoteTables(), OfferTables(), events)
    }

    method RestoreAccts(t: Accts)
      modifies `acctValue, `acctFlags, `acctPublic, `acctSecret, `acctModulus, `denomIssuer
      ensures AcctTables() == t
    {
      acctValue, acctFlags, acctPublic := t.value, t.flags, t.public;
      acctSecret, acctModulus, denomIssuer := t.secret, t.modulus, t.denomIssuer;
    }

    method RestoreNotes(t: Notes)
      modifies `noteIssuer, `acctNote, `noteChallenge, `noteValue
      ensures NoteTables() == t
    {
      noteIssuer, acctNote, noteChallenge, noteValue := t.issuer, t.acctNote, t.challenge, t.value;
    }

    method RestoreOffers(t: Offers)
      modifies `offerIssuer, `acctOffer, `offerBid, `offerAsk, `offerIndex
      ensures OfferTables() == t
    {
      offerIssuer, acctOffer, offerBid, offerAsk, offerIndex := t.issuer, t.acctOffer, t.bid, t.ask, t.index;
    }

    /** txn_abort: the tables as they were. */
    method Restore(db: Db)
      modifies this
      ensures View() == db
    {
      hide AcctTables, NoteTables, OfferTables;
      RestoreAccts(db.accts);
      RestoreNotes(db.notes);
      RestoreOffers(db.offers);
      events := db.events;
    }

    // ---------- events ----------

    /** event::gen_id and the writes under the new id: ids are record numbers, counted from 1. */
    method NewEvent(e: Event) returns (id: nat)
      modifies `events
      ensures View() == Logged(old(View()), e)
      ensures id == |old(events)| + 1 == |events| && events[id - 1] == e
    {
      events := events + [e];
      id := |events|;
    }

    // ---------- accounts ----------

    method GetValue(a: Id, d: Id) returns (q: real)
      ensures q == Balance(View(), a, d)
    {
      q := if (a, d) in acctValue then acctValue[(a, d)] else 0.0;
    }

    method PutValue(a: Id, d: Id, q: real)
      modifies `acctValue
      ensures acctValue == Store(old(acctValue), (a, d), q)
    {
      if q == 0.0 {
        acctValue := acctValue - {(a, d)};
      } else {
        acctValue := acctValue[(a, d) := q];
      }
    }

    method Credit(a: Id, v: Value)
      modifies `acctValue, `events
      ensures View() == Ledger.Credit(old(View()), a, v)
    {
      var q := GetValue(a, v.denom);
      PutValue(a, v.denom, q + v.quant);
      var _ := NewEvent(CreditEvent(a, v));
    }

    method DebitForced(a: Id, v: Value)
      modifies `acctValue, `events
      ensures View() == Ledger.DebitForced(old(View()), a, v)
    {
      var q := GetValue(a, v.denom);
      PutValue(a, v.denom, q - v.quant);
      var _ := NewEvent(DebitEvent(a, v));
    }

    method Debit(a: Id, v: Value) returns (r: Status)
      modifies `acctValue, `events
      ensures
        match Ledger.Debit(old(View()), a, v)
        case Debited(db) => r == Success && View() == db
        case Refused => r == Refusal && View() == old(View())
        case Failed => r == Failure && View() == old(View())
    {
      var q := GetValue(a, v.denom);
      q := q - v.quant;
      if q < 0.0 {
        if a !in acctFlags { return Failure; }
        if !acctFlags[a].super {
          if !acctFlags[a].issuer { return Refusal; }
          if v.denom !in denomIssuer { return Failure; }
          if denomIssuer[v.denom] != a { return Refusal; }
        }
      }
      PutValue(a, v.denom, q);
      var _ := NewEvent(DebitEvent(a, v));
      r := Success;
    }

    method CreditEach(a: Id, vl: seq<Value>)
      modifies `acctValue, `events
      ensures View() == CreditAll(old(View()), a, vl)
    {
      var i := 0;
      while i < |vl|
        invariant i <= |vl|
        invariant CreditAll(View(), a, vl[i..]) == CreditAll(old(View()), a, vl)
      {
        assert vl[i..][1..] == vl[i + 1..];
        Credit(a, vl[i]);
        i := i + 1;
      }
    }

    method DebitForcedEach(a: Id, vl: seq<Value>)
      modifies `acctValue, `events
      ensures View() == DebitForcedAll(old(View()), a, vl)
    {
      var i := 0;
      while i < |vl|
        invariant i <= |vl|
        invariant DebitForcedAll(View(), a, vl[i..]) == DebitForcedAll(old(View()), a, vl)
      {
        assert vl[i..][1..] == vl[i + 1..];
        DebitForced(a, vl[i]);
        i := i + 1;
      }
    }

    /** acct::get_note_list prepends while the cursor moves forward. */
    method GetNoteList(a: Id) returns (nl: seq<Id>)
      ensures nl == Reverse(At(acctNote, a))
    {
      nl := [];
      if a !in acctNote { return; }
      var i := 0;
      while i < |acctNote[a]|
        invariant i <= |acctNote[a]|
        invariant nl == Reverse(acctNote[a][..i])
      {
        assert acctNote[a][..i + 1] == acctNote[a][..i] + [acctNote[a][i]];
        ReverseSnoc(acctNote[a][..i], acctNote[a][i]);
        nl := [acctNote[a][i]] + nl;
        i := i + 1;
      }
      assert acctNote[a][..i] == acctNote[a];
    }

    method DelNoteList(a: Id)
      modifies this
      ensures View() == DestroyNotes(old(View()), Reverse(At(old(acctNote), a)))
    {
      var nl := GetNoteList(a);
      var i := 0;
      while i < |nl|
        invariant i <= |nl|
        invariant DestroyNotes(View(), nl[i..]) == DestroyNotes(old(View()), nl)
      {
        assert nl[i..][1..] == nl[i + 1..];
        DestroyNote(nl[i]);
        i := i + 1;
      }
    }

    /** The deletions of acct::destroy behind the list of notes. */
    method ClearAcct(a: Id)
      modifies `acctValue, `acctFlags, `acctPublic, `acctSecret, `acctModulus
      ensures
        var t := old(AcctTables());
        AcctTables() == t.(value := Others(t.value, a), public := t.public - {a}, secret := t.secret - {a},
                           modulus := t.modulus - {a}, flags := t.flags - {a})
    {
      acctValue := KeyScan.DelPortfolio(acctValue, a);
      acctPublic := acctPublic - {a};
      acctSecret := acctSecret - {a};
      acctModulus := acctModulus - {a};
      acctFlags := acctFlags - {a};
    }

    method DestroyAcct(a: Id)
      modifies this
      ensures View() == Ledger.DestroyAcct(old(View()), a)
    {
      hide DestroyNotes, Others, OfferTables;
      var _ := NewEvent(AcctDestroyEvent(a));
      DelNoteList(a);
      ClearAcct(a);
    }

    // ---------- notes ----------

    method SetNoteIssuer(n: Id, a: Id)
      modifies `noteIssuer, `acctNote
      ensures View() == old(View()).(notes := Ledger.SetNoteIssuer(old(View()).notes, n, a))
    {
      noteIssuer := noteIssuer[n := a];
      if n in At(acctNote, a) { return; }
      acctNote := acctNote[a := At(acctNote, a) + [n]];
    }

    method DelNoteIssuer(n: Id)
      modifies `noteIssuer, `acctNote
      ensures View() == old(View()).(notes := Ledger.DelNoteIssuer(old(View()).notes, n))
    {
      if n !in noteIssuer { return; }
      var a := noteIssuer[n];
      noteIssuer := noteIssuer - {n};
      if n !in At(acctNote, a) { return; }
      acctNote := acctNote[a := Without(acctNote[a], n)];
    }

    method SetNoteValue(n: Id, v: Value)
      modifies `noteValue
      ensures noteValue == old(noteValue)[(n, v.denom) := v.quant]
    {
      noteValue := noteValue[(n, v.denom) := v.quant];
    }

    /** The deletions of note::destroy behind the issuer. */
    method ClearNote(n: Id)
      modifies `noteChallenge, `noteValue
      ensures
        var t := old(NoteTables());
        NoteTables() == t.(challenge := t.challenge - {n}, value := Others(t.value, n))
    {
      noteChallenge := noteChallenge - {n};
      noteValue := KeyScan.DelPortfolio(noteValue, n);
    }

    method DestroyNote(n: Id)
      modifies `events, `noteIssuer, `acctNote, `noteChallenge, `noteValue
      ensures View() == Ledger.DestroyNote(old(View()), n)
    {
      hide Others, Ledger.DelNoteIssuer, AcctTables, OfferTables;
      var _ := NewEvent(NoteDestroyEvent(n));
      DelNoteIssuer(n);
      ClearNote(n);
    }

    // ---------- offers ----------

    method SetOfferIssuer(o: Id, a: Id)
      modifies `offerIssuer, `acctOffer
      ensures View() == old(View()).(offers := Ledger.SetOfferIssuer(old(View()).offers, o, a))
    {
      offerIssuer := offerIssuer[o := a];
      if o in At(acctOffer, a) { return; }
      acctOffer := acctOffer[a := [o] + At(acctOffer, a)];
    }

    method DelOfferIssuer(o: Id)
      modifies `offerIssuer, `acctOffer
      ensures View() == old(View()).(offers := Ledger.DelOfferIssuer(old(View()).offers, o))
    {
      if o !in offerIssuer { return; }
      var a := offerIssuer[o];
      offerIssuer := offerIssuer - {o};
      if o !in At(acctOffer, a) { return; }
      acctOffer := acctOffer[a := Without(acctOffer[a], o)];
    }

    /** offer::set_index. The table puts the entry where its comparator says. */
    method SetIndex(o: Id, ask: Value, bid: Value, skip: nat) returns (r: Status)
      modifies `offerIndex
      ensures bid.quant == 0.0 ==> r == Failure && View() == old(View())
      ensures bid.quant != 0.0 ==> (
        && r == Success
        && View() == old(View()).(offers := Ledger.SetIndex(old(View()).offers, o, ask.denom, bid.denom,
                                                            ask.quant / bid.quant, skip)))
    {
      if bid.quant == 0.0 { return Failure; }
      var key := (ask.denom, bid.denom);
      offerIndex := offerIndex[key := Insert(At(offerIndex, key), Entry(o, ask.quant / bid.quant), skip)];
      r := Success;
    }

    /** offer::del_index: a cursor looks for the entry of this offer. */
    method DelIndex(o: Id, ask: Id, bid: Id)
      modifies `offerIndex
      ensures View() == old(View()).(offers := Ledger.DelIndex(old(View()).offers, o, ask, bid))
    {
      var l := At(offerIndex, (ask, bid));
      if l == [] { return; }
      var i := 0;
      while i < |l| && l[i].offer != o
        invariant i <= |l|
        invariant forall j :: 0 <= j < i ==> l[j].offer != o
      {
        i := i + 1;
      }
      RemoveAt(l, o, i);
      if i == |l| {
        assert offerIndex == offerIndex[(ask, bid) := l];
        return;
      }
      offerIndex := offerIndex[(ask, bid) := l[..i] + l[i + 1..]];
    }

    method DelValues(o: Id)
      modifies `offerBid, `offerAsk
      ensures
        var t := old(OfferTables());
        OfferTables() == t.(bid := t.bid - {o}, ask := t.ask - {o})
    {
      offerBid := offerBid - {o};
      offerAsk := offerAsk - {o};
    }

    method DestroyOffer(o: Id)
      modifies `events, `offerIssuer, `acctOffer, `offerBid, `offerAsk, `offerIndex
      ensures View() == Ledger.DestroyOffer(old(View()), o)
    {
      hide Ledger.DelOfferIssuer, Ledger.DelIndex, AcctTables, NoteTables;
      var _ := NewEvent(OfferDestroyEvent(o));
      if o !in offerAsk { return; }
      var ask := offerAsk[o];
      if o !in offerBid { return; }
      var bid := offerBid[o];
      assert ask == OfferTables().ask[o] && bid == OfferTables().bid[o];
      hide OfferTables;
      DelValues(o);
      DelOfferIssuer(o);
      DelIndex(o, ask.denom, bid.denom);
    }

    /** find_best_offer: the first duplicate, which is a live offer of least ratio, or there is no live
        offer of the pair. */
    method FindBestOffer(ask: Id, bid: Id) returns (e: Option<Entry>)
      ensures e == M.Best(OfferTables(), ask, bid)
      ensures OffersInv(OfferTables()) ==> M.IsBest(OfferTables(), ask, bid, e)
    {
      if OffersInv(OfferTables()) { M.FoundIsBest(OfferTables(), ask, bid); }
      hide OffersInv, M.IsBest;
      var l := At(offerIndex, (ask, bid));
      if l == [] { return None; }
      e := Some(l[0]);
    }

    /** find_all_offers prepends while the cursor moves forward. */
    method FindAllOffers(ask: Id, bid: Id) returns (ol: seq<Id>)
      ensures ol == Reverse(OfferIds(At(offerIndex, (ask, bid))))
    {
      var l := At(offerIndex, (ask, bid));
      ol := [];
      var i := 0;
      while i < |l|
        invariant i <= |l|
        invariant ol == Reverse(OfferIds(l[..i]))
      {
        assert l[..i + 1] == l[..i] + [l[i]];
        assert OfferIds(l[..i + 1]) == OfferIds(l[..i]) + [l[i].offer];
        ReverseSnoc(OfferIds(l[..i]), l[i].offer);
        ol := [l[i].offer] + ol;
        i := i + 1;
      }
      assert l[..i] == l;
    }
  }

  function OfferIds(l: seq<Entry>): seq<Id> { seq(|l|, i requires 0 <= i < |l| => l[i].offer) }

  lemma {:induction false} RemoveAt(l: seq<Entry>, o: Id, i: nat)
    requires i <= |l| && (forall j :: 0 <= j < i ==> l[j].offer != o) && (i < |l| ==> l[i].offer == o)
    ensures RemoveOffer(l, o) == if i == |l| then l else l[..i] + l[i + 1..]
    decreases i
  {
    if l == [] {
    } else {
      assert l == [l[0]] + l[1..];
      if i > 0 { RemoveAt(l[1..], o, i - 1); }
    }
  }
}
