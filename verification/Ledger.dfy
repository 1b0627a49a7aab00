/** The tables of the server and what the operations on accounts, notes, offers and events do to them
    (bom/acct.cc, bom/note.cc, bom/offer.cc, bom/event.cc). Quantities are exact; every table is a map;
    a table with duplicates is a map to lists. */
module Ledger {
  import opened Portfolio
  import opened Sums
  import KeyScan

  type Key = KeyScan.Key

  datatype Flags = Flags(super: bool, issuer: bool, txn: bool)

  /** An entry of the offer index. The ratio is written when the offer is created and never again. */
  datatype Entry = Entry(offer: Id, ratio: real)

  datatype Event =
    | CreditEvent(acct: Id, value: Value)
    | DebitEvent(acct: Id, value: Value)
    | AcctDestroyEvent(acct: Id)
    | NoteCreateEvent(note: Id)
    | NoteDestroyEvent(note: Id)
    | OfferCreateEvent(offer: Id)
    | OfferDestroyEvent(offer: Id)
    | OtherEvent

  /** acct_value, acct_flags, acct_public, acct_secret, acct_modulus, denom_issuer. */
  datatype Accts = Accts(
    value: map<Key, real>,
    flags: map<Id, Flags>,
    public: map<Id, int>,
    secret: map<Id, int>,
    modulus: map<Id, int>,
    denomIssuer: map<Id, Id>)

  /** note_issuer, acct_note, note_challenge, note_value. */
  datatype Notes = Notes(
    issuer: map<Id, Id>,
    acctNote: map<Id, seq<Id>>,
    challenge: map<Id, int>,
    value: map<Key, real>)

  /** offer_issuer, acct_offer, offer_bid_value, offer_ask_value, and offer_index, which is keyed by the
      ask and the bid denomination. */
  datatype Offers = Offers(
    issuer: map<Id, Id>,
    acctOffer: map<Id, seq<Id>>,
    bid: map<Id, Value>,
    ask: map<Id, Value>,
    index: map<(Id, Id), seq<Entry>>)

  /** The id of an event is its position in the log. */
  datatype Db = Db(accts: Accts, notes: Notes, offers: Offers, events: seq<Event>)

  // ---------- lists under a key ----------

  function At<K, T>(m: map<K, seq<T>>, k: K): seq<T> { if k in m then m[k] else [] }

  /** The list without the first x. */
  function Without<T(==)>(l: seq<T>, x: T): seq<T> {
    if l == [] then [] else if l[0] == x then l[1..] else [l[0]] + Without(l[1..], x)
  }

  function AddLast(m: map<Id, seq<Id>>, k: Id, x: Id): map<Id, seq<Id>> {
    if x in At(m, k) then m else m[k := At(m, k) + [x]]
  }

  function AddFirst(m: map<Id, seq<Id>>, k: Id, x: Id): map<Id, seq<Id>> {
    if x in At(m, k) then m else m[k := [x] + At(m, k)]
  }

  function Drop(m: map<Id, seq<Id>>, k: Id, x: Id): map<Id, seq<Id>> {
    if x in At(m, k) then m[k := Without(m[k], x)] else m
  }

  // ---------- accounts ----------

  function Balance(db: Db, a: Id, d: Id): real { Get(db.accts.value, (a, d)) }

  /** A balance of zero is not stored. */
  function Store(m: map<Key, real>, k: Key, q: real): map<Key, real> {
    if q == 0.0 then m - {k} else m[k := q]
  }

  function Add(m: map<Key, real>, a: Id, v: Value): map<Key, real> {
    Store(m, (a, v.denom), Get(m, (a, v.denom)) + v.quant)
  }

  function Subtract(m: map<Key, real>, a: Id, v: Value): map<Key, real> {
    Store(m, (a, v.denom), Get(m, (a, v.denom)) - v.quant)
  }

  function Logged(db: Db, e: Event): Db { db.(events := db.events + [e]) }

  function Credit(db: Db, a: Id, v: Value): Db {
    Logged(db.(accts := db.accts.(value := Add(db.accts.value, a, v))), CreditEvent(a, v))
  }

  function DebitForced(db: Db, a: Id, v: Value): Db {
    Logged(db.(accts := db.accts.(value := Subtract(db.accts.value, a, v))), DebitEvent(a, v))
  }

  /** Super accounts and flagged issuers of the denomination may go below zero. */
  predicate Privileged(t: Accts, a: Id, d: Id) {
    a in t.flags &&
    (t.flags[a].super || (t.flags[a].issuer && d in t.denomIssuer && t.denomIssuer[d] == a))
  }

  /** Refused: success stays 0. Failed: a table lookup failed, which ends the transaction. */
  datatype DebitResult = Debited(db: Db) | Refused | Failed

  function Debit(db: Db, a: Id, v: Value): DebitResult {
    var t := db.accts;
    if Balance(db, a, v.denom) - v.quant < 0.0 then
      if a !in t.flags then Failed
      else if t.flags[a].super then Debited(DebitForced(db, a, v))
      else if !t.flags[a].issuer then Refused
      else if v.denom !in t.denomIssuer then Failed
      else if t.denomIssuer[v.denom] != a then Refused
      else Debited(DebitForced(db, a, v))
    else Debited(DebitForced(db, a, v))
  }

  function CreditAll(db: Db, a: Id, vl: seq<Value>): Db
    decreases |vl|
  {
    if vl == [] then db else CreditAll(Credit(db, a, vl[0]), a, vl[1..])
  }

  function DebitForcedAll(db: Db, a: Id, vl: seq<Value>): Db
    decreases |vl|
  {
    if vl == [] then db else DebitForcedAll(DebitForced(db, a, vl[0]), a, vl[1..])
  }

  /** The entries of everybody but id. */
  function Others(m: map<Key, real>, id: Id): map<Key, real> {
    map k | k in m && k.0 != id :: m[k]
  }

  // ---------- notes ----------

  function SetNoteIssuer(t: Notes, n: Id, a: Id): Notes {
    t.(issuer := t.issuer[n := a], acctNote := AddLast(t.acctNote, a, n))
  }

  function DelNoteIssuer(t: Notes, n: Id): Notes {
    if n !in t.issuer then t
    else t.(issuer := t.issuer - {n}, acctNote := Drop(t.acctNote, t.issuer[n], n))
  }

  function Burn(t: Notes, n: Id): Notes {
    var t1 := DelNoteIssuer(t, n);
    t1.(challenge := t1.challenge - {n}, value := Others(t1.value, n))
  }

  function DestroyNote(db: Db, n: Id): Db {
    Logged(db, NoteDestroyEvent(n)).(notes := Burn(db.notes, n))
  }

  function DestroyNotes(db: Db, ns: seq<Id>): Db
    decreases |ns|
  {
    if ns == [] then db else DestroyNotes(DestroyNote(db, ns[0]), ns[1..])
  }

  /** acct::destroy. The note list is read by prepending, so it is walked backwards. Offers stay. */
  function DestroyAcct(db: Db, a: Id): Db {
    var db1 := DestroyNotes(Logged(db, AcctDestroyEvent(a)), Reverse(At(db.notes.acctNote, a)));
    var t := db1.accts;
    db1.(accts := t.(value := Others(t.value, a), public := t.public - {a}, secret := t.secret - {a},
                     modulus := t.modulus - {a}, flags := t.flags - {a}))
  }

  // ---------- offers ----------

  function SetOfferIssuer(t: Offers, o: Id, a: Id): Offers {
    t.(issuer := t.issuer[o := a], acctOffer := AddFirst(t.acctOffer, a, o))
  }

  function DelOfferIssuer(t: Offers, o: Id): Offers {
    if o !in t.issuer then t
    else t.(issuer := t.issuer - {o}, acctOffer := Drop(t.acctOffer, t.issuer[o], o))
  }

  /** Where a new duplicate goes: behind smaller ratios, before larger ones, and behind as many equal
      ones as skip says (the order among equal ratios is left open by the comparator). */
  function Insert(l: seq<Entry>, e: Entry, skip: nat): seq<Entry> {
    if l == [] || e.ratio < l[0].ratio || (e.ratio == l[0].ratio && skip == 0) then [e] + l
    else [l[0]] + Insert(l[1..], e, if e.ratio == l[0].ratio then skip - 1 else skip)
  }

  function SetIndex(t: Offers, o: Id, ask: Id, bid: Id, ratio: real, skip: nat): Offers {
    t.(index := t.index[(ask, bid) := Insert(At(t.index, (ask, bid)), Entry(o, ratio), skip)])
  }

  /** The list without the first entry of offer o. */
  function RemoveOffer(l: seq<Entry>, o: Id): seq<Entry> {
    if l == [] then [] else if l[0].offer == o then l[1..] else [l[0]] + RemoveOffer(l[1..], o)
  }

  function DelIndex(t: Offers, o: Id, ask: Id, bid: Id): Offers {
    if At(t.index, (ask, bid)) == [] then t
    else t.(index := t.index[(ask, bid) := RemoveOffer(At(t.index, (ask, bid)), o)])
  }

  function Unlist(t: Offers, o: Id): Offers {
    if o !in t.ask || o !in t.bid then t
    else
      var t1 := DelOfferIssuer(t.(bid := t.bid - {o}, ask := t.ask - {o}), o);
      DelIndex(t1, o, t.ask[o].denom, t.bid[o].denom)
  }

  /** offer::destroy. The event is written even when there is no such offer. */
  function DestroyOffer(db: Db, o: Id): Db {
    Logged(db, OfferDestroyEvent(o)).(offers := Unlist(db.offers, o))
  }

  // ---------- the journal ----------

  /** Reading the log forwards: credits add, debits subtract, a destroyed account is cleared. */
  function Replay(events: seq<Event>): map<Key, real>
    decreases |events|
  {
    if events == [] then map[]
    else
      var m := Replay(events[..|events| - 1]);
      match events[|events| - 1]
      case CreditEvent(a, v) => Add(m, a, v)
      case DebitEvent(a, v) => Subtract(m, a, v)
      case AcctDestroyEvent(a) => Others(m, a)
      case _ => m
  }

  // ---------- supply ----------

  /** The entries of one denomination. */
  ghost function Part(m: map<Key, real>, d: Id): map<Key, real> {
    map k | k in m && k.1 == d :: m[k]
  }

  ghost function Bids(bid: map<Id, Value>, d: Id): map<Id, real> {
    map o | o in bid && bid[o].denom == d :: bid[o].quant
  }

  /** All there is of a denomination: in accounts, in notes, and held by offers. */
  ghost function Supply(db: Db, d: Id): real {
    Sum(Part(db.accts.value, d)) + Sum(Part(db.notes.value, d)) + Sum(Bids(db.offers.bid, d))
  }
}
