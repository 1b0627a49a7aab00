/** bif/trader.cc: matching the best offers of a pair of denominations against each other until they no
    longer cross. */
module Market {
  import opened Text
  import opened Portfolio
  import opened Ledger
  import opened Invariants
  import opened Conservation

  // ---------- the arithmetic of one trade ----------

  /** The fractions of the two offers that are filled. */
  function Thetas(b0: real, a0: real, b1: real, a1: real): (real, real)
    requires a0 > 0.0 && a1 > 0.0
  {
    if b0 < a1 then (1.0, b0 / a1)
    else if b1 < a0 then (b1 / a0, 1.0)
    else (1.0, 1.0)
  }

  lemma CrossProduct(b0: real, a0: real, b1: real, a1: real)
    requires b0 > 0.0 && a0 > 0.0 && b1 > 0.0 && a1 > 0.0
    requires (a0 / b0) * (a1 / b1) <= 1.0
    ensures a0 * a1 <= b0 * b1
  {
    var r0, r1 := a0 / b0, a1 / b1;
    assert a0 == r0 * b0 && a1 == r1 * b1;
    assert a0 * a1 == (r0 * r1) * (b0 * b1);
    Scale(r0 * r1, 1.0, b0 * b1);
  }

  lemma Scale(x: real, y: real, f: real)
    requires x <= y && f >= 0.0
    ensures x * f <= y * f
  {}

  lemma Unscale(x: real, y: real, f: real)
    requires x * f <= y * f && f > 0.0
    ensures x <= y
  {}

  /** In all three cases: at least one side is filled in full and nothing is overfilled; what one side
      receives is at most what the other gives, in both denominations, and one of the two gaps closes
      unless both sides are filled; each side trades at its own ratio. */
  lemma TradeIsFair(b0: real, a0: real, b1: real, a1: real)
    requires b0 > 0.0 && a0 > 0.0 && b1 > 0.0 && a1 > 0.0
    requires (a0 / b0) * (a1 / b1) <= 1.0
    ensures
      var (t0, t1) := Thetas(b0, a0, b1, a1);
      && 0.0 < t0 <= 1.0 && 0.0 < t1 <= 1.0 && (t0 == 1.0 || t1 == 1.0)
      && a0 * t0 <= b1 * t1 && a1 * t1 <= b0 * t0
      && (t1 < 1.0 ==> a1 * t1 == b0 * t0)
      && (t0 < 1.0 ==> a0 * t0 == b1 * t1)
      && (a0 * t0) * b0 == a0 * (b0 * t0) && (a1 * t1) * b1 == a1 * (b1 * t1)
  {
    CrossProduct(b0, a0, b1, a1);
    var (t0, t1) := Thetas(b0, a0, b1, a1);
    if b0 < a1 {
      PartialFill(b0, a0, b1, a1);
    } else if b1 < a0 {
      PartialFill(b1, a1, b0, a0);
    }
    assert (a0 * t0) * b0 == a0 * (b0 * t0);
    assert (a1 * t1) * b1 == a1 * (b1 * t1);
  }

  /** The first side is filled, the second in part. */
  lemma PartialFill(b0: real, a0: real, b1: real, a1: real)
    requires b0 > 0.0 && a0 > 0.0 && b1 > 0.0 && a1 > 0.0
    requires a0 * a1 <= b0 * b1 && b0 < a1
    ensures 0.0 < b0 / a1 < 1.0
    ensures a1 * (b0 / a1) == b0 && a0 <= b1 * (b0 / a1)
  {
    var t := b0 / a1;
    assert t * a1 == b0;
    if t >= 1.0 { Scale(1.0, t, a1); }
    assert (b1 * t) * a1 == b1 * (t * a1) == b0 * b1;
    Unscale(a0, b1 * t, a1);
  }

  // ---------- one match ----------

  /** The offer at the head of a list, if there is one (find_best_offer). */
  function Best(t: Offers, ask: Id, bid: Id): Option<Entry> {
    if At(t.index, (ask, bid)) == [] then None else Some(At(t.index, (ask, bid))[0])
  }

  /** A live offer asking d0 and bidding d1. */
  predicate Live(t: Offers, o: Id, d0: Id, d1: Id) {
    o in t.bid && o in t.ask && o in t.issuer && t.bid[o].quant > 0.0 && t.ask[o].quant > 0.0
    && Pair(t.bid, t.ask, o) == (d0, d1) && d0 != d1
  }

  function RatioOf(t: Offers, o: Id): real
    requires o in t.bid && o in t.ask && t.bid[o].quant > 0.0
  {
    Ratio(t.bid, t.ask, o)
  }

  lemma BestIsLive(t: Offers, ask: Id, bid: Id)
    requires OffersInv(t) && Best(t, ask, bid).Some?
    ensures
      var e := Best(t, ask, bid).value;
      Live(t, e.offer, ask, bid) && e.ratio == RatioOf(t, e.offer)
  {
    var l := At(t.index, (ask, bid));
    assert ListOk(t.bid, t.ask, (ask, bid), l);
    assert l[0] in l && l[0].offer in OffersIn(l);
  }

  /** find_best_offer finds a true minimum, by the ratios the offers have now. */
  lemma BestIsBest(t: Offers, ask: Id, bid: Id, o: Id)
    requires OffersInv(t) && Live(t, o, ask, bid)
    ensures Best(t, ask, bid).Some? && Best(t, ask, bid).value.ratio <= RatioOf(t, o)
  {
    var l := At(t.index, (ask, bid));
    assert ListOk(t.bid, t.ask, (ask, bid), l);
    assert o in OffersIn(l);
    var i :| 0 <= i < |l| && l[i].offer == o;
    assert l[i] in l;
  }

  /** No live offer of the pair, or a live offer of least ratio, with that ratio. */
  ghost predicate IsBest(t: Offers, ask: Id, bid: Id, e: Option<Entry>) {
    match e
    case None => forall o :: !Live(t, o, ask, bid)
    case Some(x) =>
      && Live(t, x.offer, ask, bid) && x.ratio == RatioOf(t, x.offer)
      && forall o :: Live(t, o, ask, bid) ==> x.ratio <= RatioOf(t, o)
  }

  lemma FoundIsBest(t: Offers, ask: Id, bid: Id)
    requires OffersInv(t)
    ensures IsBest(t, ask, bid, Best(t, ask, bid))
  {
    hide OffersInv, RatioOf, Best;
    if Best(t, ask, bid).Some? { BestIsLive(t, ask, bid); }
    forall o | Live(t, o, ask, bid)
      ensures Best(t, ask, bid).Some? && Best(t, ask, bid).value.ratio <= RatioOf(t, o)
    {
      BestIsBest(t, ask, bid, o);
    }
  }

  /** The fractions to fill of two offers. */
  function ThetasOf(t: Offers, o0: Id, o1: Id): (real, real)
    requires {o0, o1} <= t.bid.Keys && {o0, o1} <= t.ask.Keys && t.ask[o0].quant > 0.0 && t.ask[o1].quant > 0.0
  {
    Thetas(t.bid[o0].quant, t.ask[o0].quant, t.bid[o1].quant, t.ask[o1].quant)
  }

  function Scaled(v: Value, f: real): Value { Value(v.denom, v.quant * f) }

  function Minus(v: Value, w: Value): Value { Value(v.denom, v.quant - w.quant) }

  function SetAsk(db: Db, o: Id, v: Value): Db {
    db.(offers := db.offers.(ask := db.offers.ask[o := v]))
  }

  /** What is left of a bid: nothing destroys the offer. */
  function SettleBid(db: Db, o: Id, left: Value): Db {
    if left.quant == 0.0 then DestroyOffer(db, o)
    else db.(offers := db.offers.(bid := db.offers.bid[o := left]))
  }

  /** The first writes of trader::execute: each issuer is credited and each ask lowered. */
  function Credited(db: Db, o0: Id, o1: Id): Db
    requires Tradable(db.offers, o0, o1)
  {
    var t := db.offers;
    var (t0, t1) := ThetasOf(t, o0, o1);
    var c0, c1 := Scaled(t.ask[o0], t0), Scaled(t.ask[o1], t1);
    var db1 := SetAsk(Credit(db, t.issuer[o0], c0), o0, Minus(t.ask[o0], c0));
    SetAsk(Credit(db1, t.issuer[o1], c1), o1, Minus(t.ask[o1], c1))
  }

  /** All the writes of trader::execute in their order. */
  function Trade(db: Db, o0: Id, o1: Id): Db
    requires Tradable(db.offers, o0, o1)
  {
    var t := db.offers;
    var (t0, t1) := ThetasOf(t, o0, o1);
    var db1 := SettleBid(Credited(db, o0, o1), o0, Minus(t.bid[o0], Scaled(t.bid[o0], t0)));
    SettleBid(db1, o1, Minus(t.bid[o1], Scaled(t.bid[o1], t1)))
  }

  predicate Tradable(t: Offers, o0: Id, o1: Id) {
    {o0, o1} <= t.bid.Keys && {o0, o1} <= t.ask.Keys && {o0, o1} <= t.issuer.Keys
    && t.ask[o0].quant > 0.0 && t.ask[o1].quant > 0.0
  }

  /** Ratios of opposite directions at which both issuers can be served. */
  predicate Cross(r0: real, r1: real) { r0 * r1 <= 1.0 }

  /** Both sides have an offer and the best ones cross. */
  predicate CanTrade(t: Offers, d0: Id, d1: Id) {
    var e0, e1 := Best(t, d0, d1), Best(t, d1, d0);
    e0.Some? && e1.Some? && Cross(e0.value.ratio, e1.value.ratio)
  }

  function Best0(t: Offers, d0: Id, d1: Id): Id
    requires CanTrade(t, d0, d1)
  {
    Best(t, d0, d1).value.offer
  }

  function Best1(t: Offers, d0: Id, d1: Id): Id
    requires CanTrade(t, d0, d1)
  {
    Best(t, d1, d0).value.offer
  }

  /** trader::execute, when it has something to do. */
  function Execute(db: Db, d0: Id, d1: Id): Db
    requires Inv(db) && CanTrade(db.offers, d0, d1)
  {
    BestCross(db.offers, d0, d1);
    Trade(db, Best0(db.offers, d0, d1), Best1(db.offers, d0, d1))
  }

  // ---------- what a trade keeps ----------

  /** Two live offers of opposite directions whose ratios cross. */
  ghost predicate Crossing(t: Offers, o0: Id, o1: Id, d0: Id, d1: Id) {
    Live(t, o0, d0, d1) && Live(t, o1, d1, d0) && Cross(RatioOf(t, o0), RatioOf(t, o1))
  }

  lemma BestCross(t: Offers, d0: Id, d1: Id)
    requires OffersInv(t) && CanTrade(t, d0, d1)
    ensures Crossing(t, Best0(t, d0, d1), Best1(t, d0, d1), d0, d1)
    ensures Tradable(t, Best0(t, d0, d1), Best1(t, d0, d1))
  {
    hide OffersInv, RatioOf, Cross;
    BestIsLive(t, d0, d1);
    BestIsLive(t, d1, d0);
  }

  /** Filling the fraction f of offer o. */
  function Fill(t: Offers, o: Id, f: real): Offers
    requires o in t.bid && o in t.ask
  {
    if f == 1.0 then Unlist(t, o)
    else t.(bid := t.bid[o := Minus(t.bid[o], Scaled(t.bid[o], f))],
            ask := t.ask[o := Minus(t.ask[o], Scaled(t.ask[o], f))])
  }

  /** Offers are only ever removed or scaled. */
  ghost predicate Survivors(t: Offers, t': Offers) {
    forall o, d0, d1 :: Live(t', o, d0, d1) ==> Live(t, o, d0, d1) && RatioOf(t', o) == RatioOf(t, o)
  }

  lemma SameRatio(a: real, b: real, f: real)
    requires a > 0.0 && b > 0.0 && f < 1.0
    ensures a - a * f > 0.0 && b - b * f > 0.0
    ensures (a - a * f) / (b - b * f) == a / b
  {
    var s := 1.0 - f;
    assert a - a * f == a * s && b - b * f == b * s;
    Positive(a, s);
    Positive(b, s);
    var q := a / b;
    assert q * b == a;
    assert q * (b * s) == (q * b) * s == a * s;
    QuotientIs(q, a * s, b * s);
  }

  lemma Positive(x: real, y: real)
    requires x > 0.0 && y > 0.0
    ensures x * y > 0.0
  {}

  lemma QuotientIs(q: real, n: real, d: real)
    requires d > 0.0 && q * d == n
    ensures n / d == q
  {}

  lemma FillAll(t: Offers, o: Id)
    requires OffersInv(t) && o in t.bid && o in t.ask
    ensures OffersInv(Fill(t, o, 1.0)) && Survivors(t, Fill(t, o, 1.0))
    ensures Fill(t, o, 1.0).bid.Keys == t.bid.Keys - {o}
  {
    OffersUnlist(t, o);
    assert Unlist(t, o).issuer.Keys <= t.issuer.Keys by { hide Drop, RemoveOffer, IndexOk, ReverseOk; }
    hide OffersInv, Unlist;
    var t' := Fill(t, o, 1.0);
    forall x, d0, d1 | Live(t', x, d0, d1)
      ensures Live(t, x, d0, d1) && RatioOf(t', x) == RatioOf(t, x)
    {}
  }

  lemma FillPart(t: Offers, o: Id, f: real)
    requires OffersInv(t) && o in t.bid && o in t.ask && 0.0 < f < 1.0
    ensures OffersInv(Fill(t, o, f)) && Survivors(t, Fill(t, o, f))
    ensures Fill(t, o, f).bid.Keys == t.bid.Keys
  {
    HasOffers(t);
    var b, a := t.bid[o], t.ask[o];
    var b', a' := Minus(b, Scaled(b, f)), Minus(a, Scaled(a, f));
    assert b.quant > 0.0 && a.quant > 0.0;
    SameRatio(a.quant, b.quant, f);
    assert a'.quant / b'.quant == Ratio(t.bid, t.ask, o);
    hide IndexOk, ReverseOk, OffersOk, Minus, Scaled;
    IndexScale(t.bid, t.ask, t.index, o, b', a');
    var t' := Fill(t, o, f);
    forall x, d0, d1 | Live(t', x, d0, d1)
      ensures Live(t, x, d0, d1) && RatioOf(t', x) == RatioOf(t, x)
    {
      hide Ratio;
      if x == o { assert Ratio(t'.bid, t'.ask, o) == a'.quant / b'.quant by { RatioIs(t', o); } }
      RatioSame(t, t', x, o);
    }
  }

  lemma RatioIs(t: Offers, o: Id)
    requires o in t.bid && o in t.ask && t.bid[o].quant > 0.0
    ensures Ratio(t.bid, t.ask, o) == t.ask[o].quant / t.bid[o].quant
  {}

  lemma RatioSame(t: Offers, t': Offers, x: Id, o: Id)
    requires x in t.bid && x in t.ask && x in t'.bid && x in t'.ask
    requires x != o ==> t.bid[x] == t'.bid[x] && t.ask[x] == t'.ask[x] && t.bid[x].quant > 0.0
    ensures x != o ==> Ratio(t.bid, t.ask, x) == Ratio(t'.bid, t'.ask, x)
  {}

  lemma FillPreserves(t: Offers, o: Id, f: real)
    requires OffersInv(t) && o in t.bid && o in t.ask && 0.0 < f <= 1.0
    ensures OffersInv(Fill(t, o, f)) && Survivors(t, Fill(t, o, f))
    ensures Fill(t, o, f).bid.Keys == if f == 1.0 then t.bid.Keys - {o} else t.bid.Keys
  {
    hide Fill, Survivors, OffersInv;
    if f == 1.0 { FillAll(t, o); } else { FillPart(t, o, f); }
  }

  /** The fractions of two crossing offers: nothing is left of a bid exactly when it is filled in full,
      which happens to at least one; neither issuer receives more than the other gives. */
  lemma CrossingThetas(t: Offers, o0: Id, o1: Id, d0: Id, d1: Id)
    requires Crossing(t, o0, o1, d0, d1)
    ensures o0 != o1
    ensures
      var (t0, t1) := ThetasOf(t, o0, o1);
      && 0.0 < t0 <= 1.0 && 0.0 < t1 <= 1.0 && (t0 == 1.0 || t1 == 1.0)
      && (Minus(t.bid[o0], Scaled(t.bid[o0], t0)).quant == 0.0 <==> t0 == 1.0)
      && (Minus(t.bid[o1], Scaled(t.bid[o1], t1)).quant == 0.0 <==> t1 == 1.0)
      && t.bid[o0].quant * t0 >= t.ask[o1].quant * t1
      && t.bid[o1].quant * t1 >= t.ask[o0].quant * t0
  {
    var b0, a0, b1, a1 := t.bid[o0].quant, t.ask[o0].quant, t.bid[o1].quant, t.ask[o1].quant;
    assert RatioOf(t, o0) == a0 / b0 && RatioOf(t, o1) == a1 / b1;
    hide Thetas, RatioOf;
    TradeIsFair(b0, a0, b1, a1);
    var (t0, t1) := Thetas(b0, a0, b1, a1);
    Remainder(b0, t0);
    Remainder(b1, t1);
  }

  lemma Remainder(b: real, f: real)
    requires b > 0.0 && f <= 1.0
    ensures b - b * f == 0.0 <==> f == 1.0
  {
    if f < 1.0 {
      Positive(b, 1.0 - f);
      assert b * (1.0 - f) == b - b * f;
    }
  }

  lemma CreditedOffers(db: Db, o0: Id, o1: Id)
    requires Tradable(db.offers, o0, o1)
    ensures
      var t := db.offers;
      var (t0, t1) := ThetasOf(t, o0, o1);
      Credited(db, o0, o1).offers == t.(ask := t.ask[o0 := Minus(t.ask[o0], Scaled(t.ask[o0], t0))]
                                                   [o1 := Minus(t.ask[o1], Scaled(t.ask[o1], t1))])
  {
    hide Add, Thetas, Minus, Scaled;
  }

  /** The writes of a trade, taken in their order, fill both offers. */
  lemma TradeFills(db: Db, o0: Id, o1: Id, d0: Id, d1: Id)
    requires Crossing(db.offers, o0, o1, d0, d1) && Tradable(db.offers, o0, o1)
    ensures
      var t := db.offers;
      var (t0, t1) := ThetasOf(t, o0, o1);
      && o1 in Fill(t, o0, t0).bid && o1 in Fill(t, o0, t0).ask
      && Trade(db, o0, o1).offers == Fill(Fill(t, o0, t0), o1, t1)
  {
    CrossingThetas(db.offers, o0, o1, d0, d1);
    CreditedOffers(db, o0, o1);
    var t := db.offers;
    var (t0, t1) := ThetasOf(t, o0, o1);
    hide Crossing, Credited, ThetasOf, Minus, Scaled, Fill;
    var db2 := Credited(db, o0, o1);
    var left0, left1 := Minus(t.bid[o0], Scaled(t.bid[o0], t0)), Minus(t.bid[o1], Scaled(t.bid[o1], t1));
    var w0, w1 := Minus(t.ask[o0], Scaled(t.ask[o0], t0)), Minus(t.ask[o1], Scaled(t.ask[o1], t1));
    FirstFill(t, o0, o1, t0, w0, w1, left0);
    SecondFill(t, Fill(t, o0, t0), o1, t1, w1, left1);
  }

  /** The offer tables after the first bid is settled. */
  function Settled(t: Offers, o: Id, left: Value): Offers {
    if left.quant == 0.0 then Unlist(t, o) else t.(bid := t.bid[o := left])
  }

  lemma FirstFill(t: Offers, o0: Id, o1: Id, t0: real, w0: Value, w1: Value, left: Value)
    requires {o0, o1} <= t.bid.Keys && {o0, o1} <= t.ask.Keys && o0 != o1
    requires w0 == Minus(t.ask[o0], Scaled(t.ask[o0], t0)) && left == Minus(t.bid[o0], Scaled(t.bid[o0], t0))
    requires left.quant == 0.0 <==> t0 == 1.0
    ensures
      var f := Fill(t, o0, t0);
      && o1 in f.bid && o1 in f.ask && f.bid[o1] == t.bid[o1] && f.ask[o1] == t.ask[o1]
      && Settled(t.(ask := t.ask[o0 := w0][o1 := w1]), o0, left) == f.(ask := f.ask[o1 := w1])
  {
    hide Drop, RemoveOffer, At;
    var x := t.(ask := t.ask[o0 := w0][o1 := w1]);
    if t0 == 1.0 {
      assert x.ask - {o0} == (t.ask - {o0})[o1 := w1];
    } else {
      assert x.ask == t.ask[o0 := w0][o1 := w1];
    }
  }

  lemma SecondFill(t: Offers, f: Offers, o1: Id, t1: real, w1: Value, left: Value)
    requires o1 in t.bid && o1 in t.ask && o1 in f.bid && o1 in f.ask
    requires f.bid[o1] == t.bid[o1] && f.ask[o1] == t.ask[o1]
    requires w1 == Minus(t.ask[o1], Scaled(t.ask[o1], t1)) && left == Minus(t.bid[o1], Scaled(t.bid[o1], t1))
    requires left.quant == 0.0 <==> t1 == 1.0
    ensures Settled(f.(ask := f.ask[o1 := w1]), o1, left) == Fill(f, o1, t1)
  {
    hide Drop, RemoveOffer, At;
    assert f.ask[o1 := w1] - {o1} == f.ask - {o1};
  }

  // ---------- accounts, notes and the journal through a trade ----------

  ghost predicate RestKept(db: Db, db': Db) {
    && JournalOk(db'.accts.value, db'.events) && db'.notes == db.notes
    && db'.accts == db.accts.(value := db'.accts.value)
  }

  lemma SettleKeeps(db: Db, o: Id, left: Value)
    requires JournalOk(db.accts.value, db.events)
    ensures RestKept(db, SettleBid(db, o, left))
    ensures SettleBid(db, o, left).accts == db.accts
  {
    hide JournalOk, Unlist;
    JournalStep(db.accts.value, db.events, OfferDestroyEvent(o));
  }

  lemma CreditAskKeeps(db: Db, a: Id, v: Value, o: Id, w: Value)
    requires JournalOk(db.accts.value, db.events)
    ensures RestKept(db, SetAsk(Credit(db, a, v), o, w))
  {
    hide JournalOk, Add;
    JournalStep(db.accts.value, db.events, CreditEvent(a, v));
  }

  lemma CreditedKeeps(db: Db, o0: Id, o1: Id)
    requires JournalOk(db.accts.value, db.events) && Tradable(db.offers, o0, o1)
    ensures RestKept(db, Credited(db, o0, o1))
  {
    hide JournalOk, Credit, SetAsk, ThetasOf, Minus, Scaled;
    var t := db.offers;
    var (t0, t1) := ThetasOf(t, o0, o1);
    var c0, c1 := Scaled(t.ask[o0], t0), Scaled(t.ask[o1], t1);
    CreditAskKeeps(db, t.issuer[o0], c0, o0, Minus(t.ask[o0], c0));
    var db1 := SetAsk(Credit(db, t.issuer[o0], c0), o0, Minus(t.ask[o0], c0));
    CreditAskKeeps(db1, t.issuer[o1], c1, o1, Minus(t.ask[o1], c1));
  }

  lemma TradeKeepsRest(db: Db, o0: Id, o1: Id)
    requires JournalOk(db.accts.value, db.events) && Tradable(db.offers, o0, o1)
    ensures RestKept(db, Trade(db, o0, o1))
    ensures Trade(db, o0, o1).accts == Credited(db, o0, o1).accts
  {
    hide JournalOk, Credited, SettleBid, ThetasOf, Minus, Scaled;
    var t := db.offers;
    var (t0, t1) := ThetasOf(t, o0, o1);
    CreditedKeeps(db, o0, o1);
    var db2 := Credited(db, o0, o1);
    var left0, left1 := Minus(t.bid[o0], Scaled(t.bid[o0], t0)), Minus(t.bid[o1], Scaled(t.bid[o1], t1));
    SettleKeeps(db2, o0, left0);
    SettleKeeps(SettleBid(db2, o0, left0), o1, left1);
  }

  /** One trade: the invariant holds again, every surviving offer keeps its pair and its ratio, and at
      least one offer is gone. */
  lemma TradePreserves(db: Db, o0: Id, o1: Id, d0: Id, d1: Id)
    requires Inv(db) && Crossing(db.offers, o0, o1, d0, d1) && Tradable(db.offers, o0, o1)
    ensures Inv(Trade(db, o0, o1))
    ensures Survivors(db.offers, Trade(db, o0, o1).offers)
    ensures |Trade(db, o0, o1).offers.bid| < |db.offers.bid|
  {
    hide Trade, Fill, OffersInv, NotesInv, JournalOk, ThetasOf, Minus, Scaled, Survivors;
    var t := db.offers;
    TradeFills(db, o0, o1, d0, d1);
    TradeKeepsRest(db, o0, o1);
    CrossingThetas(t, o0, o1, d0, d1);
    var (t0, t1) := ThetasOf(t, o0, o1);
    var f, x := Fill(t, o0, t0), Trade(db, o0, o1).offers;
    FillPreserves(t, o0, t0);
    FillPreserves(f, o1, t1);
    SurvivorsTransitive(t, f, x);
    FewerKeys(t.bid, f.bid, o0);
    FewerKeys(f.bid, x.bid, o1);
  }

  lemma SurvivorsTransitive(x: Offers, y: Offers, z: Offers)
    requires Survivors(x, y) && Survivors(y, z)
    ensures Survivors(x, z)
  {
    hide Live, RatioOf;
  }

  lemma FewerKeys(m: map<Id, Value>, m': map<Id, Value>, o: Id)
    requires o in m && (m'.Keys == m.Keys - {o} || m'.Keys == m.Keys)
    ensures |m'| <= |m| && (m'.Keys == m.Keys - {o} ==> |m'| < |m|)
  {
    assert |m'| == |m'.Keys| && |m| == |m.Keys|;
  }

  // ---------- matching until nothing crosses ----------

  lemma ExecutePreserves(db: Db, d0: Id, d1: Id)
    requires Inv(db) && CanTrade(db.offers, d0, d1)
    ensures Inv(Execute(db, d0, d1))
    ensures Survivors(db.offers, Execute(db, d0, d1).offers)
    ensures |Execute(db, d0, d1).offers.bid| < |db.offers.bid|
  {
    hide OffersInv, Trade, Survivors, CanTrade, Crossing, Tradable;
    BestCross(db.offers, d0, d1);
    TradePreserves(db, Best0(db.offers, d0, d1), Best1(db.offers, d0, d1), d0, d1);
  }

  /** trader::process: execute again and again. It ends because every trade destroys an offer. */
  function Process(db: Db, d0: Id, d1: Id): Db
    requires Inv(db)
    decreases |db.offers.bid|
  {
    if d0 == d1 || !CanTrade(db.offers, d0, d1) then db
    else
      ExecutePreserves(db, d0, d1);
      Process(Execute(db, d0, d1), d0, d1)
  }

  /** No two live offers of the pair cross. */
  ghost predicate Uncrossed(t: Offers, d0: Id, d1: Id) {
    forall o0, o1 :: Live(t, o0, d0, d1) && Live(t, o1, d1, d0) ==> !Cross(RatioOf(t, o0), RatioOf(t, o1))
  }

  /** It is enough that the two best offers do not cross. */
  lemma StoppedIsUncrossed(t: Offers, d0: Id, d1: Id)
    requires OffersInv(t) && !CanTrade(t, d0, d1)
    ensures Uncrossed(t, d0, d1)
  {
    hide OffersInv, Best, RatioOf, Cross;
    forall o0, o1 | Live(t, o0, d0, d1) && Live(t, o1, d1, d0)
      ensures !Cross(RatioOf(t, o0), RatioOf(t, o1))
    {
      BestIsBest(t, d0, d1, o0);
      BestIsBest(t, d1, d0, o1);
      BestIsLive(t, d0, d1);
      BestIsLive(t, d1, d0);
      var e0, e1 := Best(t, d0, d1).value, Best(t, d1, d0).value;
      PositiveRatio(t, e0.offer);
      PositiveRatio(t, e1.offer);
      WorseDoNotCross(e0.ratio, RatioOf(t, o0), e1.ratio, RatioOf(t, o1));
    }
  }

  lemma PositiveRatio(t: Offers, o: Id)
    requires o in t.bid && o in t.ask && t.bid[o].quant > 0.0 && t.ask[o].quant > 0.0
    ensures RatioOf(t, o) > 0.0
  {}

  lemma WorseDoNotCross(x: real, x': real, y: real, y': real)
    requires 0.0 < x <= x' && 0.0 < y <= y' && !Cross(x, y)
    ensures !Cross(x', y')
  {
    Scale(x, x', y);
    Scale(y, y', x');
  }

  lemma SurvivorsUncrossed(t: Offers, t': Offers, d0: Id, d1: Id)
    requires Survivors(t, t') && Uncrossed(t, d0, d1)
    ensures Uncrossed(t', d0, d1)
  {
    hide RatioOf, Cross;
    forall o0, o1 | Live(t', o0, d0, d1) && Live(t', o1, d1, d0)
      ensures !Cross(RatioOf(t', o0), RatioOf(t', o1))
    {
      assert Live(t, o0, d0, d1) && Live(t, o1, d1, d0);
    }
  }

  lemma SurvivorsRefl(t: Offers)
    ensures Survivors(t, t)
  {}

  /** When the matching stops the pair is uncrossed; the invariant holds; surviving offers keep pair
      and ratio, so no other pair becomes crossed. */
  lemma {:induction false} ProcessUncrosses(db: Db, d0: Id, d1: Id)
    requires Inv(db)
    ensures Inv(Process(db, d0, d1))
    ensures d0 != d1 ==> Uncrossed(Process(db, d0, d1).offers, d0, d1)
    ensures Survivors(db.offers, Process(db, d0, d1).offers)
    decreases |db.offers.bid|
  {
    hide OffersInv, NotesInv, JournalOk, Uncrossed, Survivors, Execute, CanTrade;
    if d0 == d1 || !CanTrade(db.offers, d0, d1) {
      if d0 != d1 { StoppedIsUncrossed(db.offers, d0, d1); }
      SurvivorsRefl(db.offers);
    } else {
      var db' := Execute(db, d0, d1);
      ExecutePreserves(db, d0, d1);
      ProcessUncrosses(db', d0, d1);
      SurvivorsTransitive(db.offers, db'.offers, Process(db', d0, d1).offers);
    }
  }

  // ---------- what it means in quantities ----------

  /** Ratios cross exactly when the two bids together can pay for the two asks. */
  lemma CrossIff(b0: real, a0: real, b1: real, a1: real)
    requires b0 > 0.0 && a0 > 0.0 && b1 > 0.0 && a1 > 0.0
    ensures Cross(a0 / b0, a1 / b1) <==> a0 * a1 <= b0 * b1
  {
    var r0, r1 := a0 / b0, a1 / b1;
    assert a0 == r0 * b0 && a1 == r1 * b1;
    Regroup(r0, b0, r1, b1);
    Positive(b0, b1);
    if r0 * r1 <= 1.0 { Scale(r0 * r1, 1.0, b0 * b1); }
    if a0 * a1 <= b0 * b1 { Unscale(r0 * r1, 1.0, b0 * b1); }
  }

  lemma Regroup(r0: real, b0: real, r1: real, b1: real)
    ensures (r0 * b0) * (r1 * b1) == (r0 * r1) * (b0 * b1)
  {}

  lemma LiveCross(t: Offers, o0: Id, o1: Id, d0: Id, d1: Id)
    requires Live(t, o0, d0, d1) && Live(t, o1, d1, d0)
    ensures Cross(RatioOf(t, o0), RatioOf(t, o1))
            <==> t.ask[o0].quant * t.ask[o1].quant <= t.bid[o0].quant * t.bid[o1].quant
  {
    CrossIff(t.bid[o0].quant, t.ask[o0].quant, t.bid[o1].quant, t.ask[o1].quant);
  }

  /** trader::execute trades exactly when some two live offers of the pair can pay for each other, by the
      quantities they have now. */
  lemma TradesIff(t: Offers, d0: Id, d1: Id)
    requires OffersInv(t)
    ensures CanTrade(t, d0, d1) <==>
      exists o0, o1 :: (
        && Live(t, o0, d0, d1) && Live(t, o1, d1, d0)
        && t.ask[o0].quant * t.ask[o1].quant <= t.bid[o0].quant * t.bid[o1].quant)
  {
    hide OffersInv, RatioOf, Cross, Best;
    if CanTrade(t, d0, d1) {
      BestIsLive(t, d0, d1);
      BestIsLive(t, d1, d0);
      var o0, o1 := Best0(t, d0, d1), Best1(t, d0, d1);
      LiveCross(t, o0, o1, d0, d1);
      assert Live(t, o0, d0, d1) && Live(t, o1, d1, d0);
    } else {
      StoppedIsUncrossed(t, d0, d1);
      UncrossedMeans(t, d0, d1);
    }
  }

  /** In an uncrossed pair no two live offers can pay for each other. */
  lemma UncrossedMeans(t: Offers, d0: Id, d1: Id)
    ensures Uncrossed(t, d0, d1) <==>
      forall o0, o1 :: Live(t, o0, d0, d1) && Live(t, o1, d1, d0) ==> (
        t.ask[o0].quant * t.ask[o1].quant > t.bid[o0].quant * t.bid[o1].quant)
  {
    hide RatioOf, Cross;
    forall o0, o1 | Live(t, o0, d0, d1) && Live(t, o1, d1, d0)
      ensures Cross(RatioOf(t, o0), RatioOf(t, o1))
              <==> t.ask[o0].quant * t.ask[o1].quant <= t.bid[o0].quant * t.bid[o1].quant
    {
      LiveCross(t, o0, o1, d0, d1);
    }
  }

  /** When the matching has ended no two live offers of the pair can pay for each other. */
  lemma ProcessSettles(db: Db, d0: Id, d1: Id, o0: Id, o1: Id)
    requires Inv(db)
    requires Live(Process(db, d0, d1).offers, o0, d0, d1) && Live(Process(db, d0, d1).offers, o1, d1, d0)
    ensures
      var t := Process(db, d0, d1).offers;
      t.ask[o0].quant * t.ask[o1].quant > t.bid[o0].quant * t.bid[o1].quant
  {
    hide Inv, Process, Uncrossed, Survivors;
    ProcessUncrosses(db, d0, d1);
    UncrossedPays(Process(db, d0, d1).offers, o0, o1, d0, d1);
  }

  lemma UncrossedPays(t: Offers, o0: Id, o1: Id, d0: Id, d1: Id)
    requires Uncrossed(t, d0, d1) && Live(t, o0, d0, d1) && Live(t, o1, d1, d0)
    ensures d0 != d1 && t.ask[o0].quant * t.ask[o1].quant > t.bid[o0].quant * t.bid[o1].quant
  {
    hide RatioOf, Cross;
    LiveCross(t, o0, o1, d0, d1);
  }

  // ---------- supply ----------

  /** What a trade of the two offers leaves unclaimed in denomination d. */
  function Spread(t: Offers, o0: Id, o1: Id, d: Id): real
    requires Tradable(t, o0, o1)
  {
    var (t0, t1) := ThetasOf(t, o0, o1);
    Of(Scaled(t.bid[o0], t0), d) + Of(Scaled(t.bid[o1], t1), d)
    - Of(Scaled(t.ask[o0], t0), d) - Of(Scaled(t.ask[o1], t1), d)
  }

  lemma SupplySettle(db: Db, o: Id, left: Value, d: Id)
    requires o in db.offers.bid && o in db.offers.ask
    ensures Supply(SettleBid(db, o, left), d)
            == Supply(db, d) - BidOf(db.offers.bid, o, d) + (if left.quant == 0.0 then 0.0 else Of(left, d))
  {
    hide Supply, DestroyOffer;
    if left.quant == 0.0 { SupplyDestroyOffer(db, o, d); } else { SupplySetBid(db, o, left, d); }
  }

  lemma SettleOthers(db: Db, o: Id, left: Value, x: Id)
    requires x != o && x in db.offers.bid && x in db.offers.ask
    ensures
      var t' := SettleBid(db, o, left).offers;
      x in t'.bid && x in t'.ask && t'.bid[x] == db.offers.bid[x]
  {
    hide Drop, RemoveOffer, At;
  }

  lemma SupplyAsk(db: Db, o: Id, v: Value, d: Id)
    ensures Supply(SetAsk(db, o, v), d) == Supply(db, d)
  {}

  lemma SupplyCredited(db: Db, o0: Id, o1: Id, d: Id)
    requires Tradable(db.offers, o0, o1)
    ensures
      var t := db.offers;
      var (t0, t1) := ThetasOf(t, o0, o1);
      Supply(Credited(db, o0, o1), d) == Supply(db, d) + Of(Scaled(t.ask[o0], t0), d) + Of(Scaled(t.ask[o1], t1), d)
  {
    hide Supply, Credit, SetAsk, ThetasOf, Of, Minus, Scaled;
    var t := db.offers;
    var (t0, t1) := ThetasOf(t, o0, o1);
    var c0, c1 := Scaled(t.ask[o0], t0), Scaled(t.ask[o1], t1);
    var x0 := Credit(db, t.issuer[o0], c0);
    SupplyCredit(db, t.issuer[o0], c0, d);
    SupplyAsk(x0, o0, Minus(t.ask[o0], c0), d);
    var db1 := SetAsk(x0, o0, Minus(t.ask[o0], c0));
    SupplyCredit(db1, t.issuer[o1], c1, d);
    SupplyAsk(Credit(db1, t.issuer[o1], c1), o1, Minus(t.ask[o1], c1), d);
  }

  lemma LeftAmount(v: Value, f: real, d: Id)
    ensures
      var left := Minus(v, Scaled(v, f));
      (if left.quant == 0.0 then 0.0 else Of(left, d)) == Of(v, d) - Of(Scaled(v, f), d)
  {}

  /** A trade lowers the supply by exactly its spread, and a spread is never negative. */
  lemma SupplyTrade(db: Db, o0: Id, o1: Id, d0: Id, d1: Id, d: Id)
    requires Crossing(db.offers, o0, o1, d0, d1) && Tradable(db.offers, o0, o1)
    ensures Supply(Trade(db, o0, o1), d) == Supply(db, d) - Spread(db.offers, o0, o1, d)
    ensures Spread(db.offers, o0, o1, d) >= 0.0
    ensures d != d0 && d != d1 ==> Spread(db.offers, o0, o1, d) == 0.0
  {
    var t := db.offers;
    CrossingThetas(t, o0, o1, d0, d1);
    SpreadSign(t, o0, o1, d0, d1, d);
    CreditedOffers(db, o0, o1);
    SupplyCredited(db, o0, o1, d);
    var (t0, t1) := ThetasOf(t, o0, o1);
    hide Supply, SettleBid, Credited, ThetasOf, Minus, Scaled, Of, Crossing;
    var db2 := Credited(db, o0, o1);
    var left0, left1 := Minus(t.bid[o0], Scaled(t.bid[o0], t0)), Minus(t.bid[o1], Scaled(t.bid[o1], t1));
    LeftAmount(t.bid[o0], t0, d);
    LeftAmount(t.bid[o1], t1, d);
    SupplySettle(db2, o0, left0, d);
    SettleOthers(db2, o0, left0, o1);
    SupplySettle(SettleBid(db2, o0, left0), o1, left1, d);
  }

  lemma SpreadSign(t: Offers, o0: Id, o1: Id, d0: Id, d1: Id, d: Id)
    requires Crossing(t, o0, o1, d0, d1) && Tradable(t, o0, o1)
    ensures Spread(t, o0, o1, d) >= 0.0
    ensures d != d0 && d != d1 ==> Spread(t, o0, o1, d) == 0.0
  {
    CrossingThetas(t, o0, o1, d0, d1);
    hide ThetasOf, RatioOf;
  }

  /** The unclaimed spread of one execution. */
  ghost function ExecuteSpread(t: Offers, d0: Id, d1: Id, d: Id): real
    requires OffersInv(t) && CanTrade(t, d0, d1)
  {
    BestCross(t, d0, d1);
    Spread(t, Best0(t, d0, d1), Best1(t, d0, d1), d)
  }

  lemma SupplyExecute(db: Db, d0: Id, d1: Id, d: Id)
    requires Inv(db) && CanTrade(db.offers, d0, d1)
    ensures Supply(Execute(db, d0, d1), d) == Supply(db, d) - ExecuteSpread(db.offers, d0, d1, d)
    ensures ExecuteSpread(db.offers, d0, d1, d) >= 0.0
    ensures d != d0 && d != d1 ==> ExecuteSpread(db.offers, d0, d1, d) == 0.0
  {
    hide OffersInv, NotesInv, JournalOk, Supply, Trade, CanTrade, Crossing, Tradable, Spread;
    BestCross(db.offers, d0, d1);
    SupplyTrade(db, Best0(db.offers, d0, d1), Best1(db.offers, d0, d1), d0, d1, d);
  }

  /** The unclaimed spread of a whole matching. */
  ghost function ProcessSpread(db: Db, d0: Id, d1: Id, d: Id): real
    requires Inv(db)
    decreases |db.offers.bid|
  {
    if d0 == d1 || !CanTrade(db.offers, d0, d1) then 0.0
    else
      ExecutePreserves(db, d0, d1);
      ExecuteSpread(db.offers, d0, d1, d) + ProcessSpread(Execute(db, d0, d1), d0, d1, d)
  }

  lemma {:induction false} SupplyProcess(db: Db, d0: Id, d1: Id, d: Id)
    requires Inv(db)
    ensures Supply(Process(db, d0, d1), d) == Supply(db, d) - ProcessSpread(db, d0, d1, d)
    ensures ProcessSpread(db, d0, d1, d) >= 0.0
    ensures d != d0 && d != d1 ==> ProcessSpread(db, d0, d1, d) == 0.0
    decreases |db.offers.bid|
  {
    hide Inv, Supply, Execute, CanTrade, ExecuteSpread;
    if d0 == d1 {
    } else if CanTrade(db.offers, d0, d1) {
      ExecutePreserves(db, d0, d1);
      SupplyExecute(db, d0, d1, d);
      SupplyProcess(Execute(db, d0, d1), d0, d1, d);
    }
  }
}
