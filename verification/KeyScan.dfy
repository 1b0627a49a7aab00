/** The tables acct_value.db and note_value.db (bom/acct.cc, bom/note.cc): B-trees keyed by the bytes
    id NUL denomination NUL. The holdings of one account or note are found by a cursor that starts at
    id NUL and walks on while the first part of the key stays the same. */
module KeyScan {
  import opened Text
  import opened Portfolio

  /** A key is the pair of ids it is made from; Raw gives its bytes. */
  type Key = (Id, Id)

  function Raw(k: Key): string { k.0 + ['\0'] + (k.1 + ['\0']) }

  // ---------- byte order ----------

  predicate Le(a: string, b: string) {
    a == "" || (b != "" && (a[0] < b[0] || (a[0] == b[0] && Le(a[1..], b[1..]))))
  }

  predicate Below(a: Key, b: Key) { Le(Raw(a), Raw(b)) }

  lemma {:induction false} LeTotal(a: string, b: string)
    ensures Le(a, b) || Le(b, a)
    ensures Le(a, a)
  {
    if a == "" {
    } else {
      LeTotal(a[1..], if b == "" then "" else b[1..]);
    }
  }

  lemma {:induction false} LeAntisymmetric(a: string, b: string)
    requires Le(a, b) && Le(b, a)
    ensures a == b
  {
    if a == "" || b == "" {
    } else {
      LeAntisymmetric(a[1..], b[1..]);
      assert a == [a[0]] + a[1..] && b == [b[0]] + b[1..];
    }
  }

  lemma {:induction false} LeTransitive(a: string, b: string, c: string)
    requires Le(a, b) && Le(b, c)
    ensures Le(a, c)
  {
    if a == "" {
    } else if a[0] == b[0] == c[0] {
      LeTransitive(a[1..], b[1..], c[1..]);
    }
  }

  lemma {:induction false} PrefixFirst(p: string, t: string)
    ensures Le(p, p + t)
  {
    if p == "" {
    } else {
      assert (p + t)[1..] == p[1..] + t;
      PrefixFirst(p[1..], t);
    }
  }

  /** The strings with a given prefix stand together. */
  lemma {:induction false} PrefixConvex(p: string, x: string, t: string)
    requires Le(p, x) && Le(x, p + t)
    ensures p <= x
  {
    if p == "" {
    } else {
      assert (p + t)[1..] == p[1..] + t;
      PrefixConvex(p[1..], x[1..], t);
    }
  }

  // ---------- taking a key apart ----------

  /** strcmp(k.data, id) == 0 looks at the bytes before the first NUL; the denomination is the C string
      behind it. */
  lemma FirstPart(k: Key)
    ensures Cut(Raw(k), '\0') == Some((k.0, k.1 + ['\0']))
    ensures Cut(k.1 + ['\0'], '\0') == Some((k.1, ""))
  {
    CutAt(k.0, '\0', k.1 + ['\0']);
    assert k.1 + ['\0'] + "" == k.1 + ['\0'];
    CutAt(k.1, '\0', "");
  }

  lemma RawInjective(a: Key, b: Key)
    requires Raw(a) == Raw(b)
    ensures a == b
  {
    FirstPart(a);
    FirstPart(b);
  }

  lemma PrefixIsOwner(id: Id, k: Key)
    ensures id + ['\0'] <= Raw(k) <==> k.0 == id
  {
    FirstPart(k);
    var p, r := id + ['\0'], Raw(k);
    if p <= r {
      assert r == id + ['\0'] + r[|p|..];
      CutAt(id, '\0', r[|p|..]);
    }
    if k.0 == id {
      assert r == p + (k.1 + ['\0']);
    }
  }

  // ---------- least keys ----------

  ghost predicate IsLeast(k: Key, keys: set<Key>) {
    k in keys && forall x :: x in keys ==> Below(k, x)
  }

  lemma LeastUnique(a: Key, b: Key, keys: set<Key>)
    requires IsLeast(a, keys) && IsLeast(b, keys)
    ensures a == b
  {
    LeAntisymmetric(Raw(a), Raw(b));
    RawInjective(a, b);
  }

  lemma SelfBelow(a: Key)
    ensures Below(a, a)
  {
    LeTotal(Raw(a), Raw(a));
  }

  lemma TotalOrder(a: Key, b: Key)
    ensures Below(a, b) || Below(b, a)
  {
    LeTotal(Raw(a), Raw(b));
  }

  lemma Chain(a: Key, b: Key, c: Key)
    requires Below(a, b) && Below(b, c)
    ensures Below(a, c)
  {
    LeTransitive(Raw(a), Raw(b), Raw(c));
  }

  lemma LeastExists(keys: set<Key>) returns (k: Key)
    requires keys != {}
    ensures IsLeast(k, keys)
    decreases keys
  {
    k :| k in keys;
    var others := keys - {k};
    hide Below;
    SelfBelow(k);
    if others == {} {
      assert keys == {k};
    } else {
      var m := LeastExists(others);
      TotalOrder(k, m);
      var best := if Below(k, m) then k else m;
      forall x | x in keys
        ensures Below(best, x)
      {
        if x != k {
          assert x in others && Below(m, x);
          if Below(k, m) { Chain(k, m, x); }
        }
      }
      k := best;
    }
  }

  ghost function Least(keys: set<Key>): (k: Key)
    requires keys != {}
    ensures IsLeast(k, keys)
  {
    assert exists k :: IsLeast(k, keys) by { var k := LeastExists(keys); }
    var k :| IsLeast(k, keys);
    k
  }

  ghost function Ascending(keys: set<Key>): seq<Key>
    decreases keys
  {
    if keys == {} then [] else [Least(keys)] + Ascending(keys - {Least(keys)})
  }

  function Mine(table: map<Key, real>, id: Id): set<Key> {
    set k | k in table && k.0 == id
  }

  ghost function ValuesAt(table: map<Key, real>, keys: seq<Key>): seq<Value>
    requires forall k :: k in keys ==> k in table
  {
    if keys == [] then [] else ValuesAt(table, keys[1..]) + [Value(keys[0].1, table[keys[0]])]
  }

  lemma {:induction false} AscendingElements(keys: set<Key>)
    ensures forall k :: k in Ascending(keys) <==> k in keys
    decreases keys
  {
    if keys == {} {
    } else {
      var k := Least(keys);
      AscendingElements(keys - {k});
      assert forall x :: x in Ascending(keys) <==> x == k || x in Ascending(keys - {k});
    }
  }

  /** What get_portfolio returns: the holdings of id, in falling byte order of the denominations. */
  ghost function Listing(table: map<Key, real>, id: Id): seq<Value> {
    AscendingElements(Mine(table, id));
    ValuesAt(table, Ascending(Mine(table, id)))
  }

  // ---------- cursors ----------

  method PickLeast(keys: set<Key>) returns (k: Key)
    requires keys != {}
    ensures IsLeast(k, keys)
  {
    ghost var least := LeastExists(keys);
    k :| k in keys && forall x | x in keys :: Below(k, x);
  }

  /** c_get with DB_SET_RANGE: the first key not below the given bytes. */
  method SetRange(table: map<Key, real>, from: string) returns (r: Option<Key>)
    ensures r.None? ==> forall x :: x in table ==> !Le(from, Raw(x))
    ensures r.Some? ==> r.value in table && Le(from, Raw(r.value))
    ensures r.Some? ==> forall x :: x in table && Le(from, Raw(x)) ==> Below(r.value, x)
  {
    var keys := set k | k in table && Le(from, Raw(k));
    if keys == {} {
      assert forall x :: x in table && Le(from, Raw(x)) ==> x in keys;
      return None;
    }
    var k := PickLeast(keys);
    return Some(k);
  }

  /** c_get with DB_NEXT: the first key behind the cursor. The key under the cursor may have been
      deleted. */
  method Next(table: map<Key, real>, at: Key) returns (r: Option<Key>)
    ensures r.None? ==> forall x :: x in table ==> Below(x, at)
    ensures r.Some? ==> r.value in table && !Below(r.value, at)
    ensures r.Some? ==> forall x :: x in table && !Below(x, at) ==> Below(r.value, x)
  {
    var keys := set k | k in table && !Below(k, at);
    if keys == {} {
      assert forall x :: x in table && !Below(x, at) ==> x in keys;
      return None;
    }
    var k := PickLeast(keys);
    return Some(k);
  }

  /** get_value_first: the first key of id, if it has any. */
  method First(table: map<Key, real>, id: Id) returns (r: Option<Key>)
    ensures r.None? <==> Mine(table, id) == {}
    ensures r.Some? ==> IsLeast(r.value, Mine(table, id))
  {
    var k := SetRange(table, id + ['\0']);
    forall x | x in Mine(table, id)
      ensures Le(id + ['\0'], Raw(x))
    {
      PrefixIsOwner(id, x);
      PrefixFirst(id + ['\0'], x.1 + ['\0']);
    }
    if k.None? { return None; }
    FirstPart(k.value);
    if Cut(Raw(k.value), '\0').value.0 != id {
      OtherOwner(id, k.value, id + ['\0'], Mine(table, id));
      return None;
    }
    assert k.value in Mine(table, id);
    return k;
  }

  /** A key of another owner that is not behind p = id NUL and not above some key of id cannot exist. */
  lemma OtherOwner(id: Id, k: Key, p: string, mine: set<Key>)
    requires p == id + ['\0'] && k.0 != id && Le(p, Raw(k))
    requires forall x :: x in mine ==> x.0 == id && Below(k, x)
    ensures mine == {}
  {
    if mine != {} {
      var x :| x in mine;
      assert Raw(x) == p + (x.1 + ['\0']);
      PrefixConvex(p, Raw(k), x.1 + ['\0']);
      PrefixIsOwner(id, k);
      assert false;
    }
  }

  /** get_value_next: the next key of id, if there is one. */
  method Following(table: map<Key, real>, id: Id, at: Key) returns (r: Option<Key>)
    requires at.0 == id
    ensures r.None? <==> (set k | k in Mine(table, id) && !Below(k, at)) == {}
    ensures r.Some? ==> IsLeast(r.value, set k | k in Mine(table, id) && !Below(k, at))
  {
    hide Below, Raw, Cut;
    ghost var rest := set k | k in Mine(table, id) && !Below(k, at);
    var k := Next(table, at);
    if k.None? { return None; }
    FirstPart(k.value);
    if Cut(Raw(k.value), '\0').value.0 != id {
      BehindStart(id, at, k.value);
      OtherOwner(id, k.value, id + ['\0'], rest);
      return None;
    }
    assert k.value in rest;
    return k;
  }

  lemma BehindStart(id: Id, at: Key, k: Key)
    requires at.0 == id && !Below(k, at)
    ensures Le(id + ['\0'], Raw(k))
  {
    LeTotal(Raw(at), Raw(k));
    assert Raw(at) == (id + ['\0']) + (at.1 + ['\0']);
    PrefixFirst(id + ['\0'], at.1 + ['\0']);
    LeTransitive(id + ['\0'], Raw(at), Raw(k));
  }

  /** Behind the least of the remaining keys stand exactly the other remaining ones. */
  lemma RestBehind(mine: set<Key>, rest: set<Key>, at: Key)
    requires rest <= mine && IsLeast(at, rest)
    requires forall k :: k in mine && k !in rest ==> Below(k, at)
    ensures (set k | k in mine && !Below(k, at)) == rest - {at}
    ensures forall j, k :: j in mine && j !in rest - {at} && k in rest - {at} ==> Below(j, k)
  {
    var behind := set k | k in mine && !Below(k, at);
    LeTotal(Raw(at), Raw(at));
    forall k | k in rest - {at}
      ensures k in behind
    {
      if Below(k, at) {
        LeAntisymmetric(Raw(k), Raw(at));
        RawInjective(k, at);
      }
    }
    assert behind == rest - {at};
    forall j, k | j in mine && j !in rest - {at} && k in rest - {at}
      ensures Below(j, k)
    {
      if j != at { LeTransitive(Raw(j), Raw(at), Raw(k)); }
    }
  }

  // ---------- the two scans ----------

  method GetPortfolio(table: map<Key, real>, id: Id) returns (vl: seq<Value>)
    ensures vl == Listing(table, id)
  {
    vl := [];
    ghost var mine := Mine(table, id);
    ghost var rest, seen := mine, [];
    AscendingElements(mine);
    var k := First(table, id);
    while k.Some?
      invariant rest <= mine
      invariant k.None? <==> rest == {}
      invariant k.Some? ==> IsLeast(k.value, rest)
      invariant forall j, r :: j in mine && j !in rest && r in rest ==> Below(j, r)
      invariant seen + Ascending(rest) == Ascending(mine)
      invariant forall s :: s in seen ==> s in table
      invariant vl == ValuesAt(table, seen)
      decreases rest
    {
      var at := k.value;
      LeastUnique(at, Least(rest), rest);
      assert seen + ([at] + Ascending(rest - {at})) == (seen + [at]) + Ascending(rest - {at});
      ValuesSnoc(table, seen, at);
      FirstPart(at);
      var denom := Cut(Cut(Raw(at), '\0').value.1, '\0').value.0;
      vl := [Value(denom, table[at])] + vl;
      seen := seen + [at];
      RestBehind(mine, rest, at);
      rest := rest - {at};
      k := Following(table, id, at);
    }
    assert seen + [] == seen;
  }

  lemma {:induction false} ValuesSnoc(table: map<Key, real>, keys: seq<Key>, k: Key)
    requires k in table && forall x :: x in keys ==> x in table
    ensures ValuesAt(table, keys + [k]) == [Value(k.1, table[k])] + ValuesAt(table, keys)
  {
    if keys == [] {
      assert [k][1..] == [];
      assert [] + [k] == [k];
      assert ValuesAt(table, [k][1..]) == [];
    } else {
      assert (keys + [k])[1..] == keys[1..] + [k];
      ValuesSnoc(table, keys[1..], k);
    }
  }

  /** del_portfolio removes the entries of id and nothing else. */
  method DelPortfolio(table: map<Key, real>, id: Id) returns (left: map<Key, real>)
    ensures left == map k | k in table && k.0 != id :: table[k]
  {
    left := table;
    ghost var mine := Mine(table, id);
    ghost var rest := mine;
    var k := First(table, id);
    while k.Some?
      invariant rest <= mine
      invariant k.None? <==> rest == {}
      invariant k.Some? ==> IsLeast(k.value, rest)
      invariant forall j, r :: j in mine && j !in rest && r in rest ==> Below(j, r)
      invariant left == map k | k in table && (k.0 != id || k in rest) :: table[k]
      decreases rest
    {
      var at := k.value;
      left := left - {at};
      RestBehind(mine, rest, at);
      rest := rest - {at};
      assert (set k | k in Mine(left, id) && !Below(k, at)) == rest;
      k := Following(left, id, at);
    }
  }

  // ---------- what a listing contains ----------

  lemma {:induction false} ValuesMembers(table: map<Key, real>, keys: seq<Key>, id: Id, v: Value)
    requires forall k :: k in keys ==> k in table && k.0 == id
    ensures v in ValuesAt(table, keys) <==> (id, v.denom) in keys && table[(id, v.denom)] == v.quant
  {
    if keys == [] {
    } else {
      ValuesMembers(table, keys[1..], id, v);
      var k := keys[0];
      assert k == (id, k.1);
      assert keys == [k] + keys[1..];
      assert v in ValuesAt(table, keys) <==> v in ValuesAt(table, keys[1..]) || v == Value(k.1, table[k]);
      assert (id, v.denom) in keys <==> (id, v.denom) in keys[1..] || v.denom == k.1;
    }
  }

  /** The scan lists exactly the entries of id: nothing missing, nothing of anybody else. */
  lemma ListingExact(table: map<Key, real>, id: Id, v: Value)
    ensures v in Listing(table, id) <==> (id, v.denom) in table && table[(id, v.denom)] == v.quant
  {
    var mine := Mine(table, id);
    AscendingElements(mine);
    ValuesMembers(table, Ascending(mine), id, v);
  }

  predicate Distinct(vl: seq<Value>) {
    forall i, j :: 0 <= i < j < |vl| ==> vl[i].denom != vl[j].denom
  }

  lemma {:induction false} AscendingDistinct(keys: set<Key>)
    ensures forall i, j :: 0 <= i < j < |Ascending(keys)| ==> Ascending(keys)[i] != Ascending(keys)[j]
    decreases keys
  {
    if keys == {} {
    } else {
      var rest := keys - {Least(keys)};
      AscendingDistinct(rest);
      AscendingElements(rest);
      var s := Ascending(keys);
      assert forall j :: 0 < j < |s| ==> s[j] == Ascending(rest)[j - 1] && s[j] in Ascending(rest);
    }
  }

  lemma {:induction false} ValuesDistinct(table: map<Key, real>, keys: seq<Key>, id: Id)
    requires forall k :: k in keys ==> k in table && k.0 == id
    requires forall i, j :: 0 <= i < j < |keys| ==> keys[i] != keys[j]
    ensures |ValuesAt(table, keys)| == |keys|
    ensures Distinct(ValuesAt(table, keys))
    ensures forall i :: 0 <= i < |keys| ==> ValuesAt(table, keys)[i].denom == keys[|keys| - 1 - i].1
  {
    if keys == [] {
    } else {
      ValuesDistinct(table, keys[1..], id);
      var vl := ValuesAt(table, keys);
      assert vl[|vl| - 1].denom == keys[0].1;
      forall i | 0 <= i < |vl| - 1
        ensures vl[i].denom == keys[|keys| - 1 - i].1 && vl[i].denom != keys[0].1
      {
        assert vl[i] == ValuesAt(table, keys[1..])[i];
        var j := |keys| - 1 - i;
        assert keys[j] in keys && keys[0] in keys;
        assert keys[j] == (id, keys[j].1) && keys[0] == (id, keys[0].1);
      }
    }
  }

  lemma ListingDistinct(table: map<Key, real>, id: Id)
    ensures Distinct(Listing(table, id))
  {
    var mine := Mine(table, id);
    AscendingElements(mine);
    AscendingDistinct(mine);
    ValuesDistinct(table, Ascending(mine), id);
  }

  lemma {:induction false} AscendingOrder(keys: set<Key>)
    ensures forall i, j :: 0 <= i < j < |Ascending(keys)| ==> Below(Ascending(keys)[i], Ascending(keys)[j])
    decreases keys
  {
    if keys == {} {
    } else {
      var k := Least(keys);
      var rest := keys - {k};
      AscendingOrder(rest);
      AscendingElements(rest);
      hide Below, Raw;
      var s := Ascending(keys);
      assert s == [k] + Ascending(rest);
      forall i, j | 0 <= i < j < |s| ensures Below(s[i], s[j]) {
        assert s[j] == Ascending(rest)[j - 1] && s[j] in rest;
        if i > 0 { assert s[i] == Ascending(rest)[i - 1]; }
      }
    }
  }

  /** The list starts with the last key and goes backwards. */
  lemma ListingOrder(table: map<Key, real>, id: Id)
    ensures
      var vl := Listing(table, id);
      forall i, j :: 0 <= i < j < |vl| ==> Below((id, vl[j].denom), (id, vl[i].denom))
  {
    var mine := Mine(table, id);
    var keys := Ascending(mine);
    AscendingElements(mine);
    AscendingDistinct(mine);
    AscendingOrder(mine);
    ValuesDistinct(table, keys, id);
    hide Below, Mine, Ascending, ValuesAt;
    var vl := ValuesAt(table, keys);
    forall i, j | 0 <= i < j < |vl| ensures Below((id, vl[j].denom), (id, vl[i].denom)) {
      var ki, kj := keys[|keys| - 1 - i], keys[|keys| - 1 - j];
      assert ki in keys && kj in keys;
      assert ki == (id, ki.1) && kj == (id, kj.1);
    }
  }
}
