/** bif/shell.cc: how the commands credit, debit and note_withdraw gather their value arguments into one
    list with an entry per denomination. */
module Merge {
  import opened Text
  import opened Portfolio
  import opened KeyScan
  import opened Conservation

  predicate Has(vl: seq<Value>, d: Id) { exists i :: 0 <= i < |vl| && vl[i].denom == d }

  /** v added to the first entry of its denomination. */
  function AddTo(vl: seq<Value>, v: Value): seq<Value> {
    if vl == [] then []
    else if vl[0].denom == v.denom then [Value(v.denom, vl[0].quant + v.quant)] + vl[1..]
    else [vl[0]] + AddTo(vl[1..], v)
  }

  function MergeOne(vl: seq<Value>, v: Value): seq<Value> {
    if Has(vl, v.denom) then AddTo(vl, v) else [v] + vl
  }

  /** None: an argument that is no value, or not a positive one. */
  function Gather(vl: seq<Value>, args: seq<CString>): Option<seq<Value>>
    decreases |args|
  {
    if args == [] then Some(vl)
    else
      match StringToValue(args[0])
      case None => None
      case Some(v) => if v.quant <= 0.0 then None else Gather(MergeOne(vl, v), args[1..])
  }

  /** The loop of the three commands. */
  method ParseValues(args: seq<CString>) returns (r: Option<seq<Value>>)
    ensures r == Gather([], args)
  {
    var vl: seq<Value> := [];
    var i := 0;
    while i < |args|
      invariant i <= |args|
      invariant Gather([], args) == Gather(vl, args[i..])
    {
      var v := StringToValue(args[i]);
      if v.None? || v.value.quant <= 0.0 { return None; }
      vl := Place(vl, v.value);
      i := i + 1;
    }
    r := Some(vl);
  }

  /** The inner loop: look for an entry of the same denomination behind the new one. */
  method Place(vl: seq<Value>, v: Value) returns (r: seq<Value>)
    ensures r == MergeOne(vl, v)
  {
    var j := 0;
    while j < |vl|
      invariant j <= |vl|
      invariant forall k :: 0 <= k < j ==> vl[k].denom != v.denom
    {
      if vl[j].denom == v.denom {
        AddToAt(vl, v, j);
        return vl[j := Value(v.denom, vl[j].quant + v.quant)];
      }
      j := j + 1;
    }
    r := [v] + vl;
  }

  lemma {:induction false} AddToAt(vl: seq<Value>, v: Value, j: nat)
    requires j < |vl| && vl[j].denom == v.denom
    requires forall k :: 0 <= k < j ==> vl[k].denom != v.denom
    ensures AddTo(vl, v) == vl[j := Value(v.denom, vl[j].quant + v.quant)]
    decreases j
  {
    assert vl == [vl[0]] + vl[1..];
    if j == 0 {
    } else {
      AddToAt(vl[1..], v, j - 1);
    }
  }

  predicate AllPositive(vl: seq<Value>) { forall v :: v in vl ==> v.quant > 0.0 }

  lemma {:induction false} AddToKeeps(vl: seq<Value>, v: Value)
    requires AllPositive(vl) && v.quant > 0.0
    ensures |AddTo(vl, v)| == |vl| && AllPositive(AddTo(vl, v))
    ensures forall i :: 0 <= i < |vl| ==> AddTo(vl, v)[i].denom == vl[i].denom
    decreases |vl|
  {
    if vl == [] {
    } else {
      assert forall x :: x in vl[1..] ==> x in vl;
      AddToKeeps(vl[1..], v);
    }
  }

  lemma {:induction false} AddToTotal(vl: seq<Value>, v: Value, d: Id)
    requires Has(vl, v.denom)
    ensures Total(AddTo(vl, v), d) == Total(vl, d) + Of(v, d)
    decreases |vl|
  {
    var t, r := vl[1..], AddTo(vl, v);
    if vl[0].denom == v.denom {
      assert r[1..] == t;
    } else {
      assert r[1..] == AddTo(t, v);
      var i :| 0 <= i < |vl| && vl[i].denom == v.denom;
      assert t[i - 1].denom == v.denom;
      AddToTotal(t, v, d);
    }
  }

  lemma MergeOneFacts(vl: seq<Value>, v: Value, d: Id)
    requires Distinct(vl) && AllPositive(vl) && v.quant > 0.0
    ensures Distinct(MergeOne(vl, v)) && AllPositive(MergeOne(vl, v))
    ensures Total(MergeOne(vl, v), d) == Total(vl, d) + Of(v, d)
  {
    if Has(vl, v.denom) {
      AddToKeeps(vl, v);
      AddToTotal(vl, v, d);
    } else {
      assert ([v] + vl)[1..] == vl;
    }
  }

  /** An argument the commands accept. */
  predicate Acceptable(arg: CString) { StringToValue(arg).Some? && StringToValue(arg).value.quant > 0.0 }

  /** What the arguments say about one denomination. */
  function ArgsTotal(args: seq<CString>, d: Id): real {
    if args == [] then 0.0 else OfArg(args[0], d) + ArgsTotal(args[1..], d)
  }

  function OfArg(arg: CString, d: Id): real {
    match StringToValue(arg)
    case None => 0.0
    case Some(v) => Of(v, d)
  }

  lemma {:induction false} GatherFrom(vl: seq<Value>, args: seq<CString>, d: Id)
    requires Distinct(vl) && AllPositive(vl)
    ensures Gather(vl, args).Some? <==> forall x :: x in args ==> Acceptable(x)
    ensures Gather(vl, args).Some? ==>
      var r := Gather(vl, args).value;
      Distinct(r) && AllPositive(r) && Total(r, d) == Total(vl, d) + ArgsTotal(args, d)
    decreases |args|
  {
    hide StringToValue, MergeOne, Distinct;
    if args == [] {
    } else {
      assert args == [args[0]] + args[1..];
      if Acceptable(args[0]) {
        var v := StringToValue(args[0]).value;
        MergeOneFacts(vl, v, d);
        GatherFrom(MergeOne(vl, v), args[1..], d);
      }
    }
  }

  /** The list has one entry per denomination, all positive, with the same sum per denomination as the
      arguments; it exists exactly when every argument is a positive value. */
  lemma Gathered(args: seq<CString>, d: Id)
    ensures Gather([], args).Some? <==> forall x :: x in args ==> Acceptable(x)
    ensures Gather([], args).Some? ==>
      var r := Gather([], args).value;
      Distinct(r) && AllPositive(r) && Total(r, d) == ArgsTotal(args, d)
  {
    GatherFrom([], args, d);
  }

  /** In a list without repeated denominations the total is the one entry. */
  lemma {:induction false} DistinctTotal(vl: seq<Value>, d: Id)
    requires Distinct(vl)
    ensures !Has(vl, d) ==> Total(vl, d) == 0.0
    ensures forall i :: 0 <= i < |vl| && vl[i].denom == d ==> Total(vl, d) == vl[i].quant
  {
    if vl == [] {
    } else {
      var t := vl[1..];
      DistinctTotal(t, d);
      forall i | 0 <= i < |vl| && vl[i].denom == d
        ensures Total(vl, d) == vl[i].quant
      {
        if i > 0 {
          assert t[i - 1] == vl[i];
        } else {
          assert forall j :: 0 <= j < |t| ==> t[j] == vl[j + 1];
          assert !Has(t, d);
        }
      }
      if !Has(vl, d) {
        assert vl[0].denom != d;
        assert forall j :: 0 <= j < |t| ==> t[j] == vl[j + 1];
        assert !Has(t, d);
      }
    }
  }

  // ---------- the order of the list ----------

  function Denoms(vl: seq<Value>): seq<Id> { seq(|vl|, i requires 0 <= i < |vl| => vl[i].denom) }

  /** The denominations of the arguments, each where it comes first. */
  function FirstSeen(args: seq<CString>): seq<Id> {
    if args == [] then []
    else
      var seen := FirstSeen(args[..|args| - 1]);
      match StringToValue(args[|args| - 1])
      case None => seen
      case Some(v) => if v.denom in seen then seen else seen + [v.denom]
  }

  lemma {:induction false} GatherSnoc(vl: seq<Value>, args: seq<CString>, x: CString)
    requires Gather(vl, args + [x]).Some?
    ensures Gather(vl, args).Some? && Acceptable(x)
    ensures Gather(vl, args + [x]) == Some(MergeOne(Gather(vl, args).value, StringToValue(x).value))
    decreases |args|
  {
    hide StringToValue, MergeOne;
    if args == [] {
      assert (args + [x])[1..] == [];
    } else {
      assert (args + [x])[1..] == args[1..] + [x];
      GatherSnoc(MergeOne(vl, StringToValue(args[0]).value), args[1..], x);
    }
  }

  lemma {:induction false} ReverseMembers(l: seq<Id>)
    ensures forall d :: d in Reverse(l) <==> d in l
  {
    if l == [] {
    } else {
      ReverseMembers(l[1..]);
      assert l == [l[0]] + l[1..];
    }
  }

  lemma DenomsOfMerge(vl: seq<Value>, v: Value)
    requires AllPositive(vl) && v.quant > 0.0
    ensures Denoms(MergeOne(vl, v)) == if v.denom in Denoms(vl) then Denoms(vl) else [v.denom] + Denoms(vl)
  {
    assert forall i :: 0 <= i < |vl| ==> Denoms(vl)[i] == vl[i].denom;
    assert Has(vl, v.denom) <==> v.denom in Denoms(vl);
    if Has(vl, v.denom) { AddToKeeps(vl, v); }
  }

  /** A denomination that comes up later stands further in front, wherever it comes up again. */
  lemma {:induction false} GatheredOrder(args: seq<CString>)
    requires Gather([], args).Some?
    ensures Denoms(Gather([], args).value) == Reverse(FirstSeen(args))
    decreases |args|
  {
    hide StringToValue, MergeOne, Gather;
    if args == [] {
      assert Gather([], args) == Some([]) by { NothingGathered(); }
    } else {
      var front, x := args[..|args| - 1], args[|args| - 1];
      assert args == front + [x];
      GatherSnoc([], front, x);
      GatheredOrder(front);
      Gathered(front, "");
      DenomsOfMerge(Gather([], front).value, StringToValue(x).value);
      ReverseMembers(FirstSeen(front));
      ReverseSnoc(FirstSeen(front), StringToValue(x).value.denom);
    }
  }

  lemma NothingGathered()
    ensures Gather([], []) == Some([])
  {}
}
