/** Metadata policy: operators that change a metadata object parameter by parameter and then check the
    result. */
module MetadataPolicy {
  import opened Text
  import opened Json

  function AsArray(v: Json): seq<Json> { if v.Arr? then v.items else [v] }

  /** Appends the items that are not there yet. */
  function Added(arr: seq<Json>, items: seq<Json>): (r: seq<Json>)
    ensures arr <= r
    ensures forall v :: v in r <==> v in arr || v in items
    decreases items
  {
    if items == [] then arr
    else
      var n := |items| - 1;
      var r := Added(arr, items[..n]);
      assert items == items[..n] + [items[n]];
      if items[n] in r then r else r + [items[n]]
  }

  method AddMissing(arr: seq<Json>, items: seq<Json>) returns (r: seq<Json>)
    ensures r == Added(arr, items)
  {
    r := arr;
    for i := 0 to |items|
      invariant r == Added(arr, items[..i])
    {
      assert items[..i + 1][..i] == items[..i];
      if items[i] !in r {
        r := r + [items[i]];
      }
    }
    assert items[..|items|] == items;
  }

  function Forced(current: Option<Json>, ops: map<string, Json>): Option<Json> {
    if "value" in ops then Some(ops["value"]) else current
  }

  function Defaulted(current: Option<Json>, ops: map<string, Json>): Option<Json> {
    if current.None? && "default" in ops then Some(ops["default"]) else current
  }

  function Extended(current: Option<Json>, ops: map<string, Json>): Option<Json> {
    if "add" !in ops then current
    else
      var base := if current.None? then Arr([]) else current.value;
      if base.Arr? then Some(Arr(Added(base.items, AsArray(ops["add"])))) else Some(base)
  }

  /** The value after `value`, `default` and `add`, in that order. */
  function Modified(current: Option<Json>, ops: map<string, Json>): Option<Json> {
    Extended(Defaulted(Forced(current, ops), ops), ops)
  }

  // ---- Constraints ----------------------------------------------------------------

  predicate EssentialHolds(v: Option<Json>, ops: map<string, Json>) {
    "essential" in ops && ops["essential"] == Bool(true) ==> v.Some?
  }

  predicate OneOfHolds(v: Option<Json>, ops: map<string, Json>) {
    "one_of" in ops && v.Some? ==> v.value in AsArray(ops["one_of"])
  }

  predicate SubsetHolds(v: Option<Json>, ops: map<string, Json>) {
    "subset_of" in ops && v.Some? ==> forall x :: x in AsArray(v.value) ==> x in AsArray(ops["subset_of"])
  }

  predicate SupersetHolds(v: Option<Json>, ops: map<string, Json>) {
    "superset_of" in ops ==> forall x :: x in AsArray(ops["superset_of"]) ==> v.Some? && x in AsArray(v.value)
  }

  predicate Meets(v: Option<Json>, ops: map<string, Json>) {
    EssentialHolds(v, ops) && OneOfHolds(v, ops) && SubsetHolds(v, ops) && SupersetHolds(v, ops)
  }

  // ---- A whole policy ----------------------------------------------------------------

  function ModifiedAt(m: map<string, Json>, policy: map<string, Json>, p: string): Option<Json> {
    if p in policy && policy[p].Obj? then Modified(Get(m, p), policy[p].fields) else Get(m, p)
  }

  predicate OkAt(m: map<string, Json>, policy: map<string, Json>, p: string)
    requires p in policy
  {
    policy[p].Obj? && Meets(ModifiedAt(m, policy, p), policy[p].fields)
  }

  ghost predicate Succeeds(m: map<string, Json>, policy: map<string, Json>) {
    forall p :: p in policy ==> OkAt(m, policy, p)
  }

  /** `r` is `m` with the parameters in `done` modified. */
  ghost predicate ModifiedOn(m: map<string, Json>, policy: map<string, Json>, done: set<string>, r: map<string, Json>) {
    forall q :: Get(r, q) == if q in done then ModifiedAt(m, policy, q) else Get(m, q)
  }

  ghost predicate Enumerates(order: seq<string>, policy: map<string, Json>) {
    && (forall p :: p in policy <==> p in order)
    && (forall i, j :: 0 <= i < j < |order| ==> order[i] != order[j])
  }

  ghost function Firsts(order: seq<string>, k: nat): set<string>
    requires k <= |order|
  {
    set p | p in order[..k]
  }

  class Metadata {
    var params: map<string, Json>

    constructor (params: map<string, Json>)
      ensures this.params == params
    {
      this.params := params;
    }

    /** The changing operators of one parameter. */
    method ChangeParam(p: string, ops: map<string, Json>)
      modifies this
      ensures Get(params, p) == Modified(old(Get(params, p)), ops)
      ensures forall q :: q != p ==> Get(params, q) == old(Get(params, q))
    {
      if "value" in ops {
        params := params[p := ops["value"]];
      }
      if "default" in ops && p !in params {
        params := params[p := ops["default"]];
      }
      if "add" in ops {
        if p !in params {
          params := params[p := Arr([])];
        }
        var entry := params[p];
        if entry.Arr? {
          var items := AddMissing(entry.items, AsArray(ops["add"]));
          params := params[p := Arr(items)];
        }
      }
    }

    method CheckOneOf(p: string, ops: map<string, Json>) returns (ok: bool)
      ensures ok <==> OneOfHolds(Get(params, p), ops)
    {
      if "one_of" in ops && p in params {
        return params[p] in AsArray(ops["one_of"]);
      }
      return true;
    }

    method CheckSubset(p: string, ops: map<string, Json>) returns (ok: bool)
      ensures ok <==> SubsetHolds(Get(params, p), ops)
    {
      if "subset_of" in ops && p in params {
        var allowed, current := AsArray(ops["subset_of"]), AsArray(params[p]);
        for i := 0 to |current|
          invariant forall j :: 0 <= j < i ==> current[j] in allowed
        {
          if current[i] !in allowed {
            return false;
          }
        }
      }
      return true;
    }

    method CheckSuperset(p: string, ops: map<string, Json>) returns (ok: bool)
      ensures ok <==> SupersetHolds(Get(params, p), ops)
    {
      if "superset_of" in ops {
        var required := AsArray(ops["superset_of"]);
        var current := if p in params then AsArray(params[p]) else [];
        for i := 0 to |required|
          invariant forall j :: 0 <= j < i ==> required[j] in current
        {
          assert required[i] in required;
          if required[i] !in current {
            return false;
          }
        }
      }
      return true;
    }

    method CheckParam(p: string, ops: map<string, Json>) returns (ok: bool)
      ensures ok <==> Meets(Get(params, p), ops)
    {
      if "essential" in ops && ops["essential"] == Bool(true) && p !in params {
        return false;
      }
      var oneOf := CheckOneOf(p, ops);
      var subset := CheckSubset(p, ops);
      var superset := CheckSuperset(p, ops);
      return oneOf && subset && superset;
    }

    /** Applies the policy in whatever order its parameters are enumerated. On failure the parameters up
        to the failing one have been changed. */
    method ApplyPolicy(policy: map<string, Json>, order: seq<string>) returns (ok: bool)
      requires Enumerates(order, policy)
      modifies this
      ensures ok <==> Succeeds(old(params), policy)
      ensures ok ==> ModifiedOn(old(params), policy, policy.Keys, params)
      ensures !ok ==> exists k :: 0 <= k < |order| && !OkAt(old(params), policy, order[k])
                                  && (forall j :: 0 <= j < k ==> OkAt(old(params), policy, order[j]))
                                  && ModifiedOn(old(params), policy, Firsts(order, k + 1), params)
    {
      ghost var before := params;
      for i := 0 to |order|
        invariant ModifiedOn(before, policy, Firsts(order, i), params)
        invariant forall j :: 0 <= j < i ==> OkAt(before, policy, order[j])
      {
        var p := order[i];
        FirstsStep(order, i);
        if !policy[p].Obj? {
          assert !OkAt(before, policy, order[i]);
          return false;
        }
        var ops := policy[p].fields;
        assert Get(params, p) == Get(before, p);
        ChangeParam(p, ops);
        assert ModifiedOn(before, policy, Firsts(order, i + 1), params);
        var met := CheckParam(p, ops);
        if !met {
          assert !OkAt(before, policy, order[i]);
          return false;
        }
      }
      assert order[..|order|] == order;
      assert Firsts(order, |order|) == policy.Keys;
      return true;
    }
  }

  lemma FirstsStep(order: seq<string>, i: nat)
    requires i < |order| && forall a, b :: 0 <= a < b < |order| ==> order[a] != order[b]
    ensures Firsts(order, i + 1) == Firsts(order, i) + {order[i]} && order[i] !in Firsts(order, i)
  {
    assert order[..i + 1] == order[..i] + [order[i]];
  }

  // ---- What a successful application establishes ------------------------------------------

  /** `m` is accepted under the policy and becomes `r`. */
  ghost predicate Applies(m: map<string, Json>, policy: map<string, Json>, r: map<string, Json>) {
    Succeeds(m, policy) && ModifiedOn(m, policy, policy.Keys, r)
  }

  /** The outcome is a function of the metadata and the policy alone: enumeration order is irrelevant. */
  lemma OutcomeUnique(m: map<string, Json>, policy: map<string, Json>, a: map<string, Json>, b: map<string, Json>)
    requires Applies(m, policy, a) && Applies(m, policy, b)
    ensures a == b
  {
    SameGets(a, b);
  }

  /** Every constraint of the policy holds of the result, forced values are there, and nothing outside
      the policy has changed. */
  lemma ConstraintsHold(m: map<string, Json>, policy: map<string, Json>, r: map<string, Json>, p: string)
    requires Applies(m, policy, r)
    ensures p !in policy ==> (p in r <==> p in m) && (p in m ==> r[p] == m[p])
    ensures p in policy ==> policy[p].Obj? && Meets(Get(r, p), policy[p].fields)
    ensures p in policy && "value" in policy[p].fields && "add" !in policy[p].fields ==>
            Get(r, p) == Some(policy[p].fields["value"])
    ensures p in policy && "value" !in policy[p].fields && "add" !in policy[p].fields ==>
              Get(r, p) == if p in m || "default" !in policy[p].fields then Get(m, p)
              else Some(policy[p].fields["default"])
    ensures p in policy && "add" in policy[p].fields ==>
              p in r && (r[p].Arr? ==> forall v :: v in AsArray(policy[p].fields["add"]) ==> v in r[p].items)
  {
    assert Get(r, p) == if p in policy then ModifiedAt(m, policy, p) else Get(m, p);
    if p in policy { assert OkAt(m, policy, p); }
  }

  lemma {:induction false} AddedTwice(arr: seq<Json>, items: seq<Json>)
    requires forall v :: v in items ==> v in arr
    ensures Added(arr, items) == arr
    decreases items
  {
    if items != [] {
      var n := |items| - 1;
      assert items == items[..n] + [items[n]];
      AddedTwice(arr, items[..n]);
    }
  }

  lemma ExtendedTwice(v: Option<Json>, ops: map<string, Json>)
    ensures Extended(Extended(v, ops), ops) == Extended(v, ops)
  {
    if "add" in ops {
      var base := if v.None? then Arr([]) else v.value;
      if base.Arr? {
        AddedTwice(Added(base.items, AsArray(ops["add"])), AsArray(ops["add"]));
      }
    }
  }

  /** The changing operators are idempotent on each parameter. */
  lemma ModifiedTwice(v: Option<Json>, ops: map<string, Json>)
    ensures Modified(Modified(v, ops), ops) == Modified(v, ops)
  {
    var d := Defaulted(Forced(v, ops), ops);
    ExtendedTwice(d, ops);
  }

  /** Applying the same policy to the result succeeds and changes nothing. */
  lemma PolicyIdempotent(m: map<string, Json>, policy: map<string, Json>, r: map<string, Json>)
    requires Applies(m, policy, r)
    ensures Applies(r, policy, r)
  {
    forall q ensures ModifiedAt(r, policy, q) == Get(r, q) {
      assert Get(r, q) == if q in policy then ModifiedAt(m, policy, q) else Get(m, q);
      if q in policy && policy[q].Obj? { ModifiedTwice(Get(m, q), policy[q].fields); }
    }
    forall p | p in policy ensures OkAt(r, policy, p) {
      assert OkAt(m, policy, p);
      assert Get(r, p) == ModifiedAt(m, policy, p);
    }
  }

  /** The values a JSON value stands for in a list operator. */
  ghost predicate Lists(v: Json, x: Json) { if v.Arr? then x in v.items else x == v }

  /** What the operators of one parameter demand of its value in the result, if it has one. */
  ghost predicate Demands(ops: map<string, Json>, value: Option<Json>) {
    && ("essential" in ops && ops["essential"] == Bool(true) ==> value.Some?)
    && ("one_of" in ops && value.Some? ==> Lists(ops["one_of"], value.value))
    && ("subset_of" in ops && value.Some? ==> forall x :: Lists(value.value, x) ==> Lists(ops["subset_of"], x))
    && ("superset_of" in ops ==>
          forall x :: Lists(ops["superset_of"], x) ==> value.Some? && Lists(value.value, x))
  }

  lemma DemandsExactly(ops: map<string, Json>, value: Option<Json>)
    ensures Meets(value, ops) <==> Demands(ops, value)
  {
    forall v, x ensures Lists(v, x) <==> x in AsArray(v) {}
  }

  /** The value the operators give to a parameter: a forced one, or else the old one, or else the default; with
      the added values that were missing put at the end of a list. */
  ghost predicate Results(ops: map<string, Json>, former: Option<Json>, value: Option<Json>) {
    var base := if "value" in ops then Some(ops["value"])
                else if former.Some? then former
                else if "default" in ops then Some(ops["default"])
                else None;
    if "add" !in ops then value == base
    else if base.Some? && !base.value.Arr? then value == base
    else
      var items := if base.Some? then base.value.items else [];
      && value.Some? && value.value.Arr? && items <= value.value.items
      && (forall x :: x in value.value.items <==> x in items || Lists(ops["add"], x))
      && EachNew(items, value.value.items)
  }

  /** Everything after `arr` differs from all that comes before it. */
  ghost predicate EachNew(arr: seq<Json>, r: seq<Json>) {
    forall i :: |arr| <= i < |r| ==> r[i] !in r[..i]
  }

  lemma {:induction false} AddedDistinct(arr: seq<Json>, items: seq<Json>)
    ensures EachNew(arr, Added(arr, items))
    decreases items
  {
    if items != [] {
      var n := |items| - 1;
      var before, after := Added(arr, items[..n]), Added(arr, items);
      AddedDistinct(arr, items[..n]);
      forall i | |arr| <= i < |after| ensures after[i] !in after[..i] {
        if i < |before| {
          assert after[..i] == before[..i] && after[i] == before[i];
        } else {
          assert after[..i] == before;
        }
      }
    }
  }

  lemma ResultsExactly(ops: map<string, Json>, former: Option<Json>)
    ensures Results(ops, former, Modified(former, ops))
  {
    var base := Defaulted(Forced(former, ops), ops);
    if "add" in ops && (base.None? || base.value.Arr?) {
      var items := if base.None? then [] else base.value.items;
      AddedDistinct(items, AsArray(ops["add"]));
    }
  }

  /** A policy is applied exactly when every parameter has an object of operators whose demands its resulting
      value meets; and then every parameter has that value and no other changes. */
  lemma AppliedExactly(m: map<string, Json>, policy: map<string, Json>, r: map<string, Json>)
    ensures Succeeds(m, policy) <==>
            forall p :: p in policy ==>
              policy[p].Obj? && Demands(policy[p].fields, Modified(Get(m, p), policy[p].fields))
    ensures Applies(m, policy, r) ==>
              forall p ::
                if p in policy then Results(policy[p].fields, Get(m, p), Get(r, p))
                   && Demands(policy[p].fields, Get(r, p))
                else Get(r, p) == Get(m, p)
  {
    forall p | p in policy && policy[p].Obj? {
      DemandsExactly(policy[p].fields, Modified(Get(m, p), policy[p].fields));
    }
    if Applies(m, policy, r) {
      forall p
        ensures if p in policy then Results(policy[p].fields, Get(m, p), Get(r, p))
                && Demands(policy[p].fields, Get(r, p))
                else Get(r, p) == Get(m, p)
      {
        if p in policy {
          assert OkAt(m, policy, p) && Get(r, p) == ModifiedAt(m, policy, p);
          ResultsExactly(policy[p].fields, Get(m, p));
          DemandsExactly(policy[p].fields, Get(r, p));
        }
      }
    }
  }
}
