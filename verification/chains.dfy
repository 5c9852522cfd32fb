/** Scope chains as values: a sequence of binding maps, index 0 the current
    scope and each later index the parent of the one before. The
    environments of value/environment.go and interpreter/environment.go are
    proved against these functions. */
module Chains {
  import opened Types
  import opened Values

  type Scopes = seq<map<string, Value>>

  /** The nearest scope that binds `k`. */
  function Nearest(ms: Scopes, k: string): (r: Option<nat>)
    ensures r.Some? ==> r.value < |ms| && k in ms[r.value]
    ensures r.Some? ==> forall j :: 0 <= j < r.value ==> k !in ms[j]
    ensures r.None? ==> forall j :: 0 <= j < |ms| ==> k !in ms[j]
    decreases |ms|
  {
    if ms == [] then None
    else if k in ms[0] then Some(0)
    else match Nearest(ms[1..], k)
      case None => None
      case Some(i) => Some(i + 1)
  }

  /** The binding of `k` in the nearest scope that has one. */
  function Lookup(ms: Scopes, k: string): Option<Value> {
    match Nearest(ms, k)
    case None => None
    case Some(i) => Some(ms[i][k])
  }

  /** The nearest scope whose binding of `k` is not nil. */
  function NearestNonNull(ms: Scopes, k: string): (r: Option<nat>)
    ensures r.Some? ==> r.value < |ms| && k in ms[r.value] && ms[r.value][k] != Null
    ensures r.Some? ==> forall j :: 0 <= j < r.value ==> k !in ms[j] || ms[j][k] == Null
    ensures r.None? ==> forall j :: 0 <= j < |ms| ==> k !in ms[j] || ms[j][k] == Null
    decreases |ms|
  {
    if ms == [] then None
    else if k in ms[0] && ms[0][k] != Null then Some(0)
    else match NearestNonNull(ms[1..], k)
      case None => None
      case Some(i) => Some(i + 1)
  }

  /** Lookup that skips nil bindings and yields nil when none is left. */
  function LookupNonNull(ms: Scopes, k: string): Value {
    match NearestNonNull(ms, k)
    case None => Null
    case Some(i) => ms[i][k]
  }

  /** The scope an upsert writes: the nearest one binding `k`, else the
      current one. */
  function Target(ms: Scopes, k: string): nat
    requires |ms| > 0
  {
    match Nearest(ms, k)
    case None => 0
    case Some(i) => i
  }

  /** Upsert: replace the nearest binding, else create one in scope 0. */
  function SetSpec(ms: Scopes, k: string, v: Value): Scopes
    requires |ms| > 0
  {
    var t := Target(ms, k);
    ms[t := ms[t][k := v]]
  }

  /** Insert into the current scope only. */
  function InsSpec(ms: Scopes, k: string, v: Value): Scopes
    requires |ms| > 0
  {
    ms[0 := ms[0][k := v]]
  }

  /** Delete from the current scope only. */
  function DelSpec(ms: Scopes, k: string): Scopes
    requires |ms| > 0
  {
    ms[0 := ms[0] - {k}]
  }

  /** The pairs of `data` whose key an upsert in `ms` would write to scope
      `i`. */
  function Added(ms: Scopes, data: map<string, Value>, i: nat): map<string, Value>
    requires |ms| > 0
  {
    map k | k in data && Target(ms, k) == i :: data[k]
  }

  /** The effect of upserting every pair of `data`: each pair lands in the
      scope its key targets in `ms`. */
  function SetAllSpec(ms: Scopes, data: map<string, Value>): Scopes
    requires |ms| > 0
  {
    seq(|ms|, i requires 0 <= i < |ms| => ms[i] + Added(ms, data, i))
  }

  /** `Nearest` finds the first scope binding the key and no other. */
  lemma NearestUnique(ms: Scopes, k: string, i: nat)
    requires i < |ms| && k in ms[i]
    requires forall j :: 0 <= j < i ==> k !in ms[j]
    ensures Nearest(ms, k) == Some(i)
  {
  }

  /** After an upsert the key reads back the new value. */
  lemma SetThenLookup(ms: Scopes, k: string, v: Value)
    requires |ms| > 0
    ensures Lookup(SetSpec(ms, k, v), k) == Some(v)
  {
    var r := SetSpec(ms, k, v);
    var t := Target(ms, k);
    assert forall j :: 0 <= j < t ==> r[j] == ms[j];
    NearestUnique(r, k, t);
  }

  /** An upsert changes no binding of another key. */
  lemma SetOtherKey(ms: Scopes, k: string, k': string, v: Value)
    requires |ms| > 0 && k' != k
    ensures Nearest(SetSpec(ms, k, v), k') == Nearest(ms, k')
    ensures Lookup(SetSpec(ms, k, v), k') == Lookup(ms, k')
  {
    NearestSameKeys(ms, SetSpec(ms, k, v), k');
  }

  /** An upsert writes the nearest scope binding the key and no other
      scope, the current one included; with no binding anywhere it creates
      one in the current scope. */
  lemma SetFrame(ms: Scopes, k: string, v: Value)
    requires |ms| > 0
    ensures |SetSpec(ms, k, v)| == |ms|
    ensures Nearest(ms, k).Some? ==>
      forall j :: 0 <= j < |ms| && j != Nearest(ms, k).value ==> SetSpec(ms, k, v)[j] == ms[j]
    ensures Nearest(ms, k).None? ==>
      SetSpec(ms, k, v)[1..] == ms[1..] && SetSpec(ms, k, v)[0] == ms[0][k := v]
  {
  }

  /** Two scope lists that agree on which scopes hold `k`, and on the
      binding there, agree on `Nearest` and `Lookup`. */
  lemma {:induction false} NearestSameKeys(ms: Scopes, ns: Scopes, k: string)
    requires |ms| == |ns|
    requires forall j :: 0 <= j < |ms| ==> (k in ms[j] <==> k in ns[j])
    requires forall j :: 0 <= j < |ms| && k in ms[j] ==> ms[j][k] == ns[j][k]
    ensures Nearest(ms, k) == Nearest(ns, k)
    ensures Lookup(ms, k) == Lookup(ns, k)
    decreases |ms|
  {
    if ms != [] && k !in ms[0] {
      NearestSameKeys(ms[1..], ns[1..], k);
    }
  }

  /** An insert masks every outer binding of the key and leaves the
      parents as they were. */
  lemma InsMasks(ms: Scopes, k: string, v: Value)
    requires |ms| > 0
    ensures Lookup(InsSpec(ms, k, v), k) == Some(v)
    ensures InsSpec(ms, k, v)[1..] == ms[1..]
    ensures forall k' :: k' != k ==> Lookup(InsSpec(ms, k, v), k') == Lookup(ms, k')
  {
    forall k' | k' != k
      ensures Lookup(InsSpec(ms, k, v), k') == Lookup(ms, k')
    {
      NearestSameKeys(ms, InsSpec(ms, k, v), k');
    }
  }

  /** A delete unmasks the parents' binding of the key; the parents
      themselves are untouched. */
  lemma DelRevealsOuter(ms: Scopes, k: string)
    requires |ms| > 0
    ensures Lookup(DelSpec(ms, k), k) == Lookup(ms[1..], k)
    ensures DelSpec(ms, k)[1..] == ms[1..]
    ensures forall k' :: k' != k ==> Lookup(DelSpec(ms, k), k') == Lookup(ms, k')
  {
    var r := DelSpec(ms, k);
    assert r[1..] == ms[1..];
    assert k !in r[0];
    forall k' | k' != k
      ensures Lookup(DelSpec(ms, k), k') == Lookup(ms, k')
    {
      NearestSameKeys(ms, DelSpec(ms, k), k');
    }
  }

  /** Deleting a key the current scope does not bind changes nothing. */
  lemma DelAbsentNoop(ms: Scopes, k: string)
    requires |ms| > 0 && k !in ms[0]
    ensures DelSpec(ms, k) == ms
  {
    assert ms[0] - {k} == ms[0];
  }

  /** Deleting what was just inserted restores the scopes, when the key was
      not bound in the current scope before. */
  lemma InsThenDel(ms: Scopes, k: string, v: Value)
    requires |ms| > 0 && k !in ms[0]
    ensures DelSpec(InsSpec(ms, k, v), k) == ms
  {
    assert ms[0][k := v] - {k} == ms[0];
  }

  /** An upsert leaves every other key's target scope where it was. */
  lemma SetKeepsTargets(ms: Scopes, k: string, v: Value, k': string)
    requires |ms| > 0 && k' != k
    ensures Target(SetSpec(ms, k, v), k') == Target(ms, k')
  {
    SetOtherKey(ms, k, k', v);
  }

  /** Upserts of distinct keys commute. */
  lemma SetCommutes(ms: Scopes, k1: string, v1: Value, k2: string, v2: Value)
    requires |ms| > 0 && k1 != k2
    ensures SetSpec(SetSpec(ms, k1, v1), k2, v2) == SetSpec(SetSpec(ms, k2, v2), k1, v1)
  {
    var t1, t2 := Target(ms, k1), Target(ms, k2);
    SetKeepsTargets(ms, k1, v1, k2);
    SetKeepsTargets(ms, k2, v2, k1);
    if t1 == t2 {
      assert ms[t1][k1 := v1][k2 := v2] == ms[t1][k2 := v2][k1 := v1];
    }
  }

  lemma AddedStep(ms: Scopes, data: map<string, Value>, k: string, i: nat)
    requires |ms| > 0 && k in data
    ensures Added(SetSpec(ms, k, data[k]), data - {k}, i) == Added(ms, data, i) - {k}
  {
    var ms' := SetSpec(ms, k, data[k]);
    forall k' | k' in data && k' != k
      ensures Target(ms', k') == Target(ms, k')
    {
      SetKeepsTargets(ms, k, data[k], k');
    }
  }

  /** Upserting one pair of `data` and then the rest has the effect of
      upserting all of `data`: the order of the pairs does not matter. */
  lemma SetAllStep(ms: Scopes, data: map<string, Value>, k: string)
    requires |ms| > 0 && k in data
    ensures SetAllSpec(SetSpec(ms, k, data[k]), data - {k}) == SetAllSpec(ms, data)
  {
    var ms' := SetSpec(ms, k, data[k]);
    var rest := data - {k};
    var t := Target(ms, k);
    var lhs := SetAllSpec(ms', rest);
    var rhs := SetAllSpec(ms, data);
    forall i | 0 <= i < |ms|
      ensures lhs[i] == rhs[i]
    {
      AddedStep(ms, data, k, i);
      var a := Added(ms, data, i);
      if i == t {
        assert k in a && a[k] == data[k];
        assert ms[i][k := data[k]] + (a - {k}) == ms[i] + a;
      } else {
        assert k !in a;
        assert a - {k} == a;
      }
    }
  }

  /** Upserting nothing changes nothing. */
  lemma SetAllEmpty(ms: Scopes)
    requires |ms| > 0
    ensures SetAllSpec(ms, map[]) == ms
  {
    assert forall i :: 0 <= i < |ms| ==> SetAllSpec(ms, map[])[i] == ms[i];
  }

  /** Inserting every pair of `data` into the current scope. */
  function InsAllSpec(ms: Scopes, data: map<string, Value>): Scopes
    requires |ms| > 0
  {
    ms[0 := ms[0] + data]
  }

  /** After inserting `data` every key of `data` reads back its value, and
      every other key reads as before. */
  lemma InsAllLookup(ms: Scopes, data: map<string, Value>, k: string)
    requires |ms| > 0
    ensures k in data ==> Lookup(InsAllSpec(ms, data), k) == Some(data[k])
    ensures k !in data ==> Lookup(InsAllSpec(ms, data), k) == Lookup(ms, k)
  {
    if k !in data {
      NearestSameKeys(ms, InsAllSpec(ms, data), k);
    }
  }

  /** A nil binding is found by `Lookup` but skipped by `LookupNonNull`,
      which returns an outer binding instead. */
  lemma NilBindingMasksOnlyForLookup(inner: map<string, Value>, outer: map<string, Value>, k: string)
    requires k in inner && inner[k] == Null
    requires k in outer && outer[k] != Null
    ensures Lookup([inner, outer], k) == Some(Null)
    ensures LookupNonNull([inner, outer], k) == outer[k]
  {
    assert [inner, outer][1..] == [outer];
    assert [outer][1..] == [];
    assert NearestNonNull([outer], k) == Some(0);
  }

  /** A scope that does not bind the key passes the lookup on to the scopes
      behind it. */
  lemma LookupSkip(m: map<string, Value>, ps: Scopes, k: string)
    requires k !in m
    ensures Lookup([m] + ps, k) == Lookup(ps, k)
  {
    assert ([m] + ps)[1..] == ps;
  }

  /** A scope list extended at the root keeps every binding it had. */
  lemma LookupPrefix(ms: Scopes, ns: Scopes, k: string)
    requires Nearest(ms, k).Some?
    ensures Lookup(ms + ns, k) == Lookup(ms, k)
  {
    NearestAppend(ms, ns, k);
  }

  lemma {:induction false} NearestAppend(ms: Scopes, ns: Scopes, k: string)
    requires Nearest(ms, k).Some?
    ensures Nearest(ms + ns, k) == Nearest(ms, k)
    decreases |ms|
  {
    assert ms != [];
    assert (ms + ns)[0] == ms[0];
    if k !in ms[0] {
      assert (ms + ns)[1..] == ms[1..] + ns;
      NearestAppend(ms[1..], ns, k);
    }
  }
}
