/** `interpreter.Environment` (interpreter/environment.go, and the identical
    type in interpreter/interpreter.go): the rewrite's single-namespace scope
    chain. A scope maps symbols to values and has an optional parent;
    `Lookup` walks the parents, `Set` and `Delete` touch the receiver only.

    The parent pointer is never reassigned after `MakeEnvironment`, so it is a
    constant field, and the set of scopes reachable through it is a ghost
    constant. Symbols are modelled by their names; values by the value union
    of module Values. Every operation is proved against the scope-list
    functions of module Chains, index 0 being the receiver. */
module InterpEnv {
  import opened Types
  import opened Values
  import opened Chains

  class Environment {
    var bindings: map<string, Value>
    const parent: Environment?
    ghost const repr: set<object>

    /** `repr` holds the receiver and every scope above it, and the parent
        chain has no cycle. */
    ghost predicate Valid()
      decreases repr
    {
      this in repr &&
      (parent == null ==> repr == {this}) &&
      (parent != null ==>
         parent in repr && parent.repr < repr && this !in parent.repr &&
         repr == {this} + parent.repr && parent.Valid())
    }

    /** The bindings of every scope of the chain, receiver first. */
    ghost function Maps(): (ms: Scopes)
      requires Valid()
      reads repr
      ensures |ms| > 0 && ms[0] == bindings
      decreases repr
    {
      [bindings] + if parent == null then [] else parent.Maps()
    }

    /** `MakeEnvironment`: an empty scope whose parent is `par`, so its scope
        list is an empty map in front of the parent's. */
    constructor (par: Environment?)
      requires par != null ==> par.Valid()
      ensures Valid()
      ensures parent == par && bindings == map[]
      ensures par == null ==> Maps() == [map[]]
      ensures par != null ==> Maps() == [map[]] + par.Maps()
    {
      parent := par;
      bindings := map[];
      repr := if par == null then {this} else {this} + par.repr;
    }

    /** `Lookup`: the receiver's own binding when it has one, otherwise the
        parent's answer, and (nil, false) at the root. So the result is the
        binding of the nearest scope that has the key, ok is false exactly
        when no scope of the chain binds it, and a nil binding is found like
        any other. */
    function Lookup(key: string): (r: (Value, bool))
      requires Valid()
      reads repr
      ensures r.1 <==> Chains.Lookup(Maps(), key).Some?
      ensures r.1 ==> r.0 == Chains.Lookup(Maps(), key).value
      ensures !r.1 ==> r.0 == Null
      decreases repr
    {
      if key in bindings then
        NearestUnique(Maps(), key, 0);
        (bindings[key], true)
      else if parent != null then
        LookupSkip(bindings, parent.Maps(), key);
        parent.Lookup(key)
      else
        LookupSkip(bindings, [], key);
        (Null, false)
    }

    /** The receiver's own binding wins over every parent. */
    lemma LookupCurrent(key: string)
      requires Valid() && key in bindings
      ensures Lookup(key) == (bindings[key], true)
    {
      NearestUnique(Maps(), key, 0);
    }

    /** Without an own binding the answer is the parent's. */
    lemma LookupDelegates(key: string)
      requires Valid() && key !in bindings && parent != null
      ensures Lookup(key) == parent.Lookup(key)
    {
      LookupSkip(bindings, parent.Maps(), key);
    }

    /** A key that no scope of the chain binds is reported as (nil, false). */
    lemma LookupNotFound(key: string)
      requires Valid()
      requires forall j :: 0 <= j < |Maps()| ==> key !in Maps()[j]
      ensures Lookup(key) == (Null, false)
    {
    }

    /** `Set`: binds the key in the receiver, replacing any binding the
        receiver had; no parent changes. */
    method Set(key: string, val: Value)
      requires Valid()
      modifies this
      ensures Valid()
      ensures Maps() == InsSpec(old(Maps()), key, val)
    {
      bindings := bindings[key := val];
    }

    /** `Delete`: removes the key from the receiver only; the parents'
        bindings stay as they were. */
    method Delete(key: string)
      requires Valid()
      modifies this
      ensures Valid()
      ensures Maps() == DelSpec(old(Maps()), key)
    {
      bindings := bindings - {key};
    }
  }

  /** After `Set`, the key reads back the new value, outer bindings of it
      are masked, and every other key is looked up as before. */
  lemma SetMasksParent(e: Environment, key: string, val: Value, before: Scopes)
    requires e.Valid() && |before| > 0
    requires e.Maps() == InsSpec(before, key, val)
    ensures e.Lookup(key) == (val, true)
    ensures forall k :: k != key ==> e.Lookup(k).1 == Chains.Lookup(before, k).Some?
    ensures forall k :: k != key && e.Lookup(k).1 ==> e.Lookup(k).0 == Chains.Lookup(before, k).value
  {
    InsMasks(before, key, val);
  }

  /** After `Delete`, the key is looked up in the parents alone (not found
      at the root), and every other key is looked up as before; deleting an
      absent key changes nothing. */
  lemma DeleteRevealsParent(e: Environment, key: string, before: Scopes)
    requires e.Valid() && |before| > 0
    requires e.Maps() == DelSpec(before, key)
    ensures e.Lookup(key).1 <==> Chains.Lookup(before[1..], key).Some?
    ensures e.Lookup(key).1 ==> e.Lookup(key).0 == Chains.Lookup(before[1..], key).value
    ensures forall k :: k != key ==> e.Lookup(k).1 == Chains.Lookup(before, k).Some?
    ensures key !in before[0] ==> e.Maps() == before
  {
    DelRevealsOuter(before, key);
    if key !in before[0] {
      DelAbsentNoop(before, key);
    }
  }
}
