/** `value.Environment` (value/environment.go): a lexical scope with three
    namespaces (data, functions, macros) and a parent pointer. Lookups walk
    the parent chain; `Ins`/`Del` touch the current scope only; `Set` updates
    the nearest scope that already binds the key, else the current one.

    The parent and the level never change after construction, so they are
    constant fields here, and `ancestors` (the parents, nearest first) is a
    ghost constant. Each method is proved against the scope-list functions
    of module Chains, applied to the chain's maps, index 0 the receiver. */
module ValueEnv {
  import opened Types
  import opened Values
  import opened Chains

  class Environment {
    var data: map<string, Value>
    var functions: map<string, Value>   // Function values, or Go nil
    var macros: map<string, Value>      // *Macro values, or Go nil
    const parent: Environment?
    const level: int
    ghost const ancestors: seq<Environment>

    /** The receiver followed by its ancestors. */
    ghost function Chain(): seq<Environment> {
      [this] + ancestors
    }

    /** The ancestors are the parent and its ancestors, none of them the
        receiver, and each scope is one level deeper than its parent. */
    ghost predicate Valid()
      decreases |ancestors|
    {
      if parent == null then ancestors == [] && level == 0
      else
        ancestors == [parent] + parent.ancestors && this !in ancestors &&
        level == parent.level + 1 && parent.Valid()
    }

    ghost function DataMaps(): Scopes
      reads Chain()
    {
      seq(|Chain()|, i requires 0 <= i < |Chain()| reads Chain() => Chain()[i].data)
    }

    ghost function FnMaps(): Scopes
      reads Chain()
    {
      seq(|Chain()|, i requires 0 <= i < |Chain()| reads Chain() => Chain()[i].functions)
    }

    ghost function MacroMaps(): Scopes
      reads Chain()
    {
      seq(|Chain()|, i requires 0 <= i < |Chain()| reads Chain() => Chain()[i].macros)
    }

    /** Following `parent` from the receiver visits the chain in order; the
        scopes of a chain are pairwise distinct. */
    lemma ChainLinks()
      requires Valid()
      ensures forall i :: 0 <= i < |Chain()| ==> Chain()[i].Valid()
      ensures forall i :: 0 <= i < |Chain()| - 1 ==> Chain()[i].parent == Chain()[i + 1]
      ensures Chain()[|Chain()| - 1].parent == null
      ensures forall i, j :: 0 <= i < j < |Chain()| ==> Chain()[i] != Chain()[j]
      decreases |ancestors|
    {
      if parent != null {
        parent.ChainLinks();
        assert Chain() == [this] + parent.Chain();
      }
    }

    /** One step up the chain from scope `i`. */
    lemma ChainStep(i: nat)
      requires Valid() && i < |Chain()|
      ensures Chain()[i].parent == null <==> i + 1 == |Chain()|
      ensures i + 1 < |Chain()| ==> Chain()[i].parent == Chain()[i + 1]
    {
      ChainLinks();
      if i + 1 < |Chain()| {
        assert Chain()[i].parent == Chain()[i + 1];
      }
    }

    /** `NewEnvironment`: empty maps, Level 0 without a parent and one more
        than the parent's otherwise. */
    constructor (parent: Environment?)
      requires parent != null ==> parent.Valid()
      ensures Valid()
      ensures this.parent == parent
      ensures data == map[] && functions == map[] && macros == map[]
      ensures parent == null ==> level == 0 && Chain() == [this]
      ensures parent != null ==> level == parent.level + 1 && Chain() == [this] + parent.Chain()
    {
      this.parent := parent;
      data := map[];
      functions := map[];
      macros := map[];
      if parent == null {
        level := 0;
        ancestors := [];
      } else {
        level := parent.level + 1;
        ancestors := [parent] + parent.ancestors;
      }
    }

    /** `Get`: the binding in the nearest scope that has the key, with ok
        true even when the bound value is nil; (nil, false) when no scope
        binds it. */
    method Get(key: string) returns (val: Value, ok: bool)
      requires Valid()
      ensures ok <==> Lookup(DataMaps(), key).Some?
      ensures ok ==> val == Lookup(DataMaps(), key).value
      ensures !ok ==> val == Null
    {
      ChainLinks();
      var e: Environment? := this;
      ghost var i := 0;
      while e != null
        invariant 0 <= i <= |Chain()|
        invariant e == null <==> i == |Chain()|
        invariant e != null ==> e == Chain()[i]
        invariant forall j :: 0 <= j < i ==> key !in DataMaps()[j]
        decreases |Chain()| - i
      {
        if key in e.data {
          NearestUnique(DataMaps(), key, i);
          return e.data[key], true;
        }
        ChainStep(i);
        e := e.parent;
        i := i + 1;
      }
      return Null, false;
    }

    /** `Set`: overwrites the nearest existing binding, wherever it is in the
        chain, else creates the key in the receiver; returns the receiver. */
    method Set(key: string, val: Value) returns (r: Environment)
      requires Valid()
      modifies Chain()
      ensures r == this
      ensures DataMaps() == SetSpec(old(DataMaps()), key, val)
      ensures FnMaps() == old(FnMaps()) && MacroMaps() == old(MacroMaps())
    {
      ChainLinks();
      var e: Environment? := this;
      ghost var i := 0;
      while e != null
        invariant 0 <= i <= |Chain()|
        invariant e == null <==> i == |Chain()|
        invariant e != null ==> e == Chain()[i]
        invariant forall j :: 0 <= j < i ==> key !in DataMaps()[j]
        invariant DataMaps() == old(DataMaps())
        invariant FnMaps() == old(FnMaps()) && MacroMaps() == old(MacroMaps())
        decreases |Chain()| - i
      {
        if key in e.data {
          NearestUnique(DataMaps(), key, i);
          assert Chain()[i] in Chain();
          e.data := e.data[key := val];
          return this;
        }
        ChainStep(i);
        e := e.parent;
        i := i + 1;
      }
      assert Chain()[0] in Chain();
      data := data[key := val];
      return this;
    }

    /** `Ins`: binds the key in the receiver only, masking outer bindings. */
    method Ins(key: string, val: Value) returns (r: Environment)
      requires Valid()
      modifies this
      ensures r == this
      ensures DataMaps() == InsSpec(old(DataMaps()), key, val)
      ensures FnMaps() == old(FnMaps()) && MacroMaps() == old(MacroMaps())
    {
      ChainLinks();
      data := data[key := val];
      return this;
    }

    /** `Del`: removes the key from the receiver only; deleting an absent
        key is not an error. */
    method Del(key: string) returns (r: Environment)
      requires Valid()
      modifies this
      ensures r == this
      ensures DataMaps() == DelSpec(old(DataMaps()), key)
      ensures FnMaps() == old(FnMaps()) && MacroMaps() == old(MacroMaps())
    {
      ChainLinks();
      data := data - {key};
      return this;
    }

    /** `InsMultiple`: `Ins` for every pair, in Go's unspecified map order. */
    method InsMultiple(m: map<string, Value>) returns (r: Environment)
      requires Valid()
      modifies this
      ensures r == this
      ensures DataMaps() == InsAllSpec(old(DataMaps()), m)
      ensures FnMaps() == old(FnMaps()) && MacroMaps() == old(MacroMaps())
    {
      var keys := m.Keys;
      while keys != {}
        invariant keys <= m.Keys
        invariant data == old(data) + (map k | k in m.Keys - keys :: m[k])
        invariant functions == old(functions) && macros == old(macros)
        decreases keys
      {
        var k :| k in keys;
        ghost var done := map j | j in m.Keys - keys :: m[j];
        assert (map j | j in m.Keys - (keys - {k}) :: m[j]) == done[k := m[k]];
        data := data[k := m[k]];
        keys := keys - {k};
      }
      assert (map j | j in m.Keys - keys :: m[j]) == m;
      ChainLinks();
      return this;
    }

    /** `SetMultiple`: `Set` for every pair, in Go's unspecified map order;
        the result does not depend on that order. */
    method SetMultiple(m: map<string, Value>) returns (r: Environment)
      requires Valid()
      modifies Chain()
      ensures r == this
      ensures DataMaps() == SetAllSpec(old(DataMaps()), m)
      ensures FnMaps() == old(FnMaps()) && MacroMaps() == old(MacroMaps())
    {
      var rest := m;
      while rest != map[]
        invariant SetAllSpec(DataMaps(), rest) == SetAllSpec(old(DataMaps()), m)
        invariant FnMaps() == old(FnMaps()) && MacroMaps() == old(MacroMaps())
        decreases |rest|
      {
        var k :| k in rest;
        SetAllStep(DataMaps(), rest, k);
        var _ := Set(k, rest[k]);
        rest := rest - {k};
      }
      SetAllEmpty(DataMaps());
      return this;
    }

    /** `GetFn`: the nearest function binding, or nil when there is none. */
    method GetFn(key: string) returns (fn: Value)
      requires Valid()
      ensures Lookup(FnMaps(), key).Some? ==> fn == Lookup(FnMaps(), key).value
      ensures Lookup(FnMaps(), key).None? ==> fn == Null
    {
      ChainLinks();
      var e: Environment? := this;
      ghost var i := 0;
      while e != null
        invariant 0 <= i <= |Chain()|
        invariant e == null <==> i == |Chain()|
        invariant e != null ==> e == Chain()[i]
        invariant forall j :: 0 <= j < i ==> key !in FnMaps()[j]
        decreases |Chain()| - i
      {
        if key in e.functions {
          NearestUnique(FnMaps(), key, i);
          return e.functions[key];
        }
        ChainStep(i);
        e := e.parent;
        i := i + 1;
      }
      return Null;
    }

    /** `InsFn`: binds the function in the receiver only. */
    method InsFn(key: string, fn: Value) returns (r: Environment)
      requires Valid()
      modifies this
      ensures r == this
      ensures FnMaps() == InsSpec(old(FnMaps()), key, fn)
      ensures DataMaps() == old(DataMaps()) && MacroMaps() == old(MacroMaps())
    {
      ChainLinks();
      functions := functions[key := fn];
      return this;
    }

    /** `SetFn`: overwrites the nearest function binding, else creates one
        in the receiver. */
    method SetFn(key: string, fn: Value) returns (r: Environment)
      requires Valid()
      modifies Chain()
      ensures r == this
      ensures FnMaps() == SetSpec(old(FnMaps()), key, fn)
      ensures DataMaps() == old(DataMaps()) && MacroMaps() == old(MacroMaps())
    {
      ChainLinks();
      var e: Environment? := this;
      ghost var i := 0;
      while e != null
        invariant 0 <= i <= |Chain()|
        invariant e == null <==> i == |Chain()|
        invariant e != null ==> e == Chain()[i]
        invariant forall j :: 0 <= j < i ==> key !in FnMaps()[j]
        invariant FnMaps() == old(FnMaps())
        invariant DataMaps() == old(DataMaps()) && MacroMaps() == old(MacroMaps())
        decreases |Chain()| - i
      {
        if key in e.functions {
          NearestUnique(FnMaps(), key, i);
          assert Chain()[i] in Chain();
          e.functions := e.functions[key := fn];
          return this;
        }
        ChainStep(i);
        e := e.parent;
        i := i + 1;
      }
      assert Chain()[0] in Chain();
      functions := functions[key := fn];
      return this;
    }

    /** `GetMacro`: the nearest non-nil macro binding; a nil entry does not
        stop the search. */
    method GetMacro(key: string) returns (m: Value)
      requires Valid()
      ensures m == LookupNonNull(MacroMaps(), key)
    {
      ChainLinks();
      var e: Environment? := this;
      ghost var i := 0;
      while e != null
        invariant 0 <= i <= |Chain()|
        invariant e == null <==> i == |Chain()|
        invariant e != null ==> e == Chain()[i]
        invariant forall j :: 0 <= j < i ==> key !in MacroMaps()[j] || MacroMaps()[j][key] == Null
        decreases |Chain()| - i
      {
        var found := if key in e.macros then e.macros[key] else Null;
        if found != Null {
          NearestNonNullUnique(MacroMaps(), key, i);
          return found;
        }
        ChainStep(i);
        e := e.parent;
        i := i + 1;
      }
      return Null;
    }

    /** `InsMacro`: binds the macro in the receiver only. */
    method InsMacro(key: string, m: Value) returns (r: Environment)
      requires Valid()
      modifies this
      ensures r == this
      ensures MacroMaps() == InsSpec(old(MacroMaps()), key, m)
      ensures DataMaps() == old(DataMaps()) && FnMaps() == old(FnMaps())
    {
      ChainLinks();
      macros := macros[key := m];
      return this;
    }

    /** `SetMacro`: overwrites the nearest macro binding (a nil one
        included), else creates one in the receiver. */
    method SetMacro(key: string, m: Value) returns (r: Environment)
      requires Valid()
      modifies Chain()
      ensures r == this
      ensures MacroMaps() == SetSpec(old(MacroMaps()), key, m)
      ensures DataMaps() == old(DataMaps()) && FnMaps() == old(FnMaps())
    {
      ChainLinks();
      var e: Environment? := this;
      ghost var i := 0;
      while e != null
        invariant 0 <= i <= |Chain()|
        invariant e == null <==> i == |Chain()|
        invariant e != null ==> e == Chain()[i]
        invariant forall j :: 0 <= j < i ==> key !in MacroMaps()[j]
        invariant MacroMaps() == old(MacroMaps())
        invariant DataMaps() == old(DataMaps()) && FnMaps() == old(FnMaps())
        decreases |Chain()| - i
      {
        if key in e.macros {
          NearestUnique(MacroMaps(), key, i);
          assert Chain()[i] in Chain();
          e.macros := e.macros[key := m];
          return this;
        }
        ChainStep(i);
        e := e.parent;
        i := i + 1;
      }
      assert Chain()[0] in Chain();
      macros := macros[key := m];
      return this;
    }
  }

  /** `NearestNonNull` finds the first scope with a non-nil binding. */
  lemma NearestNonNullUnique(ms: Scopes, k: string, i: nat)
    requires i < |ms| && k in ms[i] && ms[i][k] != Null
    requires forall j :: 0 <= j < i ==> k !in ms[j] || ms[j][k] == Null
    ensures NearestNonNull(ms, k) == Some(i)
  {
  }
}
