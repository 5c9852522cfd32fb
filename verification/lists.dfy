/** Cons-cell chains and the `List` header of value/value.go and
    value/util.go: a `List` holds a pointer to its first cell (`Car`) and a
    cached `Length` that the operations maintain by hand. */
module Lists {
  import opened Types
  import opened Values

  /** What a method that may panic did: returned a value, or panicked. */
  datatype Run<T> = Returned(value: T) | Panicked

  /** The elements of a chain: the Car of each cell along the Cdr links. */
  function Elements(c: Value): seq<Value>
    decreases c
  {
    if c.Cell? then [c.car] + Elements(c.cdr) else []
  }

  /** What the chain ends in: the first Cdr that is not a cell. */
  function Terminator(c: Value): (t: Value)
    ensures !t.Cell?
    decreases c
  {
    if c.Cell? then Terminator(c.cdr) else c
  }

  /** The chain holding `vs` in order and ending in `end`. */
  function Chain(vs: seq<Value>, end: Value): Value
    decreases |vs|
  {
    if vs == [] then end else Cell(vs[0], Chain(vs[1..], end))
  }

  lemma {:induction false} ChainElements(vs: seq<Value>, end: Value)
    requires !end.Cell?
    ensures Elements(Chain(vs, end)) == vs
    ensures Terminator(Chain(vs, end)) == end
    decreases |vs|
  {
    if vs != [] {
      ChainElements(vs[1..], end);
    }
  }

  /** A proper list ends in Go nil, NIL, or a nil `*ConsCell`. */
  predicate Proper(c: Value) {
    var t := Terminator(c);
    t.Null? || t.Nil? || t.NullCell?
  }

  /** `ConsCell.IsList`: follows the Cdr links; true on reaching nil or NIL,
      false as soon as a Cdr is not a cons cell. */
  method IsList(s: Value) returns (r: bool)
    requires s.Cell? || s.NullCell?
    ensures r <==> Proper(s)
  {
    var cell := s;
    while cell.Cell?
      invariant cell.Cell? || cell.NullCell?
      invariant Proper(cell) == Proper(s)
      decreases |Elements(cell)|
    {
      if cell.cdr == Nil || cell.cdr == Null {
        assert Terminator(cell) == cell.cdr;
        return true;
      } else if TypeOf(cell.cdr) != ConsCellT {
        assert Terminator(cell) == cell.cdr;
        return false;
      } else {
        cell := cell.cdr;
      }
    }
    return true;
  }

  /** `ConsCell.Next`: the following cell, or a nil `*ConsCell`. */
  function Next(s: Value): (r: Value)
    requires s.Cell?
    ensures r.Cell? || r.NullCell?
    ensures Elements(r) == Elements(s)[1..]
    ensures r.Cell? <==> s.cdr.Cell?
  {
    if s.cdr.Null? then NullCell
    else if TypeOf(s.cdr) != ConsCellT then NullCell
    else s.cdr
  }

  /** What `ConsCell.ActualLength` returns: the number of cells along the
      chain, except that a lone cell with nil Car and nil Cdr counts as 0. */
  function ConsLength(s: Value): nat {
    if s == Cell(Null, Null) then 0 else |Elements(s)|
  }

  /** `ConsCell.ActualLength`: counts cells until a Cdr that is NIL or not a
      cell; an improper tail does not stop the count of the cells before it. */
  method ConsActualLength(s: Value) returns (n: int)
    requires s.Cell? || s.NullCell?
    ensures n == ConsLength(s)
    ensures s != Cell(Null, Null) ==> n == |Elements(s)|
  {
    if s.NullCell? {
      return 0;
    } else if s.car == Null && s.cdr == Null {
      return 0;
    }
    var cnt := 0;
    var cell := s;
    while cell.Cell?
      invariant cnt + |Elements(cell)| == |Elements(s)|
      decreases |Elements(cell)|
    {
      cnt := cnt + 1;
      if cell.cdr != Nil {
        match cell.cdr
        case Cell(_, _) => cell := cell.cdr;
        case NullCell => cell := NullCell;
        case _ => cell := NullCell;
      } else {
        cell := NullCell;
      }
    }
    return cnt;
  }

  /** `ConsCell.Convert`. The String target renders the chain and is not
      modelled. */
  function ConsConvert(s: Value, id: TypeId): (r: ConvResult)
    requires s.Cell? || s.NullCell?
    requires id != StringT
    ensures r.Converted? <==> id in {ListT, ConsCellT}
    ensures id == ListT ==> r.value.ListVal? && r.value.head == s
    ensures id == ListT && s != Cell(Null, Null) ==> |Elements(r.value.head)| == r.value.length
    ensures !r.Converted? ==> r == TypeConversionError(ConsCellT, id)
  {
    match id
    case ListT => Converted(ListVal(s, ConsLength(s)))
    case ConsCellT => Converted(s)
    case _ => TypeConversionError(ConsCellT, id)
  }

  /** `*List`: the first cell and the cached length. */
  class List {
    var head: Value
    var length: int

    /** `Car` is a `*ConsCell`: a cell or nil. */
    predicate Valid()
      reads this
    {
      head.Cell? || head.NullCell?
    }

    /** The cached Length matches the chain, and the chain ends where `Pop`
        and `Cdr` can follow it. */
    predicate Consistent()
      reads this
    {
      Valid() && length == |Elements(head)| && (Terminator(head).Null? || Terminator(head).NullCell?)
    }

    function Contents(): seq<Value>
      reads this
    {
      Elements(head)
    }

    /** The `*List` as a value. */
    function AsValue(): Value
      reads this
    {
      ListVal(head, length)
    }

    constructor (head: Value, length: int)
      requires head.Cell? || head.NullCell?
      ensures this.head == head && this.length == length
    {
      this.head := head;
      this.length := length;
    }

    /** `List.Bool`: a List is truthy when its Car is not nil. */
    function Bool(): (b: bool)
      reads this
      requires Valid()
      ensures b <==> |Contents()| > 0
    {
      head.Cell?
    }

    /** `List.Push`: conses `v` onto the front, increments Length and
        returns the receiver. The new cell's Cdr is the old Car, so an empty
        list gets a nil `*ConsCell` as terminator. */
    method Push(v: Value) returns (r: List)
      requires Valid()
      modifies this
      ensures r == this
      ensures head == Cell(v, old(head)) && length == old(length) + 1
      ensures Contents() == [v] + old(Contents())
      ensures Valid()
      ensures old(Consistent()) ==> Consistent()
    {
      head := Cell(v, head);
      length := length + 1;
      return this;
    }

    /** `List.Pop`: removes and returns the first element; on an empty list
        returns NIL. A first cell whose Cdr is Go nil empties the List; any
        other Cdr must be a `*ConsCell` (nil or not), else the type assertion
        panics before anything is written. */
    method Pop() returns (r: Run<Value>)
      requires Valid()
      modifies this
      ensures r.Panicked? <==> old(head).Cell? && PopPanics(old(head).cdr)
      ensures r.Panicked? ==> head == old(head) && length == old(length)
      ensures old(head).NullCell? ==> r == Returned(Nil) && head == old(head) && length == old(length)
      ensures old(head).Cell? && r.Returned? ==> r.value == old(head).car
      ensures old(head).Cell? && old(head).cdr.Null? ==> head == NullCell && length == 0
      ensures old(head).Cell? && r.Returned? && !old(head).cdr.Null? ==>
        head == old(head).cdr && length == old(length) - 1
      ensures old(head).Cell? && r.Returned? ==> Contents() == old(Contents())[1..]
      ensures Valid()
      ensures old(Consistent()) ==> r.Returned? && Consistent()
    {
      if head.NullCell? {
        return Returned(Nil);
      }
      var car := head.car;
      assert Elements(head) == [car] + Elements(head.cdr);
      if head.cdr != Null {
        if !(head.cdr.Cell? || head.cdr.NullCell?) {
          assert Terminator(head) == head.cdr;
          return Panicked;
        }
        head := head.cdr;
        length := length - 1;
      } else {
        length := 0;
        head := NullCell;
      }
      return Returned(car);
    }

    /** `List.Cdr`: a new List for the tail, with Length one less. A nil
        Car is dereferenced, and a Cdr that is not a `*ConsCell` (Go nil,
        the last Cdr of every chain `MakeList` builds, included) fails the
        type assertion: both panic. */
    method Cdr() returns (r: Run<List>)
      requires Valid()
      ensures r.Panicked? <==> head.NullCell? || !(head.cdr.Cell? || head.cdr.NullCell?)
      ensures r.Returned? ==> fresh(r.value)
      ensures r.Returned? ==> r.value.head == head.cdr && r.value.length == length - 1
      ensures r.Returned? ==> r.value.Contents() == Contents()[1..]
      ensures r.Returned? && Consistent() ==> r.value.Consistent()
    {
      if head.NullCell? || !(head.cdr.Cell? || head.cdr.NullCell?) {
        return Panicked;
      }
      var tail := new List(head.cdr, length - 1);
      return Returned(tail);
    }
  }

  /** A Cdr that `Pop` cannot follow: neither Go nil nor a `*ConsCell`. */
  predicate PopPanics(cdr: Value) {
    !(cdr.Null? || cdr.Cell? || cdr.NullCell?)
  }

  /** `List.ActualLength`: counts the cells until a nil or NIL Cdr and
      writes the count back into Length. A nil receiver or a nil Car gives 0
      without touching Length. Any other Cdr that is not a cell fails the
      type assertion, so a chain that is not proper panics, before Length is
      written. */
  method ActualLength(l: List?) returns (r: Run<int>)
    requires l != null ==> l.Valid()
    modifies l
    ensures l == null ==> r == Returned(0)
    ensures l != null && l.head.NullCell? ==> r == Returned(0) && l.length == old(l.length)
    ensures l != null ==> l.head == old(l.head)
    ensures l != null && l.head.Cell? ==> (r.Panicked? <==> !Proper(l.head))
    ensures r.Panicked? ==> l.length == old(l.length)
    ensures l != null && l.head.Cell? && r.Returned? ==> r.value == |l.Contents()| && l.length == r.value
    ensures l != null && l.head.Cell? && (Terminator(l.head).Null? || Terminator(l.head).NullCell?) ==>
      r.Returned? && l.Consistent()
  {
    if l == null {
      return Returned(0);
    } else if l.head.NullCell? {
      return Returned(0);
    }
    var cnt := 0;
    var cell := l.head;
    while cell.Cell?
      invariant cell.Cell? || cell.NullCell? || cell.Nil? || cell.Null?
      invariant Proper(cell) == Proper(l.head)
      invariant cnt + |Elements(cell)| == |Elements(l.head)|
      decreases |Elements(cell)|
    {
      cnt := cnt + 1;
      if !(cell.cdr == Null || cell.cdr == Nil) {
        if !cell.cdr.Cell? && !cell.cdr.NullCell? {
          assert Terminator(cell) == cell.cdr;
          return Panicked;
        }
        cell := cell.cdr;
      } else {
        assert Terminator(cell) == cell.cdr;
        cell := NullCell;
      }
    }
    l.length := cnt;
    return Returned(cnt);
  }

  /** Outcome of `List.Nth`. */
  datatype NthResult =
    | Found(v: Value)
    | ReceiverNil          // "Receiver is NIL"
    | IndexOutOfRange      // "Index is out of range"
    | NotProperList        // "Not a proper list"
    | NthPanic             // a nil cell or a Go nil Cdr is dereferenced

  /** Walking `k` more steps from `c` does not panic: every visited cell is
      non-nil and every Cdr the loop asks the type of is not Go nil. */
  predicate NthSafe(c: Value, k: nat)
    decreases k
  {
    c.Cell? &&
    (k == 0 || (!c.cdr.Null? && (c.cdr.Cell? || c.cdr.NullCell? ==> NthSafe(c.cdr, k - 1))))
  }

  /** A walk that stays among the chain's cells is safe, whatever the chain
      ends in. */
  lemma {:induction false} ElementsNthSafe(c: Value, k: nat)
    requires k < |Elements(c)|
    ensures NthSafe(c, k)
    decreases k
  {
    if k > 0 {
      assert c.Cell?;
      ElementsNthSafe(c.cdr, k - 1);
    }
  }

  /** `List.Nth`: an error for a nil receiver or an index outside
      [0, Length), otherwise the n-th element, or an error when the chain
      ends in a non-cell before reaching it. With a Length larger than the
      chain, the walk can reach a nil cell or ask the type of a Go nil Cdr,
      and panics. */
  method Nth(l: List?, n: int) returns (r: NthResult)
    requires l != null ==> l.Valid()
    ensures l == null <==> r == ReceiverNil
    ensures l != null ==> (r == IndexOutOfRange <==> n < 0 || n >= l.length)
    ensures r == NthPanic <==> l != null && 0 <= n < l.length && !NthSafe(l.head, n)
    ensures r.Found? <==> l != null && 0 <= n < l.length && n < |l.Contents()|
    ensures r.Found? ==> r.v == l.Contents()[n]
  {
    if l == null {
      return ReceiverNil;
    }
    if n < 0 || n >= l.length {
      return IndexOutOfRange;
    }
    var elt := l.head;
    var idx := 0;
    while idx < n
      invariant 0 <= idx <= n
      invariant elt.Cell? || elt.NullCell?
      invariant NthSafe(l.head, n) <==> NthSafe(elt, n - idx)
      invariant idx <= |Elements(l.head)|
      invariant Elements(elt) == Elements(l.head)[idx..]
    {
      if !elt.Cell? {
        return NthPanic;
      }
      assert Elements(elt) == [elt.car] + Elements(elt.cdr);
      if elt.cdr.Null? {
        return NthPanic;
      }
      if TypeOf(elt.cdr) == ConsCellT {
        elt := elt.cdr;
      } else {
        assert Elements(elt.cdr) == [];
        return NotProperList;
      }
      idx := idx + 1;
    }
    if !elt.Cell? {
      return NthPanic;
    }
    return Found(elt.car);
  }

  /** On a consistent list `Nth` never panics: every n in [0, Length) is
      within the chain. */
  lemma ConsistentNth(l: List, n: int)
    requires l.Consistent() && 0 <= n < l.length
    ensures NthSafe(l.head, n) && n < |l.Contents()|
  {
    ElementsNthSafe(l.head, n);
  }

  /** The chain `MakeList` builds: one cell per value, the last Cdr Go nil;
      with no values it still allocates one empty cell. */
  function MakeListChain(vs: seq<Value>): Value {
    if vs == [] then Cell(Null, Null) else Chain(vs, Null)
  }

  /** `MakeList` (value/util.go): a List of the values in order, Length the
      number of values. The source fills the cells front to back through
      pointers; here the same chain is built back to front. */
  method MakeList(vs: seq<Value>) returns (l: List)
    ensures fresh(l)
    ensures l.head == MakeListChain(vs) && l.length == |vs|
  {
    if vs == [] {
      l := new List(Cell(Null, Null), 0);
      return;
    }
    var chain := Null;
    var i := |vs|;
    while i > 0
      invariant 0 <= i <= |vs|
      invariant chain == Chain(vs[i..], Null)
    {
      i := i - 1;
      assert vs[i..][1..] == vs[i + 1..];
      chain := Cell(vs[i], chain);
    }
    assert vs[0..] == vs;
    l := new List(chain, |vs|);
  }

  /** For values given, `MakeList`'s list is consistent and holds them in
      order, ending in Go nil. */
  lemma MakeListContents(vs: seq<Value>)
    requires vs != []
    ensures Elements(MakeListChain(vs)) == vs
    ensures Terminator(MakeListChain(vs)).Null?
  {
    ChainElements(vs, Null);
  }

  /** The chain a corrected `MakeList` builds: nothing at all for no
      values, so that Length and the chain agree. */
  function MakeListChainIntended(vs: seq<Value>): Value {
    if vs == [] then NullCell else Chain(vs, Null)
  }

  /** `MakeList` with its empty case corrected. */
  method MakeListIntended(vs: seq<Value>) returns (l: List)
    ensures fresh(l)
    ensures l.head == MakeListChainIntended(vs) && l.length == |vs|
    ensures l.Consistent() && l.Contents() == vs
  {
    if vs == [] {
      l := new List(NullCell, 0);
      return;
    }
    l := MakeList(vs);
    MakeListContents(vs);
  }

  /** The corrected chain holds exactly the values for every input. */
  lemma MakeListIntendedContents(vs: seq<Value>)
    ensures Elements(MakeListChainIntended(vs)) == vs
    ensures |Elements(MakeListChainIntended(vs))| == |vs|
  {
    if vs != [] {
      ChainElements(vs, Null);
    }
  }

  /** As written, `MakeList()` has Length 0 but one cell: `IsNil` calls it
      nil, yet it is truthy and `ActualLength` counts 1 and rewrites Length to
      1, after which it is no longer nil. */
  lemma MakeListEmptyMismatch()
    ensures |Elements(MakeListChain([]))| == 1
    ensures IsNil(ListVal(MakeListChain([]), 0))
    ensures Bool(ListVal(MakeListChain([]), 0))
    ensures !IsNil(ListVal(MakeListChain([]), |Elements(MakeListChain([]))|))
  {
  }

  /** The Array a List converts to: its elements in order, padded with Go
      nil up to Length. */
  function ArrayOf(head: Value, length: int): seq<Value>
    requires |Elements(head)| <= length
  {
    Elements(head) + seq(length - |Elements(head)|, _ => Null)
  }

  /** When `List.Convert(Array)` panics: `make` with a negative Length, more
      cells than Length slots, or a chain ending in a Cdr that is neither
      Go nil nor a `*ConsCell` (NIL included), which fails the type
      assertion. */
  predicate ArrayPanics(head: Value, length: int) {
    length < 0 || |Elements(head)| > length ||
    !(Terminator(head).Null? || Terminator(head).NullCell?)
  }

  /** `List.Convert(Array)`: an Array of Length slots filled from the chain.
      The loop stops at a Go nil Cdr or a nil `*ConsCell`. */
  method ListToArray(l: List) returns (r: Run<Value>)
    requires l.Valid()
    ensures r.Panicked? <==> ArrayPanics(l.head, l.length)
    ensures r.Returned? ==> |l.Contents()| <= l.length && r.value == Arr(ArrayOf(l.head, l.length))
  {
    if l.length < 0 {
      return Panicked;
    }
    var arr := new Value[l.length](_ => Null);
    var idx := 0;
    var cell := l.head;
    while cell.Cell?
      invariant cell.Cell? || cell.NullCell?
      invariant 0 <= idx <= |l.Contents()| && idx <= l.length
      invariant Elements(cell) == l.Contents()[idx..]
      invariant Terminator(cell) == Terminator(l.head)
      invariant arr[..] == l.Contents()[..idx] + seq(l.length - idx, _ => Null)
      decreases |Elements(cell)|
    {
      assert Elements(cell) == [cell.car] + Elements(cell.cdr);
      if idx >= arr.Length {
        return Panicked;
      }
      arr[idx] := cell.car;
      idx := idx + 1;
      if cell.cdr.Null? {
        break;
      }
      if !(cell.cdr.Cell? || cell.cdr.NullCell?) {
        return Panicked;
      }
      cell := cell.cdr;
    }
    assert idx == |l.Contents()|;
    return Returned(Arr(arr[..]));
  }

  /** `List.Convert`. The String target renders the list and is not
      modelled; converting to List yields the receiver itself. */
  method ListConvert(l: List, id: TypeId) returns (r: Run<ConvResult>)
    requires l.Valid()
    requires id != StringT
    ensures r.Panicked? <==> id == ArrayT && ArrayPanics(l.head, l.length)
    ensures r.Returned? ==> (r.value.Converted? <==> id in {ListT, ArrayT, ConsCellT})
    ensures id == ListT ==> r == Returned(Converted(l.AsValue()))
    ensures id == ArrayT && r.Returned? ==>
      |l.Contents()| <= l.length && r.value == Converted(Arr(ArrayOf(l.head, l.length)))
    ensures id == ConsCellT ==> r == Returned(Converted(l.head))
    ensures id !in {ListT, ArrayT, ConsCellT} ==> r == Returned(TypeConversionError(ListT, id))
  {
    match id
    case ListT => return Returned(Converted(l.AsValue()));
    case ArrayT =>
      var arr := ListToArray(l);
      if arr.Panicked? {
        return Panicked;
      }
      return Returned(Converted(arr.value));
    case ConsCellT => return Returned(Converted(l.head));
    case _ => return Returned(TypeConversionError(ListT, id));
  }

  /** `Array.Convert(List)`: cells built from the back, the last Cdr a nil
      `*ConsCell`, Length the number of elements. */
  method ArrayToList(elems: seq<Value>) returns (r: Value)
    ensures r == ListVal(Chain(elems, NullCell), |elems|)
  {
    var res := NullCell;
    var i := |elems|;
    while i > 0
      invariant 0 <= i <= |elems|
      invariant res == Chain(elems[i..], NullCell)
    {
      i := i - 1;
      assert elems[i..][1..] == elems[i + 1..];
      res := Cell(elems[i], res);
    }
    assert elems[0..] == elems;
    return ListVal(res, |elems|);
  }

  /** `Array.Convert`. The String target renders the array and is not
      modelled. */
  method ArrayConvert(elems: seq<Value>, id: TypeId) returns (r: ConvResult)
    requires id != StringT
    ensures r.Converted? <==> id in {ListT, ArrayT}
    ensures id == ListT ==> r == Converted(ListVal(Chain(elems, NullCell), |elems|))
    ensures id == ArrayT ==> r == Converted(Arr(elems))
    ensures !r.Converted? ==> r == TypeConversionError(ArrayT, id)
  {
    if id == ListT {
      var lst := ArrayToList(elems);
      return Converted(lst);
    } else if id == ArrayT {
      return Converted(Arr(elems));
    }
    return TypeConversionError(ArrayT, id);
  }

  /** An Array converted to a List has `len(arr)` cells holding the
      elements in order, a consistent Length, and converts back to the same
      Array. */
  lemma {:induction false} ArrayListRoundTrip(elems: seq<Value>)
    ensures Elements(Chain(elems, NullCell)) == elems
    ensures Terminator(Chain(elems, NullCell)).NullCell?
    ensures ArrayOf(Chain(elems, NullCell), |elems|) == elems
  {
    ChainElements(elems, NullCell);
    assert ArrayOf(Chain(elems, NullCell), |elems|) == elems + [];
  }

  /** A consistent List converts to an Array without padding, and that
      Array converts back to a List with the same elements. */
  lemma ListArrayRoundTrip(head: Value, length: int)
    requires length == |Elements(head)|
    ensures ArrayOf(head, length) == Elements(head)
    ensures Elements(Chain(ArrayOf(head, length), NullCell)) == Elements(head)
  {
    assert ArrayOf(head, length) == Elements(head) + [];
    ChainElements(Elements(head), NullCell);
  }
}
