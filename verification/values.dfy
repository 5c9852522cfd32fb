/** The Lisp value union of package `value` (value/value.go, value/util.go):
    type tags, truthiness, the nil-equivalence predicate, identity (`Eq`)
    versus equality (`Equal`) on atoms, and the per-type `Convert` tables.

    Cons cells are modelled as immutable values: a `Cell` holds its `Car` and
    `Cdr`, so a chain of cells is a finite tree and sharing or cycles between
    chains cannot be expressed. Go distinguishes an interface holding nothing
    (`Null`) from an interface holding a nil `*ConsCell` (`NullCell`): the two
    compare unequal to `nil` differently, which matters to `IsList`, `Pop`
    and the Array conversion. */
module Values {
  import opened Types
  import opened Strconv

  datatype Value =
    | Null                                   // an interface holding nothing
    | Nil                                    // NIL, the NilValue constant
    | Int(i: Int64)                          // IntValue
    | Float                                  // FloatValue, opaque
    | BigInt(n: int)                         // *BigInt
    | Str(s: string)                         // StringValue
    | Sym(name: string)                      // Symbol
    | Cell(car: Value, cdr: Value)           // a non-nil *ConsCell
    | NullCell                               // a nil *ConsCell inside an interface
    | ListVal(head: Value, length: int)      // *List: Car (Cell or NullCell), Length
    | Arr(elems: seq<Value>)                 // Array
    | ErrorVal(ref: nat, errno: Int64, msg: string)  // *Error; ref is its identity
    | MacroVal(name: string)                 // *Macro, identified by name
    | Function(ref: nat)                     // *LispFunction, identified by ref

  /** `Type()`; calling it on an interface holding nothing panics. */
  function TypeOf(v: Value): (t: TypeId)
    requires !v.Null?
    ensures t == ConsCellT <==> v.Cell? || v.NullCell?
  {
    match v
    case Nil => NilT
    case Int(_) => IntegerT
    case Float => FloatT
    case BigInt(_) => BigIntT
    case Str(_) => StringT
    case Sym(_) => SymbolT
    case Cell(_, _) => ConsCellT
    case NullCell => ConsCellT
    case ListVal(_, _) => ListT
    case Arr(_) => ArrayT
    case ErrorVal(_, _, _) => ErrorT
    case MacroVal(_) => MacroT
    case Function(_) => FunctionT
  }

  const NilName: string := "NIL"

  /** `Bool()`, the truthiness of a value. A nil `*ConsCell` is truthy: its
      method does not dereference the receiver. */
  function Bool(v: Value): bool
    requires !v.Null?
  {
    match v
    case Nil => false
    case Sym(name) => name != NilName
    case ListVal(head, _) => head.Cell?
    case _ => true
  }

  /** `IsNil` (value/util.go): Go nil, NIL, a Symbol "NIL", or a List whose
      Length is 0 or whose Car is nil. */
  predicate IsNil(v: Value) {
    match v
    case Null => true
    case Nil => true
    case Sym(name) => name == NilName
    case ListVal(head, length) => length == 0 || !head.Cell?
    case _ => false
  }

  /** `IsNumber` (value/util.go). */
  predicate IsNumber(v: Value) {
    v.Int? || v.Float? || v.BigInt?
  }

  /** `Symbol.IsKeyword`; it indexes byte 0, so an empty symbol panics. */
  predicate IsKeyword(name: string)
    requires |name| > 0
  {
    name[0] == ':'
  }

  /** The exact value of an Integer or BigInt. */
  function NumValue(v: Value): int
    requires v.Int? || v.BigInt?
  {
    if v.Int? then v.i else v.n
  }

  /** A value is falsy exactly when it is NIL, the symbol NIL, or a List
      whose Car is nil. */
  lemma FalsyValues(v: Value)
    requires !v.Null?
    ensures !Bool(v) <==> v == Nil || v == Sym(NilName) || (v.ListVal? && !v.head.Cell?)
  {
  }

  /** Every falsy value is nil-equivalent; the converse fails only for a List
      whose Length is 0 while its Car is still a cell. */
  lemma TruthinessVersusIsNil(v: Value)
    requires !v.Null?
    ensures !Bool(v) ==> IsNil(v)
    ensures IsNil(v) && Bool(v) <==> v.ListVal? && v.length == 0 && v.head.Cell?
  {
  }

  /** The values whose `Eq` the model covers. Identity comparison of BigInt,
      cons cells, Lists and Arrays depends on pointers and is not modelled;
      `Error.Eq` calls `Type()` on its argument, so Go nil panics there. */
  predicate EqDefined(a: Value, b: Value) {
    match a
    case Nil => true
    case Int(_) => true
    case Str(_) => true
    case Sym(_) => true
    case MacroVal(_) => true
    case Function(_) => true
    case ErrorVal(_, _, _) => !b.Null?
    case _ => false
  }

  /** `Eq`: identity, which for atoms is type-strict value comparison. */
  predicate Eq(a: Value, b: Value)
    requires EqDefined(a, b)
  {
    match a
    case Nil => IsNil(b)
    case Int(i) => b.Int? && b.i == i
    case Str(s) => b.Str? && b.s == s
    case Sym(name) =>
      (match b
       case Null => name == NilName
       case Nil => name == NilName
       case ListVal(head, length) => name == NilName && (length == 0 || !head.Cell?)
       case Sym(other) => name == other
       case _ => false)
    case MacroVal(name) => b.MacroVal? && b.name == name
    case Function(r) => b == Function(r)
    case ErrorVal(r, _, _) => b.ErrorVal? && b.ref == r
  }

  /** The values whose `Equal` the model covers: comparisons against a Float
      need `math.Floor` and are left out; BigInt, String and Symbol call
      `Type()` on the argument, so Go nil panics there. */
  predicate EqualDefined(a: Value, b: Value) {
    match a
    case Nil => true
    case Int(_) => !b.Float?
    case BigInt(_) => !b.Float? && !b.Null?
    case Str(_) => !b.Null?
    case Sym(_) => !b.Null?
    case ErrorVal(_, _, _) => true
    case MacroVal(_) => true
    case Function(_) => true
    case _ => false
  }

  /** `Equal`: value comparison; Integer and BigInt compare numerically. */
  predicate Equal(a: Value, b: Value)
    requires EqualDefined(a, b)
  {
    match a
    case Nil => IsNil(b)
    case Int(i) => (b.Int? || b.BigInt?) && NumValue(b) == i
    case BigInt(n) => (b.Int? || b.BigInt?) && NumValue(b) == n
    case Str(s) => b.Str? && b.s == s
    case Sym(name) =>
      (match b
       case Nil => name == NilName
       case ListVal(head, length) => name == NilName && (length == 0 || !head.Cell?)
       case Sym(other) => name == other
       case _ => false)
    case ErrorVal(_, errno, msg) => b.ErrorVal? && b.errno == errno && b.msg == msg
    case MacroVal(name) => b.MacroVal? && b.name == name
    case Function(r) => b == Function(r)
  }

  /** `IntValue.Eq` is type-strict: only an Integer of the same value. */
  lemma IntEqTypeStrict(i: Int64, b: Value)
    ensures Eq(Int(i), b) <==> b == Int(i)
  {
  }

  /** `IntValue.Equal` and `BigInt.Equal` compare Integer and BigInt by
      numeric value, in both directions. */
  lemma NumericEqualByValue(a: Value, b: Value)
    requires a.Int? || a.BigInt?
    requires b.Int? || b.BigInt?
    ensures Equal(a, b) <==> NumValue(a) == NumValue(b)
    ensures Equal(a, b) == Equal(b, a)
  {
  }

  /** An Integer and a BigInt of the same value are `Equal` but not `Eq`. */
  lemma EqStricterThanEqual(i: Int64)
    ensures Equal(Int(i), BigInt(i)) && !Eq(Int(i), BigInt(i))
  {
  }

  /** On the atoms whose identity is their content, `Eq` implies `Equal`. */
  lemma EqImpliesEqual(a: Value, b: Value)
    requires a.Nil? || a.Int? || a.Str? || a.Sym? || a.MacroVal? || a.Function?
    requires EqDefined(a, b) && EqualDefined(a, b)
    ensures Eq(a, b) ==> Equal(a, b)
  {
  }

  /** `Equal` is symmetric among NIL, Integers, BigInts, Strings and Symbols. */
  lemma AtomEqualSymmetric(a: Value, b: Value)
    requires a.Nil? || a.Int? || a.BigInt? || a.Str? || a.Sym?
    requires b.Nil? || b.Int? || b.BigInt? || b.Str? || b.Sym?
    ensures Equal(a, b) == Equal(b, a)
  {
  }

  /** NIL and the symbol NIL are `Eq` to each nil-equivalent value. */
  lemma NilEquivalents(v: Value)
    requires IsNil(v)
    ensures Eq(Nil, v) && Eq(Sym(NilName), v)
  {
  }

  /** Outcome of `Convert`. `OutOfRange`/`InvalidSyntax` are the errors of
      `strconv.ParseInt` and the BigInt range check. */
  datatype ConvResult =
    | Converted(value: Value)
    | TypeConversionError(source: TypeId, destination: TypeId)
    | OutOfRange
    | InvalidSyntax

  /** `NilValue.Convert`. */
  function NilConvert(id: TypeId): (r: ConvResult)
    ensures r.Converted? <==> id in {NilT, StringT, ListT, SymbolT}
    ensures r.Converted? ==> !r.value.Null? && (TypeOf(r.value) == id || (id == ListT && r.value == Nil))
    ensures r.Converted? && id != StringT ==> IsNil(r.value)
    ensures !r.Converted? ==> r == TypeConversionError(NilT, id)
  {
    match id
    case NilT => Converted(Nil)
    case StringT => Converted(Str(NilName))
    case ListT => Converted(Nil)
    case SymbolT => Converted(Sym(NilName))
    case _ => TypeConversionError(NilT, id)
  }

  /** `IntValue.Convert`; the Float result is opaque. */
  function IntConvert(i: Int64, id: TypeId): (r: ConvResult)
    ensures r.Converted? <==> id in {IntegerT, FloatT, BigIntT, StringT}
    ensures r.Converted? ==> !r.value.Null? && TypeOf(r.value) == id
    ensures id in {IntegerT, BigIntT} ==> (r.value.Int? || r.value.BigInt?) && NumValue(r.value) == i
    ensures !r.Converted? ==> r == TypeConversionError(IntegerT, id)
  {
    match id
    case IntegerT => Converted(Int(i))
    case FloatT => Converted(Float)
    case BigIntT => Converted(BigInt(i))
    case StringT => Converted(Str(Decimal(i)))
    case _ => TypeConversionError(IntegerT, id)
  }

  /** `BigInt.Convert`: to Integer only when `IsInt64` holds, that is when
      the value lies in [MinInt64, MaxInt64] (`InInt64`). */
  function BigConvert(n: int, id: TypeId): (r: ConvResult)
    ensures r.Converted? <==> (id == IntegerT && InInt64(n)) || id in {BigIntT, FloatT, StringT}
    ensures r.Converted? ==> !r.value.Null? && TypeOf(r.value) == id
    ensures r.Converted? && id in {IntegerT, BigIntT} ==> (r.value.Int? || r.value.BigInt?) && NumValue(r.value) == n
    ensures id == IntegerT && !InInt64(n) ==> r == OutOfRange
    ensures !r.Converted? && id != IntegerT ==> r == TypeConversionError(BigIntT, id)
  {
    match id
    case IntegerT => if InInt64(n) then Converted(Int(n)) else OutOfRange
    case BigIntT => Converted(BigInt(n))
    case FloatT => Converted(Float)
    case StringT => Converted(Str(Decimal(n)))
    case _ => TypeConversionError(BigIntT, id)
  }

  /** `StringValue.Convert`. The Float target (`strconv.ParseFloat`) is not
      modelled. A KeySym is represented as a Symbol with a ':' prefix. */
  function StrConvert(s: string, id: TypeId): (r: ConvResult)
    requires id != FloatT
    ensures r.Converted? <==>
      id in {StringT, SymbolT, KeySymT} || (id == IntegerT && ParseInt(s, 10).Parsed?)
    ensures r.Converted? ==> !r.value.Null? && TypeOf(r.value) == (if id == KeySymT then SymbolT else id)
    ensures id == SymbolT ==> r == Converted(Sym(ToUpper(s)))
    ensures id == KeySymT ==> r.value.Sym? && |r.value.name| > 0 && IsKeyword(r.value.name) && r.value.name[1..] == ToUpper(s)
    ensures id == IntegerT && r.Converted? ==> r.value.i == ParseInt(s, 10).n
    ensures !r.Converted? && id != IntegerT ==> r == TypeConversionError(StringT, id)
  {
    match id
    case IntegerT =>
      (match ParseInt(s, 10)
       case Parsed(n) => Converted(Int(n))
       case ErrRange => OutOfRange
       case ErrSyntax => InvalidSyntax)
    case StringT => Converted(Str(s))
    case SymbolT => Converted(Sym(ToUpper(s)))
    case KeySymT => Converted(Sym(":" + ToUpper(s)))
    case _ => TypeConversionError(StringT, id)
  }

  /** `Symbol.Convert`. */
  function SymConvert(name: string, id: TypeId): (r: ConvResult)
    ensures r.Converted? <==> id in {StringT, SymbolT}
    ensures r.Converted? ==> !r.value.Null? && TypeOf(r.value) == id
    ensures id == StringT ==> r.value.s == name
    ensures !r.Converted? ==> r == TypeConversionError(SymbolT, id)
  {
    match id
    case StringT => Converted(Str(name))
    case SymbolT => Converted(Sym(name))
    case _ => TypeConversionError(SymbolT, id)
  }

  /** `Error.Convert`: Integer and Number both yield the error number. */
  function ErrorConvert(e: Value, id: TypeId): (r: ConvResult)
    requires e.ErrorVal?
    ensures r.Converted? <==> id in {IntegerT, NumberT, BigIntT, StringT, ErrorT}
    ensures id in {IntegerT, NumberT, BigIntT} ==> (r.value.Int? || r.value.BigInt?) && NumValue(r.value) == e.errno
    ensures id == StringT ==> r == Converted(Str(e.msg))
    ensures r.Converted? ==> !r.value.Null? && TypeOf(r.value) == (if id == NumberT then IntegerT else id)
    ensures !r.Converted? ==> r == TypeConversionError(ErrorT, id)
  {
    match id
    case IntegerT => Converted(Int(e.errno))
    case NumberT => Converted(Int(e.errno))
    case BigIntT => Converted(BigInt(e.errno))
    case StringT => Converted(Str(e.msg))
    case ErrorT => Converted(e)
    case _ => TypeConversionError(ErrorT, id)
  }

  /** `Macro.Convert`; its String form is "MACRO " followed by the name. */
  function MacroConvert(name: string, id: TypeId): (r: ConvResult)
    ensures r.Converted? <==> id in {MacroT, NilT, StringT}
    ensures id == MacroT ==> r == Converted(MacroVal(name))
    ensures id == NilT ==> r.Converted? && IsNil(r.value)
    ensures id == StringT ==> r.value.Str? && |r.value.s| >= 6 && r.value.s[6..] == name
    ensures !r.Converted? ==> r == TypeConversionError(MacroT, id)
  {
    if id == MacroT then Converted(MacroVal(name))
    else if id == NilT then Converted(Nil)
    else if id == StringT then Converted(Str("MACRO " + name))
    else TypeConversionError(MacroT, id)
  }

  /** Integer -> BigInt -> Integer gives back the original value. */
  lemma IntBigRoundTrip(i: Int64)
    ensures BigConvert(IntConvert(i, BigIntT).value.n, IntegerT) == Converted(Int(i))
  {
  }

  /** BigInt -> Integer succeeds exactly for values in int64, and then
      converting back yields the same BigInt. */
  lemma BigIntegerRoundTrip(n: int)
    ensures BigConvert(n, IntegerT).Converted? <==> InInt64(n)
    ensures InInt64(n) ==> IntConvert(BigConvert(n, IntegerT).value.i, BigIntT) == Converted(BigInt(n))
  {
  }

  /** Integer -> String -> Integer gives back the original value. */
  lemma IntStringRoundTrip(i: Int64)
    ensures StrConvert(IntConvert(i, StringT).value.s, IntegerT) == Converted(Int(i))
  {
    DecimalRoundTrip(i);
  }

  /** BigInt -> String -> Integer yields the value exactly when it fits
      int64, and a range error (not a syntax error) otherwise. */
  lemma BigStringToInteger(n: int)
    ensures StrConvert(BigConvert(n, StringT).value.s, IntegerT) == BigConvert(n, IntegerT)
  {
    if InInt64(n) {
      DecimalRoundTrip(n);
    } else if n > MaxInt64 {
      DecimalOutOfRange(n);
    } else {
      NegativeDecimalOutOfRange(n);
    }
  }

  lemma NegativeDecimalOutOfRange(n: int)
    requires n < MinInt64
    ensures ParseInt(Decimal(n), 10) == ErrRange
  {
    var digits := DecimalNat(-n);
    DecimalNatValue(-n);
    ScanValidDigits(digits, 10);
    assert Decimal(n)[1..] == digits;
  }

  /** Symbol -> String -> Symbol upper-cases the name; on an upper-case
      name it is the identity. */
  lemma SymbolStringRoundTrip(name: string)
    ensures StrConvert(SymConvert(name, StringT).value.s, SymbolT) == Converted(Sym(ToUpper(name)))
    ensures name == ToUpper(name) ==> StrConvert(SymConvert(name, StringT).value.s, SymbolT) == Converted(Sym(name))
  {
  }

  /** Converting String -> Symbol twice is converting once. */
  lemma StringSymbolIdempotent(s: string)
    ensures StrConvert(SymConvert(StrConvert(s, SymbolT).value.name, StringT).value.s, SymbolT)
         == StrConvert(s, SymbolT)
  {
    ToUpperIdempotent(s);
  }
}
