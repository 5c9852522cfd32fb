# krylisp core in Dafny

A model of the value layer, the scope chains, the numeric tower and the
literal helpers of krylisp, a Lisp interpreter written in Go.

- `types.dfy` (module `Types`): type tags, the int64 range and Go's
  wrap-around (`Wrap`), `Option`, comparison results.
- `strconv.dfy` (module `Strconv`): the Go library routines the core relies
  on. These are `strconv.ParseInt`/`ParseUint` with an explicit base (digit
  loop, first-error semantics, range check), `strconv.FormatInt`,
  `big.Int.SetString` and ASCII `strings.ToUpper`.
- `values.dfy` (module `Values`): the Lisp value union. It covers `Type`,
  `Bool`, `IsNil`, `IsNumber`, `IsKeyword`, `Eq` and `Equal` on atoms, and
  the `Convert` tables of NIL, Integer, BigInt, String, Symbol, Error and
  Macro.
- `lists.dfy` (module `Lists`): cons-cell chains (`IsList`, `Next`,
  `ActualLength`, `Convert`) and the `List` header (`Bool`, `Push`, `Pop`,
  `Cdr`, `ActualLength`, `Nth`, `Convert`). It also holds `MakeList` and the
  Array to List conversion.
- `chains.dfy` (module `Chains`): scope chains as a sequence of binding
  maps, index 0 the current scope. It defines nearest-binding lookup,
  upsert, insert and delete, and their laws.
- `environment.dfy` (module `ValueEnv`): the three-namespace `Environment`
  of package `value`. It is a class whose methods walk and update the parent
  chain in place, each proved against the functions of `Chains`.
- `interp_env.dfy` (module `InterpEnv`): the single-namespace `Environment`
  of package `interpreter`. `Lookup` is recursive; `Set` and `Delete` work
  on the receiver only.
- `arithmetic.dfy` (module `Arithmetic`): the promotion table, the int64
  overflow checks, `evalAddition`, `evalSubtraction`, `evalMultiplication`,
  `evalDivision`, `evalNegate` and `evalPolymorphCmp` on Integer and BigInt
  operands.
- `parserutil.dfy` (module `ParserUtil`): `IntValue`, `Bignum`,
  `OctalNumber`, `StringValue` and `HashAdd`.

Integers are exact in Dafny, so every int64 operation of the source is
written with an explicit `Wrap`. Go's integer `/` truncates toward zero
(`TruncDiv`), while `big.Int.Div` is Euclidean (Dafny's `/`). A Go panic is
an outcome value (`Panic`, `Panics`, `Panicked`, `NthPanic`) where the
source reaches it on some input, with a contract that says exactly when. It is a precondition where the source's callers must avoid it: a nil
receiver, an unhashable key, a token shorter than its quotes.

The interpreter's `Environment` is stored in two files,
interpreter/environment.go and interpreter/interpreter.go. Their `Lookup`
bodies are identical, so one model serves both.

## Model

| member | source | states |
|---|---|---|
| Values.FalsyValues | value/value.go:121-123 | a value is falsy exactly when it is NIL, the symbol NIL (`Symbol.Bool`, value/value.go:615-617) or a List whose Car is nil (`List.Bool`, value/value.go:926-928) |
| Values.TruthinessVersusIsNil | value/util.go:18-32 | every falsy value satisfies `IsNil`; the only truthy nil-equivalent values are Lists of Length 0 whose Car is still a cell |
| Values.IntEqTypeStrict | value/value.go:204-212 | `IntValue.Eq` holds only against an Integer of the same value |
| Values.NumericEqualByValue | value/value.go:215-233 | `IntValue.Equal` and `BigInt.Equal` (value/value.go:439-458) compare Integer and BigInt by numeric value, symmetrically |
| Values.EqStricterThanEqual | value/value.go:430-436 | an Integer and a BigInt of the same value are `Equal` but not `Eq` |
| Values.EqImpliesEqual | value/value.go:620-653 | on NIL, Integers, Strings, Symbols, Macros and Functions, `Eq` implies `Equal` |
| Values.AtomEqualSymmetric | value/value.go:537-556 | `Equal` is symmetric among NIL, Integer, BigInt, String and Symbol |
| Values.NilEquivalents | value/value.go:126-141 | NIL and the symbol NIL are `Eq` to every nil-equivalent value |
| Values.TypeOf | value/value.go:688-690 | `Type()` reports ConsCell exactly for a cell or a nil `*ConsCell` |
| Values.NilConvert | value/value.go:152-165 | NIL converts to NIL, String, List and Symbol only; the results are nil-equivalent except the String; other targets give a type conversion error |
| Values.IntConvert | value/value.go:248-261 | an Integer converts to Integer, Float, BigInt and String; Integer and BigInt targets keep the value; other targets give an error |
| Values.BigConvert | value/value.go:476-503 | a BigInt converts to Integer exactly when it fits int64 (`IsInt64`, value/value.go:466-469), else out of range; BigInt keeps the value; other targets give an error |
| Values.StrConvert | value/value.go:562-588 | a String converts to Integer exactly when `ParseInt` succeeds; to Symbol as its upper-cased name; to KeySym with a ':' prefix; other targets give an error |
| Values.SymConvert | value/value.go:655-664 | a Symbol converts only to String (its name) and to itself |
| Values.ErrorConvert | value/value.go:2093-2110 | an Error converts to its errno as Integer, Number or BigInt, and to its message as a String; other targets give an error |
| Values.MacroConvert | value/value.go:2159-2170 | a Macro converts to itself, to a nil value and to a String that ends with its name |
| Values.IntBigRoundTrip | value/value.go:248-261 | Integer to BigInt to Integer gives back the Integer |
| Values.BigIntegerRoundTrip | value/value.go:476-503 | a BigInt converts to Integer iff it fits int64, and then back to the same BigInt |
| Values.IntStringRoundTrip | value/value.go:562-588 | Integer to String to Integer gives back the Integer |
| Values.BigStringToInteger | value/value.go:476-503 | BigInt to String to Integer agrees with the direct BigInt to Integer conversion, range error included |
| Values.SymbolStringRoundTrip | value/value.go:655-664 | Symbol to String to Symbol upper-cases the name, and is the identity on upper-case names |
| Values.StringSymbolIdempotent | value/value.go:562-588 | String to Symbol applied twice equals applied once |
| Strconv.DecimalRoundTrip | value/value.go:248-261 | `ParseInt(FormatInt(i, 10), 10)` is `i` for every int64 |
| Strconv.DecimalOutOfRange | value/value.go:562-588 | a decimal numeral beyond MaxInt64 is a range error, not a syntax error |
| Strconv.ParseIntDigits | parserutil/parserutil.go:29 | `ParseInt` on a numeral of a base yields its value when it fits int64 and a range error otherwise; `SetString` accepts the numeral at any size |
| Lists.IsList | value/value.go:720-745 | `IsList` answers true exactly when the chain ends in Go nil, NIL or a nil `*ConsCell` |
| Lists.Next | value/value.go:748-756 | `Next` yields the following cell or a nil `*ConsCell`, whose elements are the tail of the receiver's |
| Lists.ConsActualLength | value/value.go:759-784 | `ActualLength` counts the cells of the chain, except that a lone cell with nil Car and Cdr counts 0 |
| Lists.ConsConvert | value/value.go:836-847 | a cell converts to a List of the chain with the counted length, and to itself; other targets give an error |
| Lists.List.Bool | value/value.go:926-928 | a List is truthy exactly when its chain has an element |
| Lists.List.Push | value/value.go:940-950 | `Push` puts the value in front of the contents, adds one to Length and keeps a consistent List consistent |
| Lists.List.Pop | value/value.go:953-970 | `Pop` returns the first element and leaves the tail; NIL on an empty List; Length follows the chain; it panics, changing nothing, exactly when the first Cdr is neither Go nil nor a `*ConsCell`, which never happens on a consistent List |
| Lists.List.Cdr | value/value.go:931-937 | `Cdr` is a new List of the tail with Length one less; it panics exactly when the Car is nil or the first Cdr is not a `*ConsCell` (Go nil included) |
| Lists.ActualLength | value/value.go:1028-1050 | `List.ActualLength` returns the number of elements and writes it into Length; a nil receiver or nil Car gives 0; a non-empty chain that is not proper panics, leaving Length |
| Lists.Nth | value/value.go:1053-1074 | `Nth` reports a nil receiver, an index outside [0, Length), or the element at the index exactly when the chain reaches it; it panics exactly when the walk meets a nil cell or a Go nil Cdr |
| Lists.ElementsNthSafe | value/value.go:1064-1073 | a walk that stays among the chain's cells never panics, whatever the chain ends in |
| Lists.ConsistentNth | value/value.go:1053-1074 | on a List whose Length matches its chain, every index in [0, Length) is found without a panic |
| Lists.MakeList | value/util.go:57-78 | `MakeList` builds one cell per value, in order, ending in Go nil, with Length the count (one empty cell when there are none) |
| Lists.MakeListContents | value/util.go:57-78 | for a non-empty input the List holds exactly the values and ends in Go nil |
| Lists.ListToArray | value/value.go:1092-1102 | the Array of a List holds its elements in order, padded with nil up to Length; it panics exactly when Length is negative, the chain has more cells than Length, or the chain ends in NIL or another non-cell |
| Lists.ListConvert | value/value.go:1080-1107 | a List converts to itself, to an Array and to its first cell; other targets give an error; only the Array target can panic, under the conditions of `ListToArray` |
| Lists.ArrayToList | value/value.go:1429-1449 | an Array converts to a List of its elements in order, ending in a nil `*ConsCell` |
| Lists.ArrayConvert | value/value.go:1429-1449 | an Array converts to a List and to itself; other targets give an error |
| Lists.ArrayListRoundTrip | value/value.go:1429-1449 | Array to List to Array gives back the same elements |
| Lists.ListArrayRoundTrip | value/value.go:1080-1107 | a consistent List converts to an Array without padding, and back to a List with the same elements |
| Chains.Nearest | value/environment.go:66-76 | the nearest scope binding a key, with no scope before it binding the key |
| Chains.SetThenLookup | value/environment.go:82-92 | after an upsert the key reads back the new value |
| Chains.SetOtherKey | value/environment.go:82-92 | an upsert changes no other key's lookup |
| Chains.SetFrame | value/environment.go:82-92 | an upsert writes the nearest scope that binds the key, else the current one, and no other scope |
| Chains.InsMasks | value/environment.go:98-101 | an insert masks every outer binding of the key, leaves the parents unchanged and no other key's lookup changes |
| Chains.DelRevealsOuter | value/environment.go:109-112 | a delete makes the key resolve in the parents, leaves the parents unchanged and no other key's lookup changes |
| Chains.DelAbsentNoop | value/environment.go:109-112 | deleting a key the current scope lacks changes nothing |
| Chains.InsThenDel | value/environment.go:98-112 | deleting a freshly inserted key restores the scopes |
| Chains.SetCommutes | value/environment.go:131-137 | upserts of distinct keys commute, so the map order of `SetMultiple` does not matter |
| Chains.SetAllStep | value/environment.go:131-137 | upserting one pair and then the rest equals the whole batch |
| Chains.InsAllLookup | value/environment.go:117-123 | after inserting a map each of its keys reads back its value and every other key is looked up as before |
| Chains.NilBindingMasksOnlyForLookup | value/environment.go:255-267 | a nil binding stops `Get` but `GetMacro` skips it to the outer binding |
| ValueEnv.Environment.constructor | value/environment.go:46-59 | `NewEnvironment`: three empty maps; Level 0 without a parent, one more than the parent's with one |
| ValueEnv.Environment.Get | value/environment.go:66-76 | `Get` returns the binding of the nearest scope that has the key, and not-found exactly when no scope has it |
| ValueEnv.Environment.Set | value/environment.go:82-92 | `Set` replaces the nearest binding, else creates one in the receiver; no other scope or namespace changes |
| ValueEnv.Environment.Ins | value/environment.go:98-101 | `Ins` writes the receiver's data only |
| ValueEnv.Environment.Del | value/environment.go:109-112 | `Del` removes the key from the receiver's data only |
| ValueEnv.Environment.InsMultiple | value/environment.go:117-123 | `InsMultiple` inserts every pair into the receiver |
| ValueEnv.Environment.SetMultiple | value/environment.go:131-137 | `SetMultiple` upserts every pair, each landing in the scope its key targets |
| ValueEnv.Environment.GetFn | value/environment.go:211-224 | `GetFn` returns the nearest function binding, or nil |
| ValueEnv.Environment.InsFn | value/environment.go:230-233 | `InsFn` writes the receiver's functions only |
| ValueEnv.Environment.SetFn | value/environment.go:242-252 | `SetFn` replaces the nearest function binding, else creates one in the receiver |
| ValueEnv.Environment.GetMacro | value/environment.go:255-267 | `GetMacro` returns the nearest non-nil macro binding, or nil |
| ValueEnv.Environment.InsMacro | value/environment.go:271-274 | `InsMacro` writes the receiver's macros only |
| ValueEnv.Environment.SetMacro | value/environment.go:283-295 | `SetMacro` replaces the nearest macro binding, else creates one in the receiver |
| InterpEnv.Environment.constructor | interpreter/environment.go:18-25 | `MakeEnvironment`: an empty scope in front of the parent's scopes |
| InterpEnv.Environment.Lookup | interpreter/environment.go:31-46 | `Lookup` returns the binding of the nearest scope that has the key; ok is false exactly when none has it, and the value is then nil |
| InterpEnv.Environment.LookupCurrent | interpreter/interpreter.go:24-26 | the receiver's own binding wins |
| InterpEnv.Environment.LookupDelegates | interpreter/interpreter.go:28-30 | without an own binding the answer is the parent's |
| InterpEnv.Environment.LookupNotFound | interpreter/interpreter.go:32 | a key no scope binds gives (nil, false) |
| InterpEnv.Environment.Set | interpreter/environment.go:50-52 | `Set` binds the key in the receiver only |
| InterpEnv.Environment.Delete | interpreter/environment.go:58-60 | `Delete` removes the key from the receiver only |
| InterpEnv.SetMasksParent | interpreter/environment.go:48-52 | after `Set` the key reads the new value and every other key is looked up as before |
| InterpEnv.DeleteRevealsParent | interpreter/environment.go:54-60 | after `Delete` the key resolves in the parents, other keys are unaffected, and deleting an absent key changes nothing |
| Arithmetic.RuleTable | interpreter/arithmetic.go:59-108 | the table has a rule for exactly the nine number pairs; the output is the wider tag, and the side not designated already has it |
| Arithmetic.PromoteTypes | interpreter/arithmetic.go:110-141 | promotion always succeeds on numbers; both results carry the wider tag; an operand already of that tag is unchanged; Integer and BigInt keep their value |
| Arithmetic.Demote | value/value.go:466-469 | a BigInt result becomes an Integer exactly when it fits int64, keeping its value |
| Arithmetic.Sign | interpreter/arithmetic.go:418-424 | `sign` is 1 for zero and positive numbers and -1 for negative ones |
| Arithmetic.AddOverflowsFlags | interpreter/arithmetic.go:431-444 | `addOverflows` flags exactly the four extreme-operand cases, MaxInt64 + 0 included; an unflagged result is the wrapped sum |
| Arithmetic.AddOverflowsMissesWrap | interpreter/arithmetic.go:431-444 | 2^62 + 2^62 is not flagged and returns MinInt64 |
| Arithmetic.AddOverflowsIntended | interpreter/arithmetic.go:426-430 | the intended check flags exactly the sums outside int64 and otherwise returns the exact sum |
| Arithmetic.SubOverflowsFlags | interpreter/arithmetic.go:446-459 | `subOverflows` flags every subtraction of MaxInt64 and the two extreme left operands; an unflagged result is the wrapped difference |
| Arithmetic.SubOverflowsIntended | interpreter/arithmetic.go:446-459 | the intended check flags exactly the differences outside int64 |
| Arithmetic.MulOverflowsExact | interpreter/arithmetic.go:461-474 | `mulOverflows` flags a product exactly when it leaves int64, and an unflagged result is the exact product |
| Arithmetic.EvalAdditionResult | interpreter/arithmetic.go:161-202 | without floats, addition yields a number: the exact sum when it fits or a BigInt is involved, demoted when it fits; for two Integers, the BigInt sum when flagged and the wrapped sum otherwise |
| Arithmetic.EvalAdditionMisfits | interpreter/arithmetic.go:173-185 | 2^62 + 2^62 gives Integer MinInt64; MaxInt64 + 0 gives a BigInt |
| Arithmetic.EvalAdditionIntendedExact | interpreter/arithmetic.go:161-202 | with the intended check, addition without floats is the exact sum, demoted when it fits |
| Arithmetic.EvalSubtractionResult | interpreter/arithmetic.go:204-244 | without floats, a flagged Integer difference panics; otherwise the difference is wrapped (Integers) or exact and demoted (BigInt) |
| Arithmetic.EvalSubtractionMisfits | interpreter/arithmetic.go:220-227 | 0 - MaxInt64 panics; 2^62 - (-2^62) gives Integer MinInt64 |
| Arithmetic.EvalSubtractionIntendedExact | interpreter/arithmetic.go:204-244 | with the intended check, subtraction without floats is the exact difference, demoted when it fits |
| Arithmetic.EvalMultiplicationExact | interpreter/arithmetic.go:246-290 | multiplication without floats is the exact product, an Integer when it fits and a BigInt otherwise |
| Arithmetic.MultiplicationWidens | interpreter/arithmetic.go:256-273 | (MaxInt64 / 2) * 128 becomes the BigInt 590295810358705651584 |
| Arithmetic.EvalDivisionResult | interpreter/arithmetic.go:292-326 | without floats, division gives "Division by zero" exactly for a zero divisor and a number otherwise; BigInt operands divide Euclidean and demote |
| Arithmetic.IntDivisionTruncates | interpreter/arithmetic.go:308-309 | Integer by Integer truncates toward zero: quotient times divisor plus remainder is the dividend, the remainder is smaller than the divisor and has the dividend's sign |
| Arithmetic.DivisionExamples | interpreter/arithmetic.go:292-326 | 10/4 is 2, 192/64 is 3, 590295810358705651584/128 demotes to an Integer, 7/0 is a division-by-zero error |
| Arithmetic.DivisionRoundingDependsOnType | interpreter/arithmetic.go:308-319 | -7/2 is -3 for Integers and -4 once a BigInt is involved |
| Arithmetic.DivisionWraps | interpreter/arithmetic.go:308-309 | MinInt64 / -1 wraps to MinInt64 |
| Arithmetic.EvalDivisionIntendedExact | interpreter/arithmetic.go:292-326 | with the one overflowing quotient widened, Integer division is the exact truncated quotient |
| Arithmetic.EvalNegate | interpreter/arithmetic.go:146-159 | negation succeeds on every number and keeps its type |
| Arithmetic.NegateInvolutive | interpreter/arithmetic.go:146-159 | negating twice gives the operand back; an Integer other than MinInt64 negates exactly; MinInt64 negates to itself |
| Arithmetic.EvalNegateIntended | interpreter/arithmetic.go:146-159 | the intended negation of an Integer is its exact negative, demoted when it fits |
| Arithmetic.NegateIntendedAgrees | interpreter/arithmetic.go:146-159 | the intended negation differs from the written one only on MinInt64 |
| Arithmetic.BigCmp | interpreter/arithmetic.go:375-388 | `big.Int.Cmp` answers -1, 0 or 1 |
| Arithmetic.CmpAgree | interpreter/arithmetic.go:351-388 | `cmpInt` and `cmpBigInt` never answer undefined, agree on int64 operands, and are antisymmetric |
| Arithmetic.PolymorphCmpOrder | interpreter/arithmetic.go:328-349 | without floats, the comparison answers LessThan, Equal or GreaterThan exactly as the numeric values are ordered |
| Arithmetic.CmpExamples | interpreter/arithmetic.go:328-349 | 25 < 100b and 22 > 7b |
| ParserUtil.Bignum | parserutil/parserutil.go:50-56 | `Bignum` yields the BigInt value of everything but the last character, and panics exactly when that is no decimal numeral |
| ParserUtil.BignumSuffix | parserutil/parserutil.go:50-56 | a decimal numeral followed by one suffix character reads as the numeral's value |
| ParserUtil.BignumExample | parserutil/parserutil.go:50-56 | "64b" reads as the BigInt 64 |
| ParserUtil.IntValue | parserutil/parserutil.go:28-38 | `IntValue` yields an Integer or a BigInt, or panics |
| ParserUtil.IntValueFits | parserutil/parserutil.go:28-37 | a decimal literal whose value fits int64 reads as that Integer |
| ParserUtil.IntValueRoundTrip | parserutil/parserutil.go:28-37 | the decimal rendering of an int64 reads back as the same Integer |
| ParserUtil.IntValueDropsLastDigit | parserutil/parserutil.go:29-32 | a decimal literal beyond int64 reads as a BigInt worth a tenth of it, truncated toward zero |
| ParserUtil.IntValueBeyondMax | parserutil/parserutil.go:29-32 | "9223372036854775808" reads as the BigInt 922337203685477580 |
| ParserUtil.IntValueIntendedValue | parserutil/parserutil.go:28-38 | with the whole token parsed, every decimal literal reads as its own value |
| ParserUtil.IntValueSyntaxPanics | parserutil/parserutil.go:29-34 | a malformed decimal literal panics, even when the range pattern matches the quoted input |
| ParserUtil.OctalNumber | parserutil/parserutil.go:59-77 | `OctalNumber` yields an Integer or a BigInt, or panics |
| ParserUtil.OctalNumberValue | parserutil/parserutil.go:59-77 | an octal literal reads as its value, an Integer within int64 and a BigInt beyond |
| ParserUtil.OctalNumberSyntaxPanics | parserutil/parserutil.go:59-77 | a malformed octal literal panics |
| ParserUtil.PhraseSpace | parserutil/parserutil.go:24 | whenever the range pattern matches the quoted input of a syntax error, the token has a space before its last character |
| ParserUtil.TabPhrasePanics | parserutil/parserutil.go:29-34 | a token matched through the `\v` escape fails `ParseInt` with a syntax error, is handed to `Bignum` and panics |
| ParserUtil.StringValue | parserutil/parserutil.go:88-90 | the result is the token without its first and last byte |
| ParserUtil.StringValueRoundTrip | parserutil/parserutil.go:88-90 | a quoted body reads back as the body |
| ParserUtil.HashAdd | parserutil/parserutil.go:81-84 | `HashAdd` stores the value under the key, keeps every other entry and returns the same table |

## Left out

- The evaluator (special forms, closures, macros, `do` loops) is not part of this model.
- Floating point: a Float is a tag without a payload. Float arithmetic, float comparison, the float zero test of division, `FloatValue.Equal`, `ParseFloat` (`FloatValue` in parserutil/parserutil.go:41-47) and the Float to BigInt conversions give `FloatUnmodelled` or are excluded by a precondition.
- Values.StrConvert: the Float target (`strconv.ParseFloat`) is excluded by its precondition.
- String rendering (`String()` of every type and the String targets of ConsCell, List and Array `Convert`) is not modelled.
- Pointer identity: `Eq` on BigInt, cons cells, Lists and Arrays compares pointers, and those cases are outside `EqDefined`. Errors and functions carry an explicit identity number; a Macro is identified by its name.
- Lists: cons cells are immutable values, so sharing between chains, cycles and updates through an alias are not expressed.
- Hashtable, Regexp, Program, FileHandle, GoFunction and `LispFunction` bodies are not part of this model. A function value is only an identity.
- ParserUtil.HashAdd: keys are compared structurally. Go compares BigInt, cons-cell and List keys by pointer, and Float keys by IEEE equality; neither is captured.
- `strings.ToUpper` is modelled on ASCII letters only.
- Go's map iteration order in `InsMultiple` and `SetMultiple` is an arbitrary choice (`:|`). The proofs show the result does not depend on it.
- The symbols of package `parser` are modelled by their names.
- Calling `Lookup`, `Set` or `Delete` on a nil `*Environment` panics in Go. The model's receivers are never null.
- Arithmetic.EvalSubtraction: the flagged Integer branch calls `Add` on a nil `*BigInt` and panics, so it is the outcome `Panic`.
- Arithmetic.EvalAddition, Arithmetic.EvalSubtraction, Arithmetic.EvalMultiplication, Arithmetic.EvalDivision: a promoted pair of mixed tags, which promotion never produces, is the outcome `Panic`.
- `ParseInt` with base 0 (prefix detection and underscores) is not modelled; the source always passes base 10 or 8.
- ParserUtil.RangeMatched: the error text itself is not built. The predicate states, on the input, when its `strconv.Quote` form contains the phrase. The escape `\v` for a vertical tab can supply the phrase's `v`, so that case is included. Either way the token has a space before its last character: it is never a numeral, and the range path panics like the syntax path (`ParserUtil.PhraseSpace`, `ParserUtil.TabPhrasePanics`).
- Arithmetic.EvalMultiplication: the diagnostic `fmt.Printf` that interpreter/arithmetic.go:266-269 writes on every Integer overflow is output only and is not modelled.

## Findings

| source | as written | input that shows it | evidently intended | confidence | as-written member | corrected member |
|---|---|---|---|---|---|---|
| interpreter/arithmetic.go:431-444 | the residual check `c-b != a` never fires under wrap-around, and `sign(0) == 1` flags MaxInt64 + 0 | 2^62 + 2^62 gives Integer MinInt64; MaxInt64 + 0 gives a BigInt | flag exactly the sums outside int64 | not executed | Arithmetic.EvalAdditionMisfits | Arithmetic.EvalAdditionIntendedExact |
| interpreter/arithmetic.go:446-459 | `subOverflows` flags every subtraction of MaxInt64 (then the overflow branch panics), and misses mid-range overflows | 0 - MaxInt64 panics; 2^62 - (-2^62) gives Integer MinInt64 | flag exactly the differences outside int64 and widen them | not executed | Arithmetic.EvalSubtractionMisfits | Arithmetic.EvalSubtractionIntendedExact |
| interpreter/arithmetic.go:308-309 | Integer division has no overflow check; the comment at interpreter/arithmetic.go:428-429 holds that it cannot overflow | MinInt64 / -1 gives MinInt64 | widen the quotient 2^63 to a BigInt | not executed | Arithmetic.DivisionWraps | Arithmetic.EvalDivisionIntendedExact |
| interpreter/arithmetic.go:146-159 | Integer negation has no overflow check | -MinInt64 gives MinInt64 | widen 2^63 to a BigInt | not executed | Arithmetic.NegateInvolutive | Arithmetic.NegateIntendedAgrees |
| value/util.go:57-78 | `MakeList()` with no values allocates one empty cell but sets Length 0 | `MakeList()`: `IsNil` is true, `Bool` is true, `ActualLength` counts 1 | an empty List with a nil Car | not executed | Lists.MakeListEmptyMismatch | Lists.MakeListIntendedContents |
| parserutil/parserutil.go:29-32 | the range fallback hands the whole token to `Bignum`, which strips a suffix that decimal literals do not have | "9223372036854775808" reads as 922337203685477580 | parse the whole token as a big integer | not executed | ParserUtil.IntValueDropsLastDigit | ParserUtil.IntValueIntendedValue |
