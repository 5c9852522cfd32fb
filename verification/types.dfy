/** Type tags, the int64 range, and the three-way comparison result shared by
    the value model, the numeric tower and the literal parser. */
module Types {

  /** The type identifiers the value model dispatches on (package `types`). */
  datatype TypeId =
    | NilT | IntegerT | FloatT | BigIntT | StringT | SymbolT | KeySymT
    | ConsCellT | ListT | ArrayT | HashtableT | FunctionT | ProgramT
    | RegexpT | ErrorT | MacroT | NumberT | FileHandleT

  /** Go's `math.MinInt64` and `math.MaxInt64` (`mostNegative`/`mostPositive`). */
  const MinInt64: int := -0x8000_0000_0000_0000
  const MaxInt64: int := 0x7fff_ffff_ffff_ffff
  /** Largest value a 64-bit unsigned parse accepts. */
  const MaxUint64: int := 0xffff_ffff_ffff_ffff
  /** 2^64, the modulus of int64 wrap-around. */
  const Modulus: int := 0x1_0000_0000_0000_0000

  predicate InInt64(x: int) {
    MinInt64 <= x <= MaxInt64
  }

  /** An `int64` / `IntValue`. */
  type Int64 = x: int | MinInt64 <= x <= MaxInt64

  /** Two's complement wrap-around of an exact result into int64, as Go's
      signed `+`, `-`, `*` and unary `-` do silently. */
  function Wrap(x: int): (r: Int64)
    ensures InInt64(x) ==> r == x
    ensures (r - x) % Modulus == 0
  {
    var q := (x - MinInt64) / Modulus;
    x - q * Modulus
  }

  /** Adding whole multiples of 2^64 does not change the wrapped value. */
  lemma WrapShift(x: int, k: int)
    ensures Wrap(x + k * Modulus) == Wrap(x)
  {
    var q := (x - MinInt64) / Modulus;
    var q' := (x + k * Modulus - MinInt64) / Modulus;
    assert q' == q + k;
  }

  /** Two int64 values that differ by a multiple of 2^64 are equal. */
  lemma CongruentInt64Equal(a: int, b: int)
    requires InInt64(a) && InInt64(b)
    requires (a - b) % Modulus == 0
    ensures a == b
  {
  }

  datatype Option<T> = None | Some(value: T)

  /** `compare.Result`. */
  datatype CmpResult = Undefined | LessThan | Equal | GreaterThan
}
