/** The Go standard-library routines the interpreter leans on for integer
    literals and Integer <-> String conversion: `strconv.ParseInt` with an
    explicit base (its digit loop is that of `strconv.ParseUint`),
    `strconv.FormatInt(_, 10)`, `big.Int.SetString` with an explicit base, and
    ASCII `strings.ToUpper`. Go strings are byte strings; here one `char`
    stands for one byte. */
module Strconv {
  import opened Types

  /** Outcome of `strconv.ParseInt`/`ParseUint`: a value, or a `*NumError`
      wrapping `ErrSyntax` or `ErrRange`. */
  datatype ParseResult = Parsed(n: int) | ErrSyntax | ErrRange

  /** Digit value as `ParseUint` computes it: '0'..'9', then letters
      case-insensitively from 10; anything else is invalid in every base. */
  function DigitValue(c: char): (d: nat)
    ensures d <= 36
  {
    if '0' <= c <= '9' then c as int - '0' as int
    else if 'a' <= c <= 'z' then c as int - 'a' as int + 10
    else if 'A' <= c <= 'Z' then c as int - 'A' as int + 10
    else 36
  }

  predicate IsDigit(c: char, base: nat) {
    DigitValue(c) < base
  }

  predicate AllDigits(s: string, base: nat) {
    forall i :: 0 <= i < |s| ==> IsDigit(s[i], base)
  }

  /** Positional value of a digit string, most significant digit first. */
  function DigitsValue(s: string, base: nat): nat
    decreases |s|
  {
    if s == [] then 0
    else DigitsValue(s[..|s| - 1], base) * base + DigitValue(s[|s| - 1])
  }

  /** One step of `ParseUint`'s loop: an invalid digit is a syntax error,
      otherwise an accumulator that would pass 2^64-1 is a range error. */
  function Step(acc: nat, c: char, base: nat): ParseResult {
    if !IsDigit(c, base) then ErrSyntax
    else if acc * base + DigitValue(c) > MaxUint64 then ErrRange
    else Parsed(acc * base + DigitValue(c))
  }

  /** `ParseUint`'s digit loop, left to right. It stops at the FIRST problem,
      so a range error that occurs before a bad character wins. */
  function ScanUint(s: string, base: nat, acc: nat): (r: ParseResult)
    requires acc <= MaxUint64
    ensures r.Parsed? ==> 0 <= r.n <= MaxUint64
    decreases |s|
  {
    if s == [] then Parsed(acc)
    else match Step(acc, s[0], base)
      case Parsed(acc') => ScanUint(s[1..], base, acc')
      case e => e
  }

  /** `strconv.ParseUint(s, base, 64)` for an explicit base. */
  function ParseUint(s: string, base: nat): (r: ParseResult)
    ensures r.Parsed? ==> 0 <= r.n <= MaxUint64
  {
    if s == [] then ErrSyntax else ScanUint(s, base, 0)
  }

  /** `strconv.ParseInt(s, base, 64)` for an explicit base. */
  function ParseInt(s: string, base: nat): (r: ParseResult)
    ensures r.Parsed? ==> InInt64(r.n)
  {
    if s == [] then ErrSyntax
    else
      var neg := s[0] == '-';
      var rest := if s[0] == '+' || s[0] == '-' then s[1..] else s;
      match ParseUint(rest, base)
      case ErrSyntax => ErrSyntax
      case ErrRange => ErrRange
      case Parsed(un) =>
        if !neg && un >= -MinInt64 then ErrRange
        else if neg && un > -MinInt64 then ErrRange
        else Parsed(if neg then -un else un)
  }

  /** `big.Int.SetString(s, base)` for an explicit base: an optional sign and
      at least one digit, every character a digit of the base. */
  function SetStringBig(s: string, base: nat): (r: Option<int>)
    ensures r.Some? ==> s != []
  {
    if s == [] then None
    else
      var neg := s[0] == '-';
      var rest := if s[0] == '+' || s[0] == '-' then s[1..] else s;
      if rest == [] || !AllDigits(rest, base) then None
      else
        var v: int := DigitsValue(rest, base);
        Some(if neg then -v else v)
  }

  function DigitChar(d: nat): (c: char)
    requires d < 10
    ensures DigitValue(c) == d
  {
    ('0' as int + d) as char
  }

  /** Base-10 digits of a natural number, without leading zeros. */
  function DecimalNat(n: nat): (s: string)
    ensures |s| >= 1
    ensures AllDigits(s, 10)
    decreases n
  {
    if n < 10 then [DigitChar(n)] else DecimalNat(n / 10) + [DigitChar(n % 10)]
  }

  /** `strconv.FormatInt(n, 10)` and `big.Int.String()`. */
  function Decimal(n: int): string {
    if n < 0 then "-" + DecimalNat(-n) else DecimalNat(n)
  }

  /** The digits `DecimalNat` prints are worth exactly `n`. */
  lemma {:induction false} DecimalNatValue(n: nat)
    ensures DigitsValue(DecimalNat(n), 10) == n
    decreases n
  {
    var s := DecimalNat(n);
    if n >= 10 {
      DecimalNatValue(n / 10);
      assert s[..|s| - 1] == DecimalNat(n / 10);
    }
  }

  /** Dropping the last printed digit is division by ten. */
  lemma DecimalNatDropLast(n: nat)
    requires n >= 10
    ensures DecimalNat(n)[..|DecimalNat(n)| - 1] == DecimalNat(n / 10)
  {
  }

  lemma MulAtLeast(x: nat, b: nat)
    requires b >= 1
    ensures x * b >= x
  {
    assert x * b == x * (b - 1) + x;
  }

  lemma {:induction false} DigitsValueMonotone(p: string, q: string, base: nat)
    requires base >= 1
    ensures DigitsValue(p + q, base) >= DigitsValue(p, base)
    decreases |q|
  {
    if q == [] {
      assert p + q == p;
    } else {
      var q' := q[..|q| - 1];
      var s := p + q;
      assert s[..|s| - 1] == p + q';
      DigitsValueMonotone(p, q', base);
      MulAtLeast(DigitsValue(p + q', base), base);
    }
  }

  /** Once the loop has failed, more input does not change the error. */
  lemma {:induction false} ScanErrorSticky(p: string, q: string, base: nat, acc: nat)
    requires acc <= MaxUint64
    requires !ScanUint(p, base, acc).Parsed?
    ensures ScanUint(p + q, base, acc) == ScanUint(p, base, acc)
    decreases |p|
  {
    assert p != [];
    assert (p + q)[0] == p[0] && (p + q)[1..] == p[1..] + q;
    if Step(acc, p[0], base).Parsed? {
      ScanErrorSticky(p[1..], q, base, Step(acc, p[0], base).n);
    }
  }

  /** Feeding one more character continues from where the loop stood. */
  lemma {:induction false} ScanSnoc(p: string, c: char, base: nat, acc: nat, m: nat)
    requires acc <= MaxUint64
    requires ScanUint(p, base, acc) == Parsed(m)
    ensures ScanUint(p + [c], base, acc) == Step(m, c, base)
    decreases |p|
  {
    if p == [] {
      assert ScanUint(p + [c], base, acc) == ScanUint([c], base, acc);
      assert acc == m;
      assert [c][1..] == [];
    } else {
      assert (p + [c])[0] == p[0] && (p + [c])[1..] == p[1..] + [c];
      ScanSnoc(p[1..], c, base, Step(acc, p[0], base).n, m);
    }
  }

  /** On a string of valid digits the loop yields the digits' value, or a
      range error exactly when that value passes 2^64-1. */
  lemma {:induction false} ScanValidDigits(s: string, base: nat)
    requires 2 <= base <= 36
    requires s != [] && AllDigits(s, base)
    ensures ScanUint(s, base, 0) ==
      if DigitsValue(s, base) <= MaxUint64 then Parsed(DigitsValue(s, base)) else ErrRange
    decreases |s|
  {
    var p, c := s[..|s| - 1], s[|s| - 1];
    assert s == p + [c];
    if p == [] {
      assert DigitsValue(s, base) == DigitValue(c);
      assert ScanUint([c], base, 0) == Step(0, c, base);
    } else {
      ScanValidDigits(p, base);
      if DigitsValue(p, base) <= MaxUint64 {
        ScanSnoc(p, c, base, 0, DigitsValue(p, base));
      } else {
        ScanErrorSticky(p, [c], base, 0);
        DigitsValueMonotone(p, [c], base);
      }
    }
  }

  /** `ParseInt(FormatInt(i, 10), 10)` gives back `i`: the decimal rendering
      of an int64 round-trips through the parser. */
  lemma DecimalRoundTrip(i: int)
    requires InInt64(i)
    ensures ParseInt(Decimal(i), 10) == Parsed(i)
  {
    var n: nat := if i < 0 then -i else i;
    var digits := DecimalNat(n);
    DecimalNatValue(n);
    ScanValidDigits(digits, 10);
    assert DigitValue(digits[0]) < 10;
    if i < 0 {
      assert Decimal(i) == "-" + digits;
      assert Decimal(i)[1..] == digits;
    } else {
      assert digits[0] != '-' && digits[0] != '+';
    }
  }

  /** A decimal numeral whose value lies outside int64 is a range error, never
      a syntax error. */
  lemma DecimalOutOfRange(n: nat)
    requires n > MaxInt64
    ensures ParseInt(DecimalNat(n), 10) == ErrRange
  {
    var digits := DecimalNat(n);
    DecimalNatValue(n);
    ScanValidDigits(digits, 10);
    assert DigitValue(digits[0]) < 10;
    assert digits[0] != '-' && digits[0] != '+';
  }

  /** `SetString` accepts every decimal numeral and yields its value. */
  lemma DecimalSetString(n: nat)
    ensures SetStringBig(DecimalNat(n), 10) == Some(n)
  {
    var digits := DecimalNat(n);
    DecimalNatValue(n);
    assert DigitValue(digits[0]) < 10;
    assert digits[0] != '-' && digits[0] != '+';
  }

  /** A numeral: an optional minus sign in front of a non-empty digit string. */
  function SignedNumeral(neg: bool, digits: string): string {
    if neg then "-" + digits else digits
  }

  /** `ParseInt` on a numeral of the base yields its value when that value
      fits int64 and a range error otherwise (never a syntax error), while
      `SetString` accepts the numeral whatever its size. */
  lemma ParseIntDigits(neg: bool, digits: string, base: nat)
    requires 2 <= base <= 36
    requires digits != [] && AllDigits(digits, base)
    ensures var v: int := DigitsValue(digits, base);
            var n := if neg then -v else v;
            ParseInt(SignedNumeral(neg, digits), base) == (if InInt64(n) then Parsed(n) else ErrRange) &&
            SetStringBig(SignedNumeral(neg, digits), base) == Some(n)
  {
    var s := SignedNumeral(neg, digits);
    ScanValidDigits(digits, base);
    assert DigitValue(digits[0]) < base;
    if neg {
      assert s[1..] == digits;
    } else {
      assert digits[0] != '-' && digits[0] != '+';
    }
  }

  function UpperChar(c: char): char {
    if 'a' <= c <= 'z' then (c as int - 'a' as int + 'A' as int) as char else c
  }

  /** `strings.ToUpper`, restricted to ASCII letters. */
  function ToUpper(s: string): (r: string)
    ensures |r| == |s|
    ensures forall i :: 0 <= i < |s| ==> r[i] == UpperChar(s[i])
  {
    seq(|s|, i requires 0 <= i < |s| => UpperChar(s[i]))
  }

  /** Upper-casing twice is upper-casing once. */
  lemma ToUpperIdempotent(s: string)
    ensures ToUpper(ToUpper(s)) == ToUpper(s)
  {
  }
}
