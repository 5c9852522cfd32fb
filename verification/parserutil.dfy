/** Package parserutil (parserutil/parserutil.go): the helpers the generated
    parser calls to turn literal tokens into values. `IntValue` parses a
    decimal literal, `Bignum` a literal with the `b` suffix, `OctalNumber` an
    octal literal, `StringValue` strips the quotes from a string token and
    `HashAdd` inserts a pair into a hash-table literal.

    A Go `panic` on a malformed token is the outcome `Panics`. */
module ParserUtil {
  import opened Types
  import opened Values
  import opened Strconv

  /** What a literal helper produces: a number, or a panic. */
  datatype Literal = Number(v: Value) | Panics

  /** The text `erangePat` looks for in the parse error's message. */
  const RangeText := "value out of range"

  /** `p` occurs in `s` starting at index `i`. */
  predicate OccursAt(s: string, p: string, i: nat) {
    i + |p| <= |s| && s[i..i + |p|] == p
  }

  predicate Contains(s: string, p: string) {
    exists i: nat :: i <= |s| && OccursAt(s, p, i)
  }

  /** The phrase as the quoted message shows it when the input holds a
      vertical tab, which `strconv.Quote` writes as `\v`, followed by the
      rest of the phrase. */
  const TabRangeText: string := [11 as char] + RangeText[1..]

  /** Whether `erangePat` matches the message of the `*NumError` that
      `ParseInt` returned for `s`. The message quotes the input, so the
      pattern matches on a range error and also on a syntax error whose
      quoted input contains the phrase. The phrase is printable ASCII, which
      `strconv.Quote` copies unchanged, and no escape but `\v` ends in one
      of its letters, so the quoted input contains it exactly when the input
      contains the phrase itself or a vertical tab followed by its rest. */
  predicate RangeMatched(s: string, e: ParseResult) {
    e == ErrRange ||
    (e == ErrSyntax && (Contains(s, RangeText) || Contains(s, TabRangeText)))
  }

  /** `Bignum`: everything but the last character (the `b` suffix) parsed
      in base 10 as a big integer; an empty token or a malformed rest
      panics. */
  function Bignum(s: string): (r: Literal)
    ensures r.Number? ==> r.v.BigInt? && s != [] && SetStringBig(s[..|s| - 1], 10) == Some(r.v.n)
    ensures r == Panics <==> s == [] || SetStringBig(s[..|s| - 1], 10).None?
  {
    if s == [] then Panics
    else
      var b := SetStringBig(s[..|s| - 1], 10);
      if b.None? then Panics else Number(BigInt(b.value))
  }

  /** `IntValue`: `ParseInt(s, 10, 64)`; a range error hands the token to
      `Bignum` unchanged, any other failure panics. */
  function IntValue(s: string): (r: Literal)
    ensures r.Number? ==> r.v.Int? || r.v.BigInt?
  {
    var res := ParseInt(s, 10);
    if res.Parsed? then Number(Int(res.n))
    else if RangeMatched(s, res) then Bignum(s)
    else Panics
  }

  /** The same helper with the range fallback parsing the WHOLE token. */
  function IntValueIntended(s: string): (r: Literal)
    ensures r.Number? ==> r.v.Int? || r.v.BigInt?
  {
    var res := ParseInt(s, 10);
    if res.Parsed? then Number(Int(res.n))
    else if RangeMatched(s, res) then
      var b := SetStringBig(s, 10);
      if b.None? then Panics else Number(BigInt(b.value))
    else Panics
  }

  /** `OctalNumber`: `ParseInt(s, 8, 64)`; on a range error the whole token
      is parsed in base 8 as a big integer; any other failure panics. */
  function OctalNumber(s: string): (r: Literal)
    ensures r.Number? ==> r.v.Int? || r.v.BigInt?
  {
    var res := ParseInt(s, 8);
    if res.Parsed? then Number(Int(res.n))
    else if RangeMatched(s, res) then
      var b := SetStringBig(s, 8);
      if b.None? then Panics else Number(BigInt(b.value))
    else Panics
  }

  /** The value a numeral of the given base stands for, as the reader should
      build it: an Integer when it fits int64, a BigInt otherwise. */
  function NumeralValue(neg: bool, digits: string, base: nat): Value {
    var v: int := DigitsValue(digits, base);
    var n := if neg then -v else v;
    if InInt64(n) then Int(n) else BigInt(n)
  }

  /** A one-digit numeral is worth less than the base. */
  lemma OneDigit(digits: string, base: nat)
    requires |digits| == 1 && AllDigits(digits, base)
    ensures DigitsValue(digits, base) < base
  {
    assert DigitsValue(digits, base) == DigitsValue([], base) * base + DigitValue(digits[0]);
  }

  /** A decimal literal whose value fits int64 becomes that Integer. */
  lemma IntValueFits(neg: bool, digits: string)
    requires digits != [] && AllDigits(digits, 10)
    requires NumeralValue(neg, digits, 10).Int?
    ensures IntValue(SignedNumeral(neg, digits)) == Number(NumeralValue(neg, digits, 10))
  {
    ParseIntDigits(neg, digits, 10);
  }

  /** A decimal literal outside int64 becomes a BigInt worth the literal
      with its last digit dropped: `Bignum` strips one character that is not
      there. */
  lemma IntValueDropsLastDigit(neg: bool, digits: string)
    requires digits != [] && AllDigits(digits, 10)
    requires NumeralValue(neg, digits, 10).BigInt?
    ensures var v := DigitsValue(digits, 10);
            IntValue(SignedNumeral(neg, digits)) == Number(BigInt(if neg then -(v / 10) else v / 10))
  {
    var s := SignedNumeral(neg, digits);
    var v := DigitsValue(digits, 10);
    ParseIntDigits(neg, digits, 10);
    if |digits| == 1 {
      OneDigit(digits, 10);
      assert false;
    }
    var front := digits[..|digits| - 1];
    assert s[..|s| - 1] == SignedNumeral(neg, front);
    assert AllDigits(front, 10);
    ParseIntDigits(neg, front, 10);
    assert v == DigitsValue(front, 10) * 10 + DigitValue(digits[|digits| - 1]);
  }

  /** The first literal the reader cannot represent as an int64 reads back
      as a tenth of itself. */
  lemma IntValueBeyondMax()
    ensures IntValue("9223372036854775808") == Number(BigInt(922337203685477580))
  {
    var d := "9223372036854775808";
    assert DigitsValue(d[..1], 10) == 9;
    assert DigitsValue(d[..2], 10) == 92 by { assert d[..2][..1] == d[..1]; }
    assert DigitsValue(d[..3], 10) == 922 by { assert d[..3][..2] == d[..2]; }
    assert DigitsValue(d[..4], 10) == 9223 by { assert d[..4][..3] == d[..3]; }
    assert DigitsValue(d[..5], 10) == 92233 by { assert d[..5][..4] == d[..4]; }
    assert DigitsValue(d[..6], 10) == 922337 by { assert d[..6][..5] == d[..5]; }
    assert DigitsValue(d[..7], 10) == 9223372 by { assert d[..7][..6] == d[..6]; }
    assert DigitsValue(d[..8], 10) == 92233720 by { assert d[..8][..7] == d[..7]; }
    assert DigitsValue(d[..9], 10) == 922337203 by { assert d[..9][..8] == d[..8]; }
    assert DigitsValue(d[..10], 10) == 9223372036 by { assert d[..10][..9] == d[..9]; }
    assert DigitsValue(d[..11], 10) == 92233720368 by { assert d[..11][..10] == d[..10]; }
    assert DigitsValue(d[..12], 10) == 922337203685 by { assert d[..12][..11] == d[..11]; }
    assert DigitsValue(d[..13], 10) == 9223372036854 by { assert d[..13][..12] == d[..12]; }
    assert DigitsValue(d[..14], 10) == 92233720368547 by { assert d[..14][..13] == d[..13]; }
    assert DigitsValue(d[..15], 10) == 922337203685477 by { assert d[..15][..14] == d[..14]; }
    assert DigitsValue(d[..16], 10) == 9223372036854775 by { assert d[..16][..15] == d[..15]; }
    assert DigitsValue(d[..17], 10) == 92233720368547758 by { assert d[..17][..16] == d[..16]; }
    assert DigitsValue(d[..18], 10) == 922337203685477580 by { assert d[..18][..17] == d[..17]; }
    assert DigitsValue(d, 10) == 9223372036854775808 by { assert d[..18] == d[..|d| - 1]; }
    IntValueDropsLastDigit(false, d);
  }

  /** With the whole token parsed, every decimal literal reads back as its
      own value. */
  lemma IntValueIntendedValue(neg: bool, digits: string)
    requires digits != [] && AllDigits(digits, 10)
    ensures IntValueIntended(SignedNumeral(neg, digits)) == Number(NumeralValue(neg, digits, 10))
  {
    ParseIntDigits(neg, digits, 10);
  }

  /** Printing an int64 and reading it back gives the same Integer. */
  lemma IntValueRoundTrip(i: Int64)
    ensures IntValue(Decimal(i)) == Number(Int(i))
  {
    DecimalRoundTrip(i);
  }

  /** `Bignum` reads the digits in front of the suffix: "64b" is 64. */
  lemma BignumSuffix(digits: string, suffix: char)
    requires digits != [] && AllDigits(digits, 10)
    ensures Bignum(digits + [suffix]) == Number(BigInt(DigitsValue(digits, 10)))
  {
    ParseIntDigits(false, digits, 10);
    assert (digits + [suffix])[..|digits|] == digits;
  }

  lemma BignumExample()
    ensures Bignum("64b") == Number(BigInt(64))
  {
    BignumSuffix("64", 'b');
    assert "64" + ['b'] == "64b";
  }

  /** An octal literal becomes its value, an Integer within int64 and a
      BigInt beyond it: the fallback parses the whole token, so no digit is
      lost. */
  lemma OctalNumberValue(neg: bool, digits: string)
    requires digits != [] && AllDigits(digits, 8)
    ensures OctalNumber(SignedNumeral(neg, digits)) == Number(NumeralValue(neg, digits, 8))
  {
    ParseIntDigits(neg, digits, 8);
  }

  /** A token with a space in it is no numeral in base 10 or lower, so
      its string fallback fails too. */
  lemma SpaceNotNumeral(t: string, base: nat)
    requires base <= 10
    requires exists i :: 0 <= i < |t| && t[i] == ' '
    ensures SetStringBig(t, base).None?
  {
    var i :| 0 <= i < |t| && t[i] == ' ';
    if t[0] == '+' || t[0] == '-' {
      assert i >= 1 && t[1..][i - 1] == ' ';
    } else {
      assert t[i] == ' ';
    }
  }

  /** Whenever the pattern matches a syntax error, the token has a space
      before its last character: the spaces of the phrase are the token's
      own, and `range` follows them. */
  lemma PhraseSpace(s: string) returns (i: nat)
    requires Contains(s, RangeText) || Contains(s, TabRangeText)
    ensures i < |s| - 1 && s[i] == ' '
  {
    if Contains(s, RangeText) {
      var j: nat :| j <= |s| && OccursAt(s, RangeText, j);
      assert s[j..j + |RangeText|][5] == ' ';
      i := j + 5;
    } else {
      var j: nat :| j <= |s| && OccursAt(s, TabRangeText, j);
      assert s[j..j + |TabRangeText|][5] == ' ';
      i := j + 5;
    }
  }

  /** A malformed decimal literal panics, even when the pattern matches the
      quoted input and the token goes to `Bignum`. */
  lemma IntValueSyntaxPanics(s: string)
    requires ParseInt(s, 10) == ErrSyntax
    ensures IntValue(s) == Panics
    ensures IntValueIntended(s) == Panics
  {
    if Contains(s, RangeText) || Contains(s, TabRangeText) {
      var i := PhraseSpace(s);
      assert s[..|s| - 1][i] == ' ';
      SpaceNotNumeral(s[..|s| - 1], 10);
      SpaceNotNumeral(s, 10);
    }
  }

  /** A malformed octal literal panics. */
  lemma OctalNumberSyntaxPanics(s: string)
    requires ParseInt(s, 8) == ErrSyntax
    ensures OctalNumber(s) == Panics
  {
    if Contains(s, RangeText) || Contains(s, TabRangeText) {
      var i := PhraseSpace(s);
      SpaceNotNumeral(s, 8);
    }
  }

  /** A token the pattern matches through the `\v` escape reaches
      `Bignum`, and panics there. */
  lemma TabPhrasePanics()
    ensures ParseInt(TabRangeText, 10) == ErrSyntax
    ensures RangeMatched(TabRangeText, ParseInt(TabRangeText, 10))
    ensures IntValue(TabRangeText) == Panics
  {
    assert OccursAt(TabRangeText, TabRangeText, 0);
    assert !IsDigit(TabRangeText[0], 10);
    IntValueSyntaxPanics(TabRangeText);
  }

  /** The string token with its surrounding double quotes. */
  function Quoted(body: string): string {
    "\"" + body + "\""
  }

  /** `StringValue`: the token without its first and last byte. Nothing
      inside is unescaped. */
  function StringValue(s: string): (r: Value)
    requires |s| >= 2
    ensures r.Str? && |r.s| == |s| - 2
    ensures forall i :: 0 <= i < |r.s| ==> r.s[i] == s[i + 1]
  {
    Str(s[1..|s| - 1])
  }

  /** Quoting a body and reading the token back gives the body. */
  lemma StringValueRoundTrip(body: string)
    ensures StringValue(Quoted(body)) == Str(body)
  {
    assert Quoted(body)[1..|Quoted(body)| - 1] == body;
  }

  /** Go cannot hash a slice, so an Array used as a key panics. */
  predicate Hashable(v: Value) {
    !v.Arr?
  }

  /** `Hashtable`: a Go map from values to values, shared by reference. */
  class Hashtable {
    var entries: map<Value, Value>

    constructor ()
      ensures entries == map[]
    {
      entries := map[];
    }
  }

  /** `HashAdd`: stores `val` under `key` in the table and returns the same
      table, so calls can be chained; every other key keeps its entry. */
  method HashAdd(tbl: Hashtable, key: Value, val: Value) returns (r: Hashtable)
    requires Hashable(key)
    modifies tbl
    ensures r == tbl
    ensures tbl.entries == old(tbl.entries)[key := val]
    ensures key in tbl.entries && tbl.entries[key] == val
    ensures forall k :: k != key ==> (k in tbl.entries <==> k in old(tbl.entries))
    ensures forall k :: k != key && k in tbl.entries ==> tbl.entries[k] == old(tbl.entries)[k]
  {
    tbl.entries := tbl.entries[key := val];
    r := tbl;
  }
}
