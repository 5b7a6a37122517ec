/**
 * The ECMAScript number operations the API relies on: `Number(x)` of a
 * string or `undefined`, subtraction, multiplication, addition and `<`
 * on numbers that may be NaN or infinite, and `Array.prototype.slice`
 * with its conversion of the bounds to integers.  Finite numbers are
 * exact reals: rounding to double precision is not modelled.
 */
module JsNumber {
  import opened Wrappers
  import opened JsString

  /** An ECMAScript number value. */
  datatype Number = NaN | PosInf | NegInf | Finite(v: real)

  // ------------------------------------------------------------ arithmetic

  function Neg(a: Number): Number {
    match a
    case NaN => NaN
    case PosInf => NegInf
    case NegInf => PosInf
    case Finite(x) => Finite(-x)
  }

  /** `a + b`: NaN when either is NaN or the infinities cancel. */
  function Add(a: Number, b: Number): (r: Number)
    ensures a.Finite? && b.Finite? ==> r == Finite(a.v + b.v)
    ensures r.NaN? <==> a.NaN? || b.NaN? || (a.PosInf? && b.NegInf?) || (a.NegInf? && b.PosInf?)
  {
    match (a, b)
    case (NaN, _) => NaN
    case (_, NaN) => NaN
    case (PosInf, NegInf) => NaN
    case (NegInf, PosInf) => NaN
    case (PosInf, _) => PosInf
    case (_, PosInf) => PosInf
    case (NegInf, _) => NegInf
    case (_, NegInf) => NegInf
    case (Finite(x), Finite(y)) => Finite(x + y)
  }

  /** `a - b`. */
  function Sub(a: Number, b: Number): Number {
    Add(a, Neg(b))
  }

  function Sign(a: Number): int {
    match a
    case NaN => 0
    case PosInf => 1
    case NegInf => -1
    case Finite(x) => if x > 0.0 then 1 else if x < 0.0 then -1 else 0
  }

  /** `a * b`: NaN when either is NaN or an infinity meets zero; otherwise the sign rule. */
  function Mul(a: Number, b: Number): (r: Number)
    ensures a.Finite? && b.Finite? ==> r == Finite(a.v * b.v)
    ensures r.NaN? <==> a.NaN? || b.NaN? || ((a.PosInf? || a.NegInf?) && Sign(b) == 0)
                                          || ((b.PosInf? || b.NegInf?) && Sign(a) == 0)
  {
    if a.NaN? || b.NaN? then NaN
    else if a.Finite? && b.Finite? then Finite(a.v * b.v)
    else
      var s := Sign(a) * Sign(b);
      if s > 0 then PosInf else if s < 0 then NegInf else NaN
  }

  /** `a < b`: false whenever either is NaN. */
  predicate Less(a: Number, b: Number) {
    match (a, b)
    case (NaN, _) => false
    case (_, NaN) => false
    case (Finite(x), Finite(y)) => x < y
    case (NegInf, _) => !b.NegInf?
    case (_, PosInf) => !a.PosInf?
    case _ => false
  }

  // ------------------------------------------------------------ Number(string)

  predicate IsDecimalDigit(c: char) { '0' <= c <= '9' }

  /** The value of one digit in the given radix, or -1 when `c` is not a digit of it. */
  function DigitValue(c: char, radix: nat): (r: int)
    ensures r == -1 || 0 <= r < radix
  {
    var d :=
      if '0' <= c <= '9' then c as int - '0' as int
      else if 'a' <= c <= 'z' then c as int - 'a' as int + 10
      else if 'A' <= c <= 'Z' then c as int - 'A' as int + 10
      else -1;
    if 0 <= d < radix then d else -1
  }

  predicate AllDigits(s: string, radix: nat) {
    forall i :: 0 <= i < |s| ==> DigitValue(s[i], radix) >= 0
  }

  /** The value of a string of digits, most significant first. */
  function DigitsValue(s: string, radix: nat): nat
    requires AllDigits(s, radix)
  {
    if |s| == 0 then 0 else DigitsValue(s[..|s| - 1], radix) * radix + DigitValue(s[|s| - 1], radix)
  }

  /** The value of the decimal digits after a decimal point. */
  function FractionValue(s: string): real
    requires AllDigits(s, 10)
  {
    if |s| == 0 then 0.0 else (DigitValue(s[0], 10) as real + FractionValue(s[1..])) / 10.0
  }

  function Pow10(n: nat): (r: real)
    ensures r >= 1.0
  {
    if n == 0 then 1.0 else 10.0 * Pow10(n - 1)
  }

  /** Ten to an integer power. */
  function Scale(e: int): (r: real)
    ensures r > 0.0
  {
    if e >= 0 then Pow10(e) else 1.0 / Pow10(-e)
  }

  /** An exponent after `e` or `E`: an optional sign and at least one decimal digit. */
  function Exponent(s: string): Option<int> {
    var digits := if |s| > 0 && (s[0] == '+' || s[0] == '-') then s[1..] else s;
    if |digits| == 0 || !AllDigits(digits, 10) then None
    else
      var magnitude: int := DigitsValue(digits, 10);
      Some(if |s| > 0 && s[0] == '-' then -magnitude else magnitude)
  }

  /**
   * An unsigned decimal literal: `Infinity`, or digits with an optional
   * fraction and an optional exponent.
   */
  function UnsignedDecimal(s: string): Number {
    if s == "Infinity" then PosInf else ScaledDecimal(s)
  }

  /** A mantissa, then optionally `e` or `E` and an exponent. */
  function ScaledDecimal(s: string): Number {
    var e := CharIndex(s, 'e');
    var bigE := CharIndex(s, 'E');
    var cut := if e < bigE then e else bigE;
    var mantissa := Mantissa(s[..cut]);
    var exponent := if cut < |s| then Exponent(s[cut + 1..]) else Some(0);
    if mantissa.None? || exponent.None? then NaN else Finite(mantissa.value * Scale(exponent.value))
  }

  /** Digits with an optional fraction after a point, with at least one digit on one side of it. */
  function Mantissa(m: string): Option<real> {
    var point := CharIndex(m, '.');
    var whole := m[..point];
    var fraction := if point < |m| then m[point + 1..] else "";
    if |whole| + |fraction| == 0 || !AllDigits(whole, 10) || !AllDigits(fraction, 10) then None
    else Some(DigitsValue(whole, 10) as real + FractionValue(fraction))
  }

  /** A trimmed, non-empty numeric literal: binary, octal or hexadecimal integer, or signed decimal. */
  function NumericLiteral(t: string): Number
    requires |t| > 0
  {
    var radix :=
      if |t| >= 2 && t[0] == '0' && (t[1] == 'x' || t[1] == 'X') then 16
      else if |t| >= 2 && t[0] == '0' && (t[1] == 'o' || t[1] == 'O') then 8
      else if |t| >= 2 && t[0] == '0' && (t[1] == 'b' || t[1] == 'B') then 2
      else 10;
    if radix != 10 then
      if |t| > 2 && AllDigits(t[2..], radix) then Finite(DigitsValue(t[2..], radix) as real) else NaN
    else if t[0] == '+' then UnsignedDecimal(t[1..])
    else if t[0] == '-' then Neg(UnsignedDecimal(t[1..]))
    else UnsignedDecimal(t)
  }

  /** `Number(s)` of a string: white space around the literal is ignored, and a blank string is 0. */
  function StringToNumber(s: string): Number {
    var t := Trim(s);
    if |t| == 0 then Finite(0.0) else NumericLiteral(t)
  }

  /** `Number(x)` of a string or `undefined`, which is NaN. */
  function ToNumber(x: Option<string>): (r: Number)
    ensures x.None? ==> r.NaN?
    ensures x.Some? && NoWhitespace(x.value) && |x.value| == 0 ==> r == Finite(0.0)
  {
    match x
    case None => NaN
    case Some(s) => StringToNumber(s)
  }

  lemma DigitCharValue(d: nat)
    requires d < 10
    ensures IsDecimalDigit(DigitChar(d)) && DigitValue(DigitChar(d), 10) == d
  {
    assert DigitChar(d) as int == '0' as int + d;
  }

  lemma {:induction false} DigitsValueOfNat(n: nat)
    ensures AllDigits(NatToString(n), 10)
    ensures DigitsValue(NatToString(n), 10) == n
  {
    var s := NatToString(n);
    if n >= 10 {
      DigitsValueOfNat(n / 10);
      var front := NatToString(n / 10);
      DigitCharValue(n % 10);
      assert s == front + [DigitChar(n % 10)];
      assert s[..|s| - 1] == front;
      assert DigitsValue(s, 10) == DigitsValue(front, 10) * 10 + n % 10;
    } else {
      DigitCharValue(n);
      assert s == [DigitChar(n)];
      assert s[..0] == [];
    }
  }

  /** A plain run of decimal digits is read as the integer it spells. */
  lemma UnsignedDigits(s: string)
    requires |s| > 0 && forall i :: 0 <= i < |s| ==> IsDecimalDigit(s[i])
    ensures AllDigits(s, 10)
    ensures UnsignedDecimal(s) == Finite(DigitsValue(s, 10) as real)
  {
    assert s != "Infinity" by {
      assert !IsDecimalDigit("Infinity"[0]);
    }
    CharIndexAbsent(s, 'e');
    CharIndexAbsent(s, 'E');
    assert s[..|s|] == s;
    MantissaOfDigits(s);
  }

  lemma MantissaOfDigits(s: string)
    requires |s| > 0 && forall i :: 0 <= i < |s| ==> IsDecimalDigit(s[i])
    ensures AllDigits(s, 10)
    ensures Mantissa(s) == Some(DigitsValue(s, 10) as real)
  {
    CharIndexAbsent(s, '.');
    assert s[..|s|] == s;
    assert FractionValue("") == 0.0;
  }

  /** A run of decimal digits is a decimal literal, whatever its first digit. */
  lemma DigitsAreDecimal(s: string)
    requires |s| > 0 && forall i :: 0 <= i < |s| ==> IsDecimalDigit(s[i])
    ensures AllDigits(s, 10)
    ensures NumericLiteral(s) == Finite(DigitsValue(s, 10) as real)
  {
    assert !(|s| >= 2 && (s[1] == 'x' || s[1] == 'X' || s[1] == 'o' || s[1] == 'O' || s[1] == 'b' || s[1] == 'B'));
    assert s[0] != '+' && s[0] != '-';
    UnsignedDigits(s);
  }

  /** `Number` reads back the decimal rendering of every natural number. */
  lemma NatToStringToNumber(n: nat)
    ensures ToNumber(Some(NatToString(n))) == Finite(n as real)
  {
    var s := NatToString(n);
    TrimmedLiteral(s);
    DigitsValueOfNat(n);
    DigitsAreDecimal(s);
  }

  /** A signed run of decimal digits has no white space to trim, so `Number` reads it as a literal. */
  lemma TrimmedLiteral(s: string)
    requires |s| > 0
    requires forall i :: 0 <= i < |s| ==> IsDecimalDigit(s[i]) || (i == 0 && s[i] == '-')
    ensures StringToNumber(s) == NumericLiteral(s)
  {
    assert !IsWhitespace(s[0]) && !IsWhitespace(s[|s| - 1]);
    TrimKeeps(s);
  }

  /** A minus sign in front of a decimal literal negates it. */
  lemma NegativeDigits(s: string)
    requires |s| > 0 && forall i :: 0 <= i < |s| ==> IsDecimalDigit(s[i])
    ensures StringToNumber("-" + s) == Neg(UnsignedDecimal(s))
  {
    var t := "-" + s;
    TrimmedLiteral(t);
    NegativeLiteral(s);
  }

  lemma NegativeLiteral(s: string)
    ensures NumericLiteral("-" + s) == Neg(UnsignedDecimal(s))
  {
    var t := "-" + s;
    assert t[0] == '-' && t[1..] == s;
  }

  /** `Number` reads back the decimal rendering of every integer. */
  lemma IntToStringToNumber(n: int)
    ensures ToNumber(Some(IntToString(n))) == Finite(n as real)
  {
    if n >= 0 {
      NatToStringToNumber(n);
    } else {
      NegativeToNumber(n);
    }
  }

  lemma NegativeToNumber(n: int)
    requires n < 0
    ensures ToNumber(Some(IntToString(n))) == Finite(n as real)
  {
    NegatedNatToNumber(NatToString(-n), -n);
  }

  lemma NegatedNatToNumber(s: string, m: nat)
    requires m > 0 && s == NatToString(m)
    ensures ToNumber(Some(IntToString(-(m as int)))) == Finite(-(m as real))
  {
    assert IntToString(-(m as int)) == "-" + s;
    NegativeDigits(s);
    DigitsValueOfNat(m);
    UnsignedDigits(s);
  }

  lemma CharIndexAbsent(s: string, c: char)
    requires forall i :: 0 <= i < |s| ==> IsDecimalDigit(s[i])
    requires !IsDecimalDigit(c)
    ensures CharIndex(s, c) == |s|
  {
  }

  /** A lower-case word without `e` is not a numeral: a page segment such as `abc` converts to NaN. */
  lemma LettersAreNaN(s: string)
    requires |s| > 0
    requires forall i :: 0 <= i < |s| ==> IsWordLetter(s[i])
    ensures ToNumber(Some(s)) == NaN
  {
    LettersTrimmed(s);
    LettersLiteral(s);
    LettersCut(s);
    LettersMantissa(s);
  }

  /** The lower-case letters other than the exponent marker `e`. */
  predicate IsWordLetter(c: char) {
    'a' <= c <= 'z' && c != 'e'
  }

  lemma LettersTrimmed(s: string)
    requires |s| > 0
    requires forall i :: 0 <= i < |s| ==> IsWordLetter(s[i])
    ensures StringToNumber(s) == NumericLiteral(s)
  {
    assert !IsWhitespace(s[0]) && !IsWhitespace(s[|s| - 1]);
    TrimKeeps(s);
  }

  lemma LettersLiteral(s: string)
    requires |s| > 0
    requires forall i :: 0 <= i < |s| ==> IsWordLetter(s[i])
    ensures NumericLiteral(s) == ScaledDecimal(s)
  {
    assert s[0] != '0' && s[0] != '+' && s[0] != '-';
    assert s != "Infinity" by {
      assert s[0] != "Infinity"[0];
    }
  }

  lemma LettersCut(s: string)
    requires forall i :: 0 <= i < |s| ==> IsWordLetter(s[i])
    ensures CharIndex(s, 'e') == |s| && CharIndex(s, 'E') == |s|
    ensures ScaledDecimal(s) == if Mantissa(s).None? then NaN else Finite(Mantissa(s).value)
  {
    assert s[..|s|] == s;
  }

  lemma LettersMantissa(s: string)
    requires |s| > 0
    requires forall i :: 0 <= i < |s| ==> IsWordLetter(s[i])
    ensures Mantissa(s).None?
  {
    assert CharIndex(s, '.') == |s|;
    assert s[..|s|] == s;
    assert DigitValue(s[0], 10) == -1;
  }

  // ------------------------------------------------------------ integers and slice

  /** An integer or an infinity, as `ToIntegerOrInfinity` returns. */
  datatype Extended = MinusInfinity | Integer(i: int) | PlusInfinity

  /** The integer part of a real, rounding toward zero. */
  function Truncate(x: real): (r: int)
    ensures x >= 0.0 ==> 0 <= r && r as real <= x < r as real + 1.0
    ensures x < 0.0 ==> r <= 0 && r as real - 1.0 < x <= r as real
  {
    if x >= 0.0 then x.Floor else -((-x).Floor)
  }

  /** `ToIntegerOrInfinity`: NaN is 0, finite numbers are truncated toward zero. */
  function ToIntegerOrInfinity(a: Number): Extended {
    match a
    case NaN => Integer(0)
    case PosInf => PlusInfinity
    case NegInf => MinusInfinity
    case Finite(x) => Integer(Truncate(x))
  }

  /** A `slice` bound as an index into a list of `len` elements: negative bounds count from the end. */
  function SliceIndex(bound: Number, len: nat): (r: nat)
    ensures r <= len
  {
    match ToIntegerOrInfinity(bound)
    case MinusInfinity => 0
    case PlusInfinity => len
    case Integer(i) =>
      if i < 0 then (if len + i < 0 then 0 else len + i)
      else if i < len then i else len
  }

  /** `s.slice(start, end)`. */
  function Slice<T>(s: seq<T>, start: Number, end: Number): (r: seq<T>)
    ensures |r| <= |s|
  {
    var from := SliceIndex(start, |s|);
    var to := SliceIndex(end, |s|);
    if from < to then s[from..to] else []
  }

  /** With natural bounds, `slice` takes the elements between them, clipped to the length. */
  lemma SliceNat<T>(s: seq<T>, a: nat, b: nat)
    requires a <= b
    ensures Slice(s, Finite(a as real), Finite(b as real)) ==
      s[if a < |s| then a else |s| .. if b < |s| then b else |s|]
  {
    assert Truncate(a as real) == a;
    assert Truncate(b as real) == b;
  }
}
