/**
 * The global `parseInt(text)` of ECMAScript, called without a radix, as index.js
 * uses it on the answer to "how many invoices": skip leading whitespace, read an
 * optional sign, read a `0x`/`0X` prefix as radix 16 (radix 10 otherwise), then
 * take the longest run of digits of that radix and ignore everything after it.
 * No digits at all gives NaN, modelled as `None`.
 */
module NumberInput {
  import opened Strings

  datatype Option<T> = None | Some(value: T)

  datatype Radix = Ten | Sixteen

  function Base(radix: Radix): nat {
    match radix
    case Ten => 10
    case Sixteen => 16
  }

  predicate IsDecimalDigit(c: char) {
    '0' <= c <= '9'
  }

  predicate IsDigitIn(c: char, radix: Radix) {
    match radix
    case Ten => IsDecimalDigit(c)
    case Sixteen => IsDecimalDigit(c) || 'a' <= c <= 'f' || 'A' <= c <= 'F'
  }

  predicate AllDigitsIn(s: string, radix: Radix) {
    forall i :: 0 <= i < |s| ==> IsDigitIn(s[i], radix)
  }

  /**
   * The value of one digit character: below the base of its radix, below ten
   * exactly for the decimal digits, and counted from `a` (ten) in either
   * letter case for the hexadecimal letters.
   */
  function DigitValue(c: char, radix: Radix): (d: nat)
    requires IsDigitIn(c, radix)
    ensures d < Base(radix)
    ensures IsDecimalDigit(c) <==> d < 10
    ensures IsDecimalDigit(c) ==> c as int == '0' as int + d
    ensures !IsDecimalDigit(c) ==> LowerChar(c) as int == 'a' as int + d - 10
  {
    if IsDecimalDigit(c) then c as int - '0' as int
    else if 'a' <= c <= 'f' then c as int - 'a' as int + 10
    else c as int - 'A' as int + 10
  }

  /** The longest prefix of `s` made of digits of `radix`. */
  function DigitRun(s: string, radix: Radix): (run: string)
    ensures run <= s
    ensures AllDigitsIn(run, radix)
    ensures run == s || !IsDigitIn(s[|run|], radix)
  {
    if s != [] && IsDigitIn(s[0], radix) then [s[0]] + DigitRun(s[1..], radix) else []
  }

  function Power(base: nat, exponent: nat): nat {
    if exponent == 0 then 1 else Power(base, exponent - 1) * base
  }

  /**
   * The number a string of digits denotes, most significant digit first; `n`
   * digits of a radix denote a number below the base to the `n`.
   */
  function ValueOf(digits: string, radix: Radix): (v: nat)
    requires AllDigitsIn(digits, radix)
    ensures v < Power(Base(radix), |digits|)
  {
    if digits == [] then 0
    else
      var init := digits[..|digits| - 1];
      var high := ValueOf(init, radix);
      var low := DigitValue(digits[|digits| - 1], radix);
      PlaceValueBound(high, low, Base(radix), Power(Base(radix), |init|));
      high * Base(radix) + low
  }

  /** A number below `p` shifted one place up, plus a digit below the base, is below `p * base`. */
  lemma PlaceValueBound(high: nat, low: nat, base: nat, p: nat)
    requires high < p && low < base
    ensures high * base + low < p * base
  {
    assert high * base <= (p - 1) * base by {
      MultiplyMonotone(high, p - 1, base);
    }
  }

  lemma MultiplyMonotone(a: nat, b: nat, c: nat)
    requires a <= b
    ensures a * c <= b * c
  {
  }

  /**
   * `parseInt` finds a number exactly when the text after the sign opens with a
   * decimal digit and, if it opens with `0x`/`0X`, a hexadecimal digit follows.
   */
  predicate StartsNumber(u: string) {
    u != [] && IsDecimalDigit(u[0]) && (HasHexPrefix(u) ==> |u| > 2 && IsDigitIn(u[2], Sixteen))
  }

  predicate HasHexPrefix(s: string) {
    |s| >= 2 && s[0] == '0' && (s[1] == 'x' || s[1] == 'X')
  }

  /**
   * What follows the sign: a `0x`/`0X` prefix and hexadecimal digits, or
   * decimal digits; `None` when there are no digits.
   */
  function ParseUnsigned(u: string): (r: Option<nat>)
    ensures r.Some? <==> StartsNumber(u)
  {
    var radix := if HasHexPrefix(u) then Sixteen else Ten;
    var digits := DigitRun(if HasHexPrefix(u) then u[2..] else u, radix);
    if digits == [] then None else Some(ValueOf(digits, radix))
  }

  function Negated(negative: bool, magnitude: Option<nat>): Option<int> {
    match magnitude
    case None => None
    case Some(m) => Some(if negative then -(m as int) else m as int)
  }

  predicate IsSign(c: char) {
    c == '+' || c == '-'
  }

  /**
   * `parseInt(s)`; `None` stands for NaN. A number is found exactly when the
   * text after the leading whitespace and an optional sign starts one, and it
   * is negative only after a minus sign.
   */
  function ParseInt(s: string): (r: Option<int>)
    ensures var t := TrimStart(s);
      r.Some? <==> StartsNumber(if t != [] && IsSign(t[0]) then t[1..] else t)
    ensures var t := TrimStart(s);
      r.Some? && r.value < 0 ==> t != [] && t[0] == '-'
  {
    var t := TrimStart(s);
    if t != [] && IsSign(t[0]) then Negated(t[0] == '-', ParseUnsigned(t[1..]))
    else ParseUnsigned(t)
  }

  function DigitChar(d: nat): (c: char)
    requires d < 10
    ensures IsDecimalDigit(c) && DigitValue(c, Ten) == d
  {
    ('0' as int + d) as char
  }

  /** The decimal numeral of `n` without leading zeros. */
  function NatNumeral(n: nat): (s: string)
    ensures s != [] && AllDigitsIn(s, Ten)
    ensures s[0] == '0' <==> n == 0
  {
    if n < 10 then [DigitChar(n)] else NatNumeral(n / 10) + [DigitChar(n % 10)]
  }

  /** The decimal numeral of `n`, with a minus sign when it is negative. */
  function Numeral(n: int): string {
    if n < 0 then "-" + NatNumeral(-n) else NatNumeral(n)
  }

  /** Reading a numeral back gives the number it was written from. */
  lemma {:induction false} ValueOfNatNumeral(n: nat)
    ensures ValueOf(NatNumeral(n), Ten) == n
  {
    var s := NatNumeral(n);
    if n >= 10 {
      assert s[..|s| - 1] == NatNumeral(n / 10);
      ValueOfNatNumeral(n / 10);
    }
  }

  /** The digit run of digits followed by a non-digit is exactly those digits. */
  lemma {:induction false} DigitRunOf(digits: string, rest: string, radix: Radix)
    requires AllDigitsIn(digits, radix)
    requires rest == [] || !IsDigitIn(rest[0], radix)
    ensures DigitRun(digits + rest, radix) == digits
  {
    if digits != [] {
      assert (digits + rest)[1..] == digits[1..] + rest;
      DigitRunOf(digits[1..], rest, radix);
    } else {
      assert digits + rest == rest;
    }
  }

  /** Leading whitespace is skipped. */
  lemma {:induction false} TrimStartAfterWhitespace(w: string, x: string)
    requires AllWhitespace(w)
    requires x == [] || !IsWhitespace(x[0])
    ensures TrimStart(w + x) == x
  {
    if w == [] {
      assert w + x == x;
      TrimStartOfTrimmed(x);
    } else {
      assert (w + x)[1..] == w[1..] + x;
      TrimStartAfterWhitespace(w[1..], x);
    }
  }

  /** Leading whitespace does not change what `parseInt` reads. */
  lemma ParseIntAfterWhitespace(w: string, x: string)
    requires AllWhitespace(w)
    requires x == [] || !IsWhitespace(x[0])
    ensures ParseInt(w + x) == ParseInt(x)
  {
    TrimStartAfterWhitespace(w, x);
    TrimStartOfTrimmed(x);
  }

  /** A leading sign is applied to the number that follows it. */
  lemma ParseIntOfSigned(sign: char, u: string)
    requires IsSign(sign)
    ensures ParseInt([sign] + u) == Negated(sign == '-', ParseUnsigned(u))
  {
    var x := [sign] + u;
    assert x[0] == sign && x[1..] == u;
    TrimStartOfTrimmed(x);
  }

  /** Without a sign, the number is read as it stands. */
  lemma ParseIntOfUnsigned(u: string)
    requires u == [] || (!IsWhitespace(u[0]) && !IsSign(u[0]))
    ensures ParseInt(u) == Negated(false, ParseUnsigned(u))
  {
    TrimStartOfTrimmed(u);
  }

  /** The sign and number after leading whitespace are read as they stand. */
  lemma ParseIntParts(w: string, sign: string, u: string)
    requires AllWhitespace(w)
    requires sign == "" || sign == "+" || sign == "-"
    requires sign == "" ==> u == [] || (!IsWhitespace(u[0]) && !IsSign(u[0]))
    ensures ParseInt(w + sign + u) == Negated(sign == "-", ParseUnsigned(u))
  {
    assert w + sign + u == w + (sign + u);
    if sign == "" {
      assert sign + u == u;
      ParseIntAfterWhitespace(w, u);
      ParseIntOfUnsigned(u);
    } else {
      assert sign == [sign[0]] && (sign + u)[0] == sign[0];
      ParseIntAfterWhitespace(w, sign + u);
      ParseIntOfSigned(sign[0], u);
    }
  }

  /** Digits followed by a non-digit are read in radix ten, unless they open a `0x` prefix. */
  lemma ParseUnsignedOfDecimal(digits: string, rest: string)
    requires digits != [] && AllDigitsIn(digits, Ten)
    requires rest == [] || !IsDecimalDigit(rest[0])
    requires !HasHexPrefix(digits + rest)
    ensures ParseUnsigned(digits + rest) == Some(ValueOf(digits, Ten))
  {
    DigitRunOf(digits, rest, Ten);
  }

  /** A numeral opens a `0x` prefix only when it is `0` and an `x` or `X` follows. */
  lemma NumeralNotHex(n: nat, rest: string)
    requires n == 0 ==> rest == [] || (rest[0] != 'x' && rest[0] != 'X')
    ensures !HasHexPrefix(NatNumeral(n) + rest)
  {
    var digits := NatNumeral(n);
    var u := digits + rest;
    if |u| >= 2 && u[0] == '0' {
      assert digits[0] == '0' && n == 0;
      assert |digits| == 1 && u[1] == rest[0];
    }
  }

  /** Decimal digits after whitespace and a sign are read in radix ten. */
  lemma ParseIntOfDecimal(w: string, sign: string, digits: string, rest: string)
    requires AllWhitespace(w)
    requires sign == "" || sign == "+" || sign == "-"
    requires digits != [] && AllDigitsIn(digits, Ten)
    requires rest == [] || !IsDecimalDigit(rest[0])
    requires !HasHexPrefix(digits + rest)
    ensures ParseInt(w + sign + (digits + rest)) == Negated(sign == "-", Some(ValueOf(digits, Ten)))
  {
    assert (digits + rest)[0] == digits[0];
    ParseIntParts(w, sign, digits + rest);
    ParseUnsignedOfDecimal(digits, rest);
  }

  /**
   * The numeral of `n`, after any whitespace and before any text that does not
   * continue it, reads as `n`: `parseInt(" 42 apples") == 42`. A `0` followed by
   * `x` or `X` would start a hexadecimal numeral instead, hence the exclusion.
   */
  lemma ParseIntOfNumeral(w: string, n: int, rest: string)
    requires AllWhitespace(w)
    requires rest == [] || !IsDecimalDigit(rest[0])
    requires n == 0 ==> rest == [] || (rest[0] != 'x' && rest[0] != 'X')
    ensures ParseInt(w + Numeral(n) + rest) == Some(n)
  {
    var m: nat := if n < 0 then -n else n;
    var sign := if n < 0 then "-" else "";
    NumeralParts(w, n, rest);
    NumeralNotHex(m, rest);
    ValueOfNatNumeral(m);
    ParseIntOfDecimal(w, sign, NatNumeral(m), rest);
  }

  lemma NumeralParts(w: string, n: int, rest: string)
    ensures w + Numeral(n) + rest
      == w + (if n < 0 then "-" else "") + (NatNumeral(if n < 0 then -n else n) + rest)
  {
  }

  /** Every integer survives the round trip through its numeral. */
  lemma ParseIntNumeralRoundTrip(n: int)
    ensures ParseInt(Numeral(n)) == Some(n)
  {
    var x := Numeral(n);
    assert [] + x + [] == x;
    ParseIntOfNumeral([], n, []);
  }

  /** An explicit `+` is accepted and changes nothing. */
  lemma ParseIntOfPlusNumeral(w: string, n: nat, rest: string)
    requires AllWhitespace(w)
    requires rest == [] || !IsDecimalDigit(rest[0])
    requires n == 0 ==> rest == [] || (rest[0] != 'x' && rest[0] != 'X')
    ensures ParseInt(w + "+" + NatNumeral(n) + rest) == Some(n)
  {
    assert w + "+" + NatNumeral(n) + rest == w + "+" + (NatNumeral(n) + rest);
    NumeralNotHex(n, rest);
    ValueOfNatNumeral(n);
    ParseIntOfDecimal(w, "+", NatNumeral(n), rest);
  }

  /**
   * A `0x` or `0X` prefix switches to hexadecimal: the hex digits after it are
   * read in radix 16, with the sign in front applied.
   */
  lemma ParseIntOfHex(w: string, sign: string, prefix: string, digits: string, rest: string)
    requires AllWhitespace(w)
    requires sign == "" || sign == "+" || sign == "-"
    requires prefix == "0x" || prefix == "0X"
    requires digits != [] && AllDigitsIn(digits, Sixteen)
    requires rest == [] || !IsDigitIn(rest[0], Sixteen)
    ensures ParseInt(w + sign + prefix + digits + rest)
      == Negated(sign == "-", Some(ValueOf(digits, Sixteen)))
  {
    var u := prefix + digits + rest;
    HexParts(w, sign, prefix, digits, rest);
    ParseIntParts(w, sign, u);
    DigitRunOf(digits, rest, Sixteen);
  }

  lemma HexParts(w: string, sign: string, prefix: string, digits: string, rest: string)
    requires prefix == "0x" || prefix == "0X"
    ensures w + sign + prefix + digits + rest == w + sign + (prefix + digits + rest)
    ensures HasHexPrefix(prefix + digits + rest)
    ensures (prefix + digits + rest)[2..] == digits + rest
  {
  }

  /**
   * Text whose first non-whitespace character is neither a digit nor a sign, or
   * a sign not followed by a digit, is NaN.
   */
  lemma ParseIntNoDigits(w: string, sign: string, x: string)
    requires AllWhitespace(w)
    requires sign == "" || sign == "+" || sign == "-"
    requires x == [] || (!IsDecimalDigit(x[0]) && !IsWhitespace(x[0]))
    requires sign == "" ==> x == [] || !IsSign(x[0])
    ensures ParseInt(w + sign + x) == None
  {
    ParseIntParts(w, sign, x);
  }
}
