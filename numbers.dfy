/**
 * Kotlin's 32-bit `Int` as the app uses it: `String.toInt()` when a catalog
 * row is read, `"" + n` when a distance is spoken, and the wrapping `-` on
 * two product ids.
 */
module Numbers {
  import opened Wrappers

  const MinInt32: int := -0x8000_0000
  const MaxInt32: int := 0x7FFF_FFFF

  /** A value of Kotlin's `Int`. */
  type Int32 = x: int | MinInt32 <= x <= MaxInt32

  predicate IsDigit(c: char) {
    '0' <= c <= '9'
  }

  predicate AllDigits(s: string) {
    forall i :: 0 <= i < |s| ==> IsDigit(s[i])
  }

  function DigitValue(c: char): (d: nat)
    requires IsDigit(c)
    ensures d < 10
  {
    (c as int) - ('0' as int)
  }

  function DigitChar(d: nat): (c: char)
    requires d < 10
    ensures IsDigit(c) && DigitValue(c) == d
  {
    (('0' as int) + d) as char
  }

  /** The number written by a string of decimal digits, most significant first. */
  function DigitsValue(s: string): nat
    requires AllDigits(s)
    decreases |s|
  {
    if s == [] then 0 else DigitsValue(s[..|s| - 1]) * 10 + DigitValue(s[|s| - 1])
  }

  /**
   * `String.toInt()`: an optional '+' or '-', then at least one decimal digit,
   * and the value must fit in an `Int`; anything else is a
   * NumberFormatException, here `None`.
   */
  function ParseInt(s: string): (r: Option<Int32>)
    ensures r.Some? ==> |s| > 0
    ensures r.Some? && (s[0] == '-' || s[0] == '+') ==> |s| >= 2
    ensures r.Some? && s[0] != '-' && s[0] != '+' ==> AllDigits(s) && r.value == DigitsValue(s)
    ensures r.Some? && s[0] == '+' ==> AllDigits(s[1..]) && r.value == DigitsValue(s[1..])
    ensures r.Some? && s[0] == '-' ==> AllDigits(s[1..]) && r.value == -(DigitsValue(s[1..]) as int)
  {
    if |s| == 0 then None
    else
      var body := if s[0] == '-' || s[0] == '+' then s[1..] else s;
      if |body| == 0 || !AllDigits(body) then None
      else
        var v: int := if s[0] == '-' then -(DigitsValue(body) as int) else DigitsValue(body);
        if MinInt32 <= v <= MaxInt32 then Some(v) else None
  }

  /**
   * Every well-formed number in range is accepted: a sign ("", "+" or "-")
   * and at least one decimal digit whose signed value fits in an `Int`.
   */
  lemma ParseIntAccepts(sign: string, ds: string)
    requires sign == "" || sign == "+" || sign == "-"
    requires |ds| > 0 && AllDigits(ds)
    requires var v := if sign == "-" then -(DigitsValue(ds) as int) else DigitsValue(ds);
             MinInt32 <= v <= MaxInt32
    ensures ParseInt(sign + ds) == Some(if sign == "-" then -(DigitsValue(ds) as int) else DigitsValue(ds))
  {
    var s := sign + ds;
    if sign == "" {
      assert s == ds;
    } else {
      assert s[0] == sign[0] && s[1..] == ds;
    }
  }

  /** Decimal digits of a natural number, without leading zeros. */
  function NatToString(n: nat): (s: string)
    ensures |s| > 0 && AllDigits(s)
    ensures s[0] == '0' ==> n == 0 && s == "0"
  {
    if n < 10 then [DigitChar(n)] else NatToString(n / 10) + [DigitChar(n % 10)]
  }

  /** Kotlin's `"" + n` for an `Int`: a minus sign for negative values, then the digits. */
  function IntToString(n: int): (s: string)
    ensures |s| > 0
    ensures ' ' !in s
    ensures (s[0] == '-') == (n < 0)
  {
    if n < 0 then "-" + NatToString(-(n as int)) else NatToString(n)
  }

  /**
   * `"" + n` is the canonical text of `n`: a '-' only for negative values,
   * never a '+', then digits without a leading zero (except "0" itself).
   */
  lemma IntToStringCanonical(n: int)
    ensures var s := IntToString(n);
            var ds := if n < 0 then s[1..] else s;
            && s[0] != '+'
            && |ds| > 0 && AllDigits(ds)
            && (ds[0] == '0' ==> ds == "0")
  {
    if n < 0 {
      assert IntToString(n)[1..] == NatToString(-(n as int));
    }
  }

  lemma {:induction false} NatToStringValue(n: nat)
    ensures DigitsValue(NatToString(n)) == n
  {
    if n >= 10 {
      var s := NatToString(n);
      assert s[..|s| - 1] == NatToString(n / 10);
      NatToStringValue(n / 10);
    }
  }

  /** Reading back what `"" + n` wrote gives `n`: the spoken number is the number. */
  lemma IntToStringRoundTrip(n: Int32)
    ensures ParseInt(IntToString(n)) == Some(n)
  {
    var s := IntToString(n);
    if n < 0 {
      assert s[1..] == NatToString(-(n as int));
      NatToStringValue(-(n as int));
    } else {
      NatToStringValue(n);
    }
  }

  /**
   * Kotlin's `a - b` on `Int`: the mathematical difference of two `Int`s is
   * at most one 2^32 away from the `Int` range, so wrapping adds or
   * subtracts 2^32 once.
   */
  function Sub32(a: Int32, b: Int32): Int32 {
    var d := (a as int) - (b as int);
    if d > MaxInt32 then d - 0x1_0000_0000
    else if d < MinInt32 then d + 0x1_0000_0000
    else d
  }

  /** Kotlin's unary `-x` on `Int`; only `Int.MIN_VALUE` is its own negation. */
  function Neg32(x: Int32): Int32 {
    if x == MinInt32 then x else -(x as int)
  }

  /** Both are two's-complement arithmetic: the result is the exact one modulo 2^32. */
  lemma WrapIsModular(a: Int32, b: Int32)
    ensures (Sub32(a, b) - (a - b)) % 0x1_0000_0000 == 0
    ensures (Neg32(a) + a) % 0x1_0000_0000 == 0
  {
  }
}
