/**
 * The scalar conversions of Go's strconv package that argp applies to a single token
 * (ParseBool, ParseInt and ParseUint in base 10 with 64 bits, Atoi), and the truncation
 * reflect's SetInt and SetUint perform when the destination is narrower than 64 bits.
 */
module Literals {
  import opened Wrappers
  import opened Text

  const MinInt64: int := -0x8000_0000_0000_0000
  const MaxInt64: int := 0x7FFF_FFFF_FFFF_FFFF
  const MaxUint64: int := 0xFFFF_FFFF_FFFF_FFFF

  /** The bit widths of Go's sized integer types. */
  type Width = w: nat | w == 8 || w == 16 || w == 32 || w == 64 witness 64

  /** 2 to the power of the width: how many values an integer of that width holds. */
  function Modulus(w: Width): nat
  {
    if w == 8 then 0x100
    else if w == 16 then 0x1_0000
    else if w == 32 then 0x1_0000_0000
    else 0x1_0000_0000_0000_0000
  }

  /** Half the modulus: the least value too large for a signed integer of that width. */
  function Half(w: Width): (h: nat)
    ensures Modulus(w) == 2 * h
  {
    Modulus(w) / 2
  }

  /** The spellings strconv.ParseBool accepts for true and for false. */
  const TrueWords: set<string> := {"1", "t", "T", "TRUE", "true", "True"}
  const FalseWords: set<string> := {"0", "f", "F", "FALSE", "false", "False"}

  /** strconv.ParseBool. */
  function ParseBool(s: string): (r: Option<bool>)
    ensures r == Some(true) <==> s in TrueWords
    ensures r == Some(false) <==> s in FalseWords
  {
    if s in TrueWords then Some(true) else if s in FalseWords then Some(false) else None
  }

  /** strconv.FormatBool. */
  function FormatBool(b: bool): string { if b then "true" else "false" }

  lemma ParseFormatBool(b: bool)
    ensures ParseBool(FormatBool(b)) == Some(b)
  {
  }

  predicate AllDigits(s: string) { forall i :: 0 <= i < |s| ==> IsDigit(s[i]) }

  function DigitValue(c: char): nat
    requires IsDigit(c)
  {
    c as int - '0' as int
  }

  function DigitChar(d: nat): (c: char)
    requires d < 10
    ensures IsDigit(c) && DigitValue(c) == d
  {
    ('0' as int + d) as char
  }

  /** The number a string of decimal digits denotes. */
  function Decimal(s: string): nat
    requires AllDigits(s)
  {
    if |s| == 0 then 0 else 10 * Decimal(s[..|s| - 1]) + DigitValue(s[|s| - 1])
  }

  /** strconv.ParseUint(s, 10, 64): one or more decimal digits denoting at most 2^64 - 1. */
  function ParseUint(s: string): (r: Option<nat>)
    ensures r.Some? <==> |s| > 0 && AllDigits(s) && Decimal(s) <= MaxUint64
    ensures r.Some? ==> r.value == Decimal(s)
  {
    if |s| > 0 && AllDigits(s) && Decimal(s) <= MaxUint64 then Some(Decimal(s)) else None
  }

  /** strconv.ParseInt(s, 10, 64), which is also what strconv.Atoi does on a 64-bit platform:
      an optional sign, then one or more decimal digits, within the 64-bit signed range. */
  function ParseInt(s: string): (r: Option<int>)
    ensures r.Some? ==> MinInt64 <= r.value <= MaxInt64
    ensures |s| > 0 && s[0] != '-' && s[0] != '+' ==>
      (r.Some? <==> AllDigits(s) && Decimal(s) <= MaxInt64)
  {
    if |s| > 0 && (s[0] == '+' || s[0] == '-') then
      var digits := s[1..];
      if |digits| == 0 || !AllDigits(digits) then None
      else if s[0] == '-' then
        if Decimal(digits) <= -MinInt64 then Some(-(Decimal(digits) as int)) else None
      else if Decimal(digits) <= MaxInt64 then Some(Decimal(digits)) else None
    else if |s| > 0 && AllDigits(s) && Decimal(s) <= MaxInt64 then Some(Decimal(s))
    else None
  }

  /** strconv.FormatUint(n, 10): the shortest decimal spelling of n. */
  function FormatNat(n: nat): (r: string)
    ensures |r| > 0 && AllDigits(r)
    ensures |r| > 1 ==> r[0] != '0'
  {
    if n < 10 then [DigitChar(n)] else FormatNat(n / 10) + [DigitChar(n % 10)]
  }

  /** strconv.FormatInt(i, 10). */
  function FormatInt(i: int): string
  {
    if i < 0 then "-" + FormatNat(-i) else FormatNat(i)
  }

  lemma {:induction false} DecimalFormat(n: nat)
    ensures Decimal(FormatNat(n)) == n
  {
    if n >= 10 {
      var r := FormatNat(n);
      DecimalFormat(n / 10);
      assert r[..|r| - 1] == FormatNat(n / 10);
    }
  }

  /** Every unsigned 64-bit number survives formatting and parsing back. */
  lemma ParseFormatUint(n: nat)
    requires n <= MaxUint64
    ensures ParseUint(FormatNat(n)) == Some(n)
  {
    DecimalFormat(n);
  }

  /** Every signed 64-bit number survives formatting and parsing back. */
  lemma ParseFormatInt(i: int)
    requires MinInt64 <= i <= MaxInt64
    ensures ParseInt(FormatInt(i)) == Some(i)
  {
    if i < 0 {
      DecimalFormat(-i);
      assert FormatInt(i)[1..] == FormatNat(-i);
    } else {
      DecimalFormat(i);
    }
  }

  /** The two's-complement reading of the low `w` bits of `x`: what Go's reflect SetInt
      stores into a signed destination of width `w`. */
  function WrapSigned(x: int, w: Width): (r: int)
    ensures -(Half(w) as int) <= r < Half(w)
    ensures (x - r) % Modulus(w) == 0
  {
    var h := Half(w);
    var low := WrapUnsigned(x + h, w);
    assert x - (low - h) == x + h - low;
    low - h
  }

  /** The low `w` bits of `x`: what reflect SetUint stores into an unsigned destination of
      width `w`. */
  function WrapUnsigned(x: int, w: Width): (r: nat)
    ensures r < Modulus(w)
    ensures (x - r) % Modulus(w) == 0
  {
    var m := Modulus(w);
    var r := x % m;
    assert x - r == m * (x / m);
    r
  }

  /** A value already in the destination's range is stored unchanged. */
  lemma WrapSignedInRange(x: int, w: Width)
    requires -(Half(w) as int) <= x < Half(w)
    ensures WrapSigned(x, w) == x
  {
    WrapUnsignedInRange(x + Half(w), w);
  }

  lemma WrapUnsignedInRange(x: nat, w: Width)
    requires x < Modulus(w)
    ensures WrapUnsigned(x, w) == x
  {
  }

  /** At 64 bits the parsed range and the stored range coincide: nothing is ever truncated. */
  lemma Wide64(x: int)
    requires MinInt64 <= x <= MaxInt64
    ensures WrapSigned(x, 64) == x
  {
    WrapSignedInRange(x, 64);
  }
}
