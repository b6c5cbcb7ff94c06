/** The Rust standard-library behaviour the typed lists rely on:
    the bounds of `i32`/`i64`, the truncating cast `as i32`, and the
    textual forms `to_string` produces and `str::parse` accepts for
    integers and booleans. */
module Primitives {
  import opened Wrappers

  /** The two integer widths the core stores: `i32` and `i64`. */
  datatype Width = W32 | W64

  function MinOf(w: Width): int
  {
    if w == W32 then -0x8000_0000 else -0x8000_0000_0000_0000
  }

  function MaxOf(w: Width): int
  {
    if w == W32 then 0x7fff_ffff else 0x7fff_ffff_ffff_ffff
  }

  predicate InRange(w: Width, x: int)
  {
    MinOf(w) <= x <= MaxOf(w)
  }

  predicate AllInRange(w: Width, xs: seq<int>)
  {
    forall i :: 0 <= i < |xs| ==> InRange(w, xs[i])
  }

  /** `x as i32` applied to an `i64`: keep the low 32 bits and read them
      as a two's-complement `i32`. */
  function TruncateTo32(x: int): (r: int)
    ensures InRange(W32, r)
    ensures (x - r) % 0x1_0000_0000 == 0
    ensures InRange(W32, x) ==> r == x
  {
    var low := (x + 0x8000_0000) % 0x1_0000_0000;
    assert x + 0x8000_0000 == (x + 0x8000_0000) / 0x1_0000_0000 * 0x1_0000_0000 + low;
    low - 0x8000_0000
  }

  /** `Iterator::sum` over integers, read as the mathematical sum. */
  function SumOf(s: seq<int>): int
  {
    if |s| == 0 then 0 else SumOf(s[..|s| - 1]) + s[|s| - 1]
  }

  /** Summing splits over concatenation. */
  lemma {:induction false} SumOfAppend(a: seq<int>, b: seq<int>)
    ensures SumOf(a + b) == SumOf(a) + SumOf(b)
    decreases |b|
  {
    if |b| == 0 {
      assert a + b == a;
    } else {
      var init := b[..|b| - 1];
      assert (a + b)[..|a + b| - 1] == a + init;
      SumOfAppend(a, init);
    }
  }

  // ---------------------------------------------------------------------
  // Decimal text

  predicate IsDigit(c: char)
  {
    '0' <= c <= '9'
  }

  predicate AllDigits(s: string)
  {
    forall i :: 0 <= i < |s| ==> IsDigit(s[i])
  }

  function DigitChar(d: nat): (c: char)
    requires d < 10
    ensures IsDigit(c) && (c as int) - ('0' as int) == d
  {
    (('0' as int) + d) as char
  }

  /** The number an all-digit string denotes, read most significant first. */
  function DigitsValue(s: string): nat
    requires AllDigits(s)
  {
    if |s| == 0 then 0
    else DigitsValue(s[..|s| - 1]) * 10 + ((s[|s| - 1] as int) - ('0' as int))
  }

  /** `n.to_string()` for a non-negative integer: its shortest decimal form. */
  function FormatNat(n: nat): (s: string)
    ensures |s| > 0 && AllDigits(s)
    ensures s[0] == '0' ==> s == "0"
  {
    if n < 10 then [DigitChar(n)] else FormatNat(n / 10) + [DigitChar(n % 10)]
  }

  lemma {:induction false} DigitsValueOfFormatNat(n: nat)
    ensures DigitsValue(FormatNat(n)) == n
  {
    if n >= 10 {
      var s := FormatNat(n);
      assert s[..|s| - 1] == FormatNat(n / 10);
      DigitsValueOfFormatNat(n / 10);
    }
  }

  /** `x.to_string()` for `i32`/`i64`: a minus sign for negatives, then the
      shortest decimal form of the magnitude. */
  function FormatInt(x: int): (s: string)
    ensures |s| > 0
    ensures x < 0 <==> s[0] == '-'
    ensures x >= 0 ==> AllDigits(s)
  {
    if x < 0 then "-" + FormatNat(-x) else FormatNat(x)
  }

  /** `s.parse::<i32>()` / `s.parse::<i64>()`: an optional `+` or `-`, then at
      least one ASCII digit and nothing else, with the value inside the
      width's range; anything else (the empty string included) is an error. */
  function ParseInt(s: string, w: Width): (r: Option<int>)
    ensures r.Some? ==> InRange(w, r.value)
    ensures s == "" ==> r == None
  {
    if |s| == 0 then None
    else if s[0] == '-' || s[0] == '+' then
      var digits := s[1..];
      if |digits| == 0 || !AllDigits(digits) then None
      else
        var v: int := if s[0] == '-' then -(DigitsValue(digits) as int) else DigitsValue(digits);
        if InRange(w, v) then Some(v) else None
    else if AllDigits(s) then
      var v := DigitsValue(s);
      if InRange(w, v) then Some(v) else None
    else None
  }

  /** Parsing the text `to_string` produced gives back the number. */
  lemma ParseFormatInt(x: int, w: Width)
    requires InRange(w, x)
    ensures ParseInt(FormatInt(x), w) == Some(x)
  {
    if x < 0 {
      ParseNegative(x, w);
    } else {
      var s := FormatNat(x);
      DigitsValueOfFormatNat(x);
      ParseDigits(s, w);
    }
  }

  lemma ParseNegative(x: int, w: Width)
    requires InRange(w, x) && x < 0
    ensures ParseInt(FormatInt(x), w) == Some(x)
  {
    var digits := FormatNat(-x);
    var s := "-" + digits;
    assert s[1..] == digits;
    DigitsValueOfFormatNat(-x);
    ParseMinus(s, w);
  }

  /** How `ParseInt` reads a minus sign followed by digits. */
  lemma ParseMinus(s: string, w: Width)
    requires |s| > 1 && s[0] == '-' && AllDigits(s[1..])
    ensures var v := -(DigitsValue(s[1..]) as int);
            ParseInt(s, w) == if InRange(w, v) then Some(v) else None
  {
  }

  /** How `ParseInt` reads digits alone. */
  lemma ParseDigits(s: string, w: Width)
    requires |s| > 0 && AllDigits(s)
    ensures var v := DigitsValue(s);
            ParseInt(s, w) == if InRange(w, v) then Some(v) else None
  {
    assert IsDigit(s[0]);
  }

  /** Different integers have different decimal forms. */
  lemma FormatIntInjective(x: int, y: int)
    requires FormatInt(x) == FormatInt(y)
    ensures x == y
  {
    DigitsValueOfFormatNat(if x < 0 then -x else x);
    DigitsValueOfFormatNat(if y < 0 then -y else y);
    if x < 0 {
      assert FormatInt(x)[1..] == FormatNat(-x);
      assert FormatInt(y)[1..] == FormatNat(-y);
    }
  }

  // ---------------------------------------------------------------------
  // Boolean text

  /** `b.to_string()`. */
  function FormatBool(b: bool): (s: string)
    ensures ParseBool(s) == Some(b)
  {
    if b then "true" else "false"
  }

  /** `s.parse::<bool>()`: exactly `"true"` or `"false"`. */
  function ParseBool(s: string): (r: Option<bool>)
    ensures r.Some? <==> s == "true" || s == "false"
    ensures r == Some(true) <==> s == "true"
  {
    if s == "true" then Some(true) else if s == "false" then Some(false) else None
  }
}
