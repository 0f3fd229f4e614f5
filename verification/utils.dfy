/**
 * pkg/utils: reading an integer setting from the environment.
 *
 * The environment lookup itself is I/O; here the value of the variable is an
 * input string ("" when the variable is unset). The parse is Go's
 * `strconv.Atoi` on a 64-bit platform: an optional `+` or `-`, then one or
 * more ASCII digits, and the value must fit in an int64.
 */
module Utils {
  import opened Wrappers

  const Int64Min: int := -0x8000_0000_0000_0000
  const Int64Max: int := 0x7FFF_FFFF_FFFF_FFFF

  /** Go's `int64`. */
  type Int64 = x: int | Int64Min <= x <= Int64Max

  predicate InInt64(x: int) { Int64Min <= x <= Int64Max }

  /** Two's-complement wrap-around of Go's int64 arithmetic. */
  function Wrap64(x: int): (r: Int64)
    ensures InInt64(x) ==> r == x
    ensures x < Int64Min && Int64Min <= x + 0x1_0000_0000_0000_0000 ==> r == x + 0x1_0000_0000_0000_0000
    ensures Int64Max < x && x - 0x1_0000_0000_0000_0000 <= Int64Max ==> r == x - 0x1_0000_0000_0000_0000
    ensures (x - r) % 0x1_0000_0000_0000_0000 == 0
  {
    var m := 0x1_0000_0000_0000_0000;
    var q := (x - Int64Min) / m;
    assert x - Int64Min == q * m + (x - Int64Min) % m;
    (x - Int64Min) % m + Int64Min
  }

  predicate IsDigit(c: char) { '0' <= c <= '9' }

  function DigitValue(c: char): (d: nat)
    requires IsDigit(c)
    ensures d < 10
  {
    c as int - '0' as int
  }

  function DigitChar(d: nat): (c: char)
    requires d < 10
    ensures IsDigit(c) && DigitValue(c) == d
  {
    ('0' as int + d) as char
  }

  predicate AllDigits(s: string) { forall i :: 0 <= i < |s| ==> IsDigit(s[i]) }

  function Pow10(n: nat): (p: nat)
    ensures p >= 1
  {
    if n == 0 then 1 else 10 * Pow10(n - 1)
  }

  /** Positional value of a digit string, most significant digit first: the reference reading. */
  function DecimalValue(s: string): nat
    requires AllDigits(s)
  {
    if s == [] then 0 else DecimalValue(s[..|s| - 1]) * 10 + DigitValue(s[|s| - 1])
  }

  predicate HasSign(s: string) { |s| > 0 && (s[0] == '-' || s[0] == '+') }

  /** The digits after an optional leading sign. */
  function Unsigned(s: string): string
  {
    if HasSign(s) then s[1..] else s
  }

  /** A base-10 integer literal as `strconv` reads one: optional sign, then at least one digit. */
  predicate IsDecimalLiteral(s: string)
  {
    |Unsigned(s)| > 0 && AllDigits(Unsigned(s))
  }

  /** The integer a decimal literal denotes, with no width limit. */
  function LiteralValue(s: string): int
    requires IsDecimalLiteral(s)
  {
    var magnitude: int := DecimalValue(Unsigned(s));
    if s[0] == '-' then -magnitude else magnitude
  }

  /** A literal `strconv.Atoi` accepts: well formed and inside int64. */
  predicate IsInt64Literal(s: string)
  {
    IsDecimalLiteral(s) && InInt64(LiteralValue(s))
  }

  /** Putting a digit in front multiplies it by the weight of its position. */
  lemma {:induction false} DecimalValueCons(c: char, s: string)
    requires IsDigit(c) && AllDigits(s)
    ensures AllDigits([c] + s)
    ensures DecimalValue([c] + s) == DigitValue(c) * Pow10(|s|) + DecimalValue(s)
  {
    if s == [] {
      assert [c] + s == [c];
      assert [c][..0] == [];
    } else {
      var t := [c] + s;
      assert t[..|t| - 1] == [c] + s[..|s| - 1];
      assert t[|t| - 1] == s[|s| - 1];
      DecimalValueCons(c, s[..|s| - 1]);
      var front := DecimalValue(s[..|s| - 1]);
      var p := Pow10(|s| - 1);
      calc {
        DecimalValue(t);
        DecimalValue([c] + s[..|s| - 1]) * 10 + DigitValue(s[|s| - 1]);
        (DigitValue(c) * p + front) * 10 + DigitValue(s[|s| - 1]);
        { ShiftPosition(DigitValue(c), p, front, DigitValue(s[|s| - 1])); }
        DigitValue(c) * (p * 10) + (front * 10 + DigitValue(s[|s| - 1]));
        DigitValue(c) * Pow10(|s|) + DecimalValue(s);
      }
    }
  }

  /** Appending a digit multiplies the leading digit's weight by ten. */
  lemma ShiftPosition(d: int, p: int, front: int, last: int)
    ensures (d * p + front) * 10 + last == d * (p * 10) + (front * 10 + last)
  {
  }

  /**
   * Atoi's digit loop, `n = n*10 + digit` from left to right. Its result is
   * the running value shifted past the remaining digits plus their
   * positional value.
   */
  function Accumulate(s: string, n: int): (r: int)
    requires AllDigits(s)
    ensures r == n * Pow10(|s|) + DecimalValue(s)
  {
    if s == [] then n
    else
      var d := DigitValue(s[0]);
      var p := Pow10(|s| - 1);
      DecimalValueCons(s[0], s[1..]);
      assert [s[0]] + s[1..] == s;
      assert Pow10(|s|) == 10 * p;
      ShiftDigit(n, d, p);
      Accumulate(s[1..], n * 10 + d)
  }

  /** Moving one digit from the running value into the remaining positions. */
  lemma ShiftDigit(n: int, d: int, p: int)
    ensures (n * 10 + d) * p == n * (10 * p) + d * p
  {
  }

  /** Go's `strconv.Atoi` on a 64-bit platform; `None` is a syntax or range error. */
  function Atoi(s: string): (r: Option<int>)
    ensures r.Some? <==> IsInt64Literal(s)
    ensures r.Some? ==> r.value == LiteralValue(s)
  {
    if s == [] then None
    else
      var digits := Unsigned(s);
      if digits == [] || !AllDigits(digits) then None
      else
        var magnitude := Accumulate(digits, 0);
        var n := if s[0] == '-' then -magnitude else magnitude;
        if InInt64(n) then Some(n) else None
  }

  /**
   * GetEnvInt: the variable's value when it is an int64 decimal literal,
   * the default otherwise (unset, empty, malformed or out of range).
   */
  function GetEnvInt(value: string, defaultVal: Int64): (r: Int64)
    ensures value == "" ==> r == defaultVal
    ensures !IsInt64Literal(value) ==> r == defaultVal
    ensures IsInt64Literal(value) ==> r == LiteralValue(value)
    ensures r == defaultVal || (IsDecimalLiteral(value) && r == LiteralValue(value))
  {
    if value == "" then defaultVal
    else
      match Atoi(value)
      case None => defaultVal
      case Some(v) => v
  }

  /** Decimal digits of a natural number, without leading zeros. */
  function NatDigits(n: nat): (s: string)
    ensures |s| > 0 && AllDigits(s) && DecimalValue(s) == n
    ensures IsDigit(s[0])
  {
    if n < 10 then [DigitChar(n)]
    else
      var s := NatDigits(n / 10) + [DigitChar(n % 10)];
      assert s[..|s| - 1] == NatDigits(n / 10);
      s
  }

  /** Go's decimal rendering of an integer (`strconv.Itoa`): a minus sign for negatives, no plus sign. */
  function Render(n: int): (s: string)
  {
    if n < 0 then "-" + NatDigits(-n) else NatDigits(n)
  }

  /** Rendering then parsing gives the number back. */
  lemma RenderIsLiteral(n: int)
    ensures IsDecimalLiteral(Render(n)) && LiteralValue(Render(n)) == n
  {
    var s := Render(n);
    if n < 0 {
      assert s[1..] == NatDigits(-n);
    } else {
      assert !HasSign(s);
    }
  }

  /** Round trip: any int64 written in decimal is read back, whatever the default. */
  lemma GetEnvIntRoundTrip(n: Int64, defaultVal: Int64)
    ensures GetEnvInt(Render(n), defaultVal) == n
  {
    RenderIsLiteral(n);
  }
}
