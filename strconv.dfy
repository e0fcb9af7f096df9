/** `strconv.Atoi` on a 64-bit platform: an optional '+' or '-', then one or
    more decimal digits, whose value must fit a signed 64-bit `int`. Anything
    else (empty text, spaces, other bases, underscores, overflow) is an error. */
module Strconv {
  import opened GoStrings
  import opened Wrappers

  const MinInt64: int := -0x8000_0000_0000_0000
  const MaxInt64: int := 0x7FFF_FFFF_FFFF_FFFF

  const Zero: byte := 48  // '0'
  const Minus: byte := Dash

  predicate IsDecimal(c: byte)
  {
    48 <= c <= 57
  }

  predicate AllDecimal(s: Bytes)
  {
    forall i :: 0 <= i < |s| ==> IsDecimal(s[i])
  }

  /** The value of a string of decimal digits, most significant first. */
  function DecimalValue(s: Bytes): (v: nat)
    requires AllDecimal(s)
  {
    if s == [] then 0
    else DecimalValue(s[..|s| - 1]) * 10 + (s[|s| - 1] - Zero)
  }

  /** The digits of `s` after an optional sign. */
  function Unsigned(s: Bytes): Bytes
  {
    if s != [] && (s[0] == Plus || s[0] == Minus) then s[1..] else s
  }

  /** `strconv.Atoi` */
  function Atoi(s: Bytes): (r: Option<int>)
    ensures r.Some? ==> MinInt64 <= r.value <= MaxInt64
    ensures r.Some? ==> Unsigned(s) != [] && AllDecimal(Unsigned(s))
  {
    var digits := Unsigned(s);
    if digits == [] || !AllDecimal(digits) then None
    else
      var v: int := if s[0] == Minus then -(DecimalValue(digits) as int) else DecimalValue(digits);
      if MinInt64 <= v <= MaxInt64 then Some(v) else None
  }

  /** The decimal digits of a natural number, without leading zeros. */
  function Decimal(n: nat): (s: Bytes)
    ensures s != [] && AllDecimal(s)
    ensures DecimalValue(s) == n
  {
    if n < 10 then [n + Zero]
    else
      var s := Decimal(n / 10) + [n % 10 + Zero];
      assert s[..|s| - 1] == Decimal(n / 10);
      s
  }

  /** `strconv.Itoa`, the decimal text of an integer. */
  function Itoa(n: int): (s: Bytes)
    ensures s != [] && s[0] != Plus
    ensures (s[0] == Minus) == (n < 0)
  {
    if n < 0 then [Minus] + Decimal(-n) else Decimal(n)
  }

  /** `Atoi` reads back what `Itoa` writes, for every 64-bit integer. */
  lemma AtoiItoa(n: int)
    requires MinInt64 <= n <= MaxInt64
    ensures Atoi(Itoa(n)) == Some(n)
  {
    var s := Itoa(n);
    if n < 0 {
      assert Unsigned(s) == Decimal(-n);
    } else {
      assert Unsigned(s) == Decimal(n);
    }
  }

  /** Text holding a byte other than a digit, past an optional leading sign,
      is no number. */
  lemma AtoiRejectsNonDigit(s: Bytes, i: nat)
    requires i < |s| && !IsDecimal(s[i])
    requires i > 0 || (s[0] != Plus && s[0] != Minus)
    ensures Atoi(s) == None
  {
    var digits := Unsigned(s);
    var j := if s[0] == Plus || s[0] == Minus then i - 1 else i;
    assert 0 <= j < |digits| && digits[j] == s[i];
  }
}
