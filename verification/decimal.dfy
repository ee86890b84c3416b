/** Go's `strconv.Atoi` on a 64-bit platform: an optional sign followed by
    one or more decimal digits whose value fits in an `int`. */
module Decimal {
  import opened Wrappers

  const MinInt64: int := -0x8000_0000_0000_0000
  const MaxInt64: int := 0x7FFF_FFFF_FFFF_FFFF

  predicate IsDigit(c: char) {
    '0' <= c <= '9'
  }

  predicate AllDigits(s: string) {
    forall j | 0 <= j < |s| :: IsDigit(s[j])
  }

  function DigitValue(c: char): nat
    requires IsDigit(c)
  {
    c as int - '0' as int
  }

  /** The value of a digit string, most significant digit first. */
  function DigitsValue(s: string): nat
    requires AllDigits(s)
  {
    if |s| == 0 then 0 else 10 * DigitsValue(s[..|s| - 1]) + DigitValue(s[|s| - 1])
  }

  /** `strconv.Atoi`: `None` stands for the syntax and range errors. */
  function Atoi(s: string): (r: Option<int>)
    ensures r.Some? ==> MinInt64 <= r.value <= MaxInt64
    ensures |s| == 0 ==> r.None?
    ensures r.Some? ==> exists j | 0 <= j < |s| :: IsDigit(s[j])
  {
    var signed := |s| > 0 && (s[0] == '-' || s[0] == '+');
    var digits := if signed then s[1..] else s;
    if |digits| == 0 || !AllDigits(digits) then None
    else
      var magnitude: int := DigitsValue(digits);
      var v: int := if signed && s[0] == '-' then -magnitude else magnitude;
      if MinInt64 <= v <= MaxInt64 then Some(v) else None
  }

  function DigitChar(d: nat): (c: char)
    requires d < 10
    ensures IsDigit(c) && DigitValue(c) == d
  {
    ('0' as int + d) as char
  }

  /** The decimal rendering of `n` (what `strconv.Itoa` prints for `n >= 0`). */
  function ShowNat(n: nat): (s: string)
    ensures |s| > 0 && AllDigits(s)
  {
    if n < 10 then [DigitChar(n)] else ShowNat(n / 10) + [DigitChar(n % 10)]
  }

  lemma {:induction false} ShowNatValue(n: nat)
    ensures DigitsValue(ShowNat(n)) == n
  {
    if n >= 10 {
      var s := ShowNat(n);
      assert s[..|s| - 1] == ShowNat(n / 10);
      ShowNatValue(n / 10);
    }
  }

  /** Parsing the rendering of an in-range number gives the number back. */
  lemma AtoiShowNat(n: nat)
    requires n <= MaxInt64
    ensures Atoi(ShowNat(n)) == Some(n)
  {
    ShowNatValue(n);
  }

  /** Same, for a rendering with a leading minus sign. */
  lemma AtoiShowNegative(n: nat)
    requires n <= -MinInt64
    ensures Atoi("-" + ShowNat(n)) == Some(-(n as int))
  {
    ShowNatValue(n);
    assert ("-" + ShowNat(n))[1..] == ShowNat(n);
  }

  /** A leading plus sign is accepted and ignored. */
  lemma AtoiPlusSign(n: nat)
    requires n <= MaxInt64
    ensures Atoi("+" + ShowNat(n)) == Some(n)
  {
    ShowNatValue(n);
    assert ("+" + ShowNat(n))[1..] == ShowNat(n);
  }

  /** One past the largest `int` is a range error. */
  lemma AtoiOverflow()
    ensures Atoi(ShowNat(MaxInt64 + 1)) == None
  {
    ShowNatValue(MaxInt64 + 1);
  }
}
