/** The two decimal conversions the text layout relies on: `std::to_string`
    for integers and `std::stoll` (base 10, as `strtoll` does it). */
module Decimal {
  import opened Bytes
  import opened Errors

  const LLongMin: int := -0x8000_0000_0000_0000
  const LLongMax: int := 0x7FFF_FFFF_FFFF_FFFF

  /** The decimal digits of `n`, most significant first, without leading zeros. */
  function Digits(n: nat): (r: seq<byte>)
    ensures |r| >= 1
    ensures forall i :: 0 <= i < |r| ==> IsDigit(r[i])
    ensures n < 10 <==> |r| == 1
  {
    if n < 10 then [ZERO + n] else Digits(n / 10) + [ZERO + n % 10]
  }

  /** `std::to_string` of an integer. */
  function ToString(x: int): (r: seq<byte>)
    ensures |r| >= 1
    ensures x >= 0 ==> IsDigit(r[0])
    ensures x < 0 ==> r[0] == MINUS
    ensures forall i :: 0 < i < |r| ==> IsDigit(r[i])
  {
    if x < 0 then [MINUS] + Digits(-x) else Digits(x)
  }

  /** The number written by a run of decimal digits. */
  function DigitsValue(ds: seq<byte>): (n: nat)
    requires forall i :: 0 <= i < |ds| ==> IsDigit(ds[i])
  {
    if ds == [] then 0
    else
      var last := ds[|ds| - 1];
      assert IsDigit(last);
      10 * DigitsValue(ds[..|ds| - 1]) + (last - ZERO)
  }

  lemma {:induction false} DigitsValueOfDigits(n: nat)
    ensures DigitsValue(Digits(n)) == n
  {
    if n >= 10 {
      var ds := Digits(n);
      assert ds[..|ds| - 1] == Digits(n / 10);
      DigitsValueOfDigits(n / 10);
    }
  }

  /** The first index at or after `i` that does not satisfy `isspace`. */
  function SpaceEnd(s: seq<byte>, i: nat): (r: nat)
    requires i <= |s|
    ensures i <= r <= |s|
    ensures forall j :: i <= j < r ==> IsSpace(s[j])
    ensures r == |s| || !IsSpace(s[r])
    decreases |s| - i
  {
    if i < |s| && IsSpace(s[i]) then SpaceEnd(s, i + 1) else i
  }

  /** The first index at or after `i` that is not a decimal digit. */
  function DigitEnd(s: seq<byte>, i: nat): (r: nat)
    requires i <= |s|
    ensures i <= r <= |s|
    ensures forall j :: i <= j < r ==> IsDigit(s[j])
    ensures r == |s| || !IsDigit(s[r])
    decreases |s| - i
  {
    if i < |s| && IsDigit(s[i]) then DigitEnd(s, i + 1) else i
  }

  /** `std::stoll(s)`: leading white space, an optional sign, then the longest
      run of digits; anything after the digits is ignored. No digits raises
      `invalid_argument`; a value outside `long long` raises `out_of_range`. */
  function StoLL(s: seq<byte>): (r: Result<int>)
    ensures r.Success? ==> LLongMin <= r.value <= LLongMax && |s| > 0
    ensures r.Failure? ==> r.error == InvalidArgument || r.error == OutOfRange
  {
    var i := SpaceEnd(s, 0);
    var negative := i < |s| && s[i] == MINUS;
    var j := if i < |s| && (s[i] == MINUS || s[i] == PLUS) then i + 1 else i;
    var k := DigitEnd(s, j);
    if k == j then Failure(InvalidArgument)
    else
      var magnitude: int := DigitsValue(s[j..k]);
      var x: int := if negative then -magnitude else magnitude;
      if x < LLongMin || x > LLongMax then Failure(OutOfRange) else Success(x)
  }

  /** `std::stoll` reads back what `std::to_string` wrote, for every
      `long long`. */
  lemma StoLLOfToString(x: int)
    requires LLongMin <= x <= LLongMax
    ensures StoLL(ToString(x)) == Success(x)
  {
    var s := ToString(x);
    var j := if x < 0 then 1 else 0;
    var m := if x < 0 then -x else x;
    assert s[j..] == Digits(m);
    DigitsValueOfDigits(m);
    hide ToString, Digits;
    assert SpaceEnd(s, 0) == 0;
    assert DigitEnd(s, j) == |s|;
    assert s[j..|s|] == s[j..];
  }

  /** Past `long long`, the same text raises `out_of_range`. */
  lemma StoLLOutOfRange(x: int)
    requires x > LLongMax
    ensures StoLL(ToString(x)) == Failure(OutOfRange)
  {
    var s := ToString(x);
    assert SpaceEnd(s, 0) == 0;
    assert s[0..] == Digits(x);
    assert DigitEnd(s, 0) == |s|;
    assert s[0..|s|] == Digits(x);
    DigitsValueOfDigits(x);
  }
}
