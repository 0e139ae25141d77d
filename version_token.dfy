/**
 * The version token of the earlier registration service: `"00" +
 * String.valueOf(Integer.parseInt(old) + 1)`, with Java's 32-bit `int`
 * range and wrap-around written out.
 */
module VersionToken {
  import opened Domain

  const Int32Min: int := -0x8000_0000
  const Int32Max: int := 0x7fff_ffff

  predicate IsDigit(c: char) {
    '0' <= c <= '9'
  }

  predicate AllDigits(s: string) {
    forall i | 0 <= i < |s| :: IsDigit(s[i])
  }

  /** The value of a string of decimal digits, most significant first. */
  function DigitsValue(s: string): nat
    requires AllDigits(s)
    decreases |s|
  {
    if s == [] then 0
    else DigitsValue(s[..|s| - 1]) * 10 + (s[|s| - 1] as int - '0' as int)
  }

  /**
   * `Integer.parseInt(s)`: an optional sign, then at least one decimal
   * digit, and a value inside the `int` range; anything else (including a
   * null string) is a `NumberFormatException`, here `None`.
   */
  function ParseInt(s: string): (r: Option<int>)
    ensures s == [] ==> r.None?
    ensures r.Some? ==> Int32Min <= r.value <= Int32Max
    ensures r.Some? ==> IsDigit(s[|s| - 1]) && (IsDigit(s[0]) || s[0] == '-' || s[0] == '+')
    ensures r.Some? && s[0] == '-' ==> r.value <= 0
    ensures r.Some? && s[0] != '-' ==> r.value >= 0
  {
    if |s| == 0 then None
    else
      var digits := if s[0] == '-' || s[0] == '+' then s[1..] else s;
      if |digits| == 0 || !AllDigits(digits) then None
      else
        var v: int := if s[0] == '-' then -(DigitsValue(digits) as int) else DigitsValue(digits);
        if Int32Min <= v <= Int32Max then Some(v) else None
  }

  function DigitChar(d: nat): char
    requires d < 10
  {
    ('0' as int + d) as char
  }

  /** The decimal digits of `n`, without leading zeros. */
  function NatToDigits(n: nat): (r: string)
    ensures |r| >= 1 && AllDigits(r)
    ensures r[0] == '0' ==> n == 0
    decreases n
  {
    if n < 10 then [DigitChar(n)] else NatToDigits(n / 10) + [DigitChar(n % 10)]
  }

  /** `String.valueOf(int)`: a minus sign exactly for negative values, then the digits. */
  function IntToString(n: int): (r: string)
    ensures |r| >= 1
    ensures r[0] == '-' <==> n < 0
    ensures n < 0 ==> |r| >= 2 && AllDigits(r[1..]) && r[1] != '0'
    ensures n >= 0 ==> AllDigits(r) && (r[0] == '0' ==> r == "0")
  {
    if n < 0 then "-" + NatToDigits(-n) else NatToDigits(n)
  }

  /** Java `int` addition of one: the largest value wraps to the smallest. */
  function Int32Increment(n: int): (r: int)
    requires Int32Min <= n <= Int32Max
    ensures Int32Min <= r <= Int32Max
    ensures (r - (n + 1)) % 0x1_0000_0000 == 0
  {
    if n == Int32Max then Int32Min else n + 1
  }

  /**
   * `getUpdatedVersion`: the stored version parsed, incremented and
   * prefixed with "00"; an unparsable or null version throws.
   */
  function GetUpdatedVersion(version: Option<string>): (r: Result<string>)
    ensures r.Success? <==> version.Some? && ParseInt(version.value).Some?
    ensures r.Failure? ==> r.error == NumberFormat
    ensures r.Success? ==> |r.value| >= 3 && r.value[..2] == "00"
  {
    if version.None? then Failure(NumberFormat)
    else
      match ParseInt(version.value)
      case None => Failure(NumberFormat)
      case Some(n) => Success("00" + IntToString(Int32Increment(n)))
  }

  /** The digits of `n` read back as `n`. */
  lemma {:induction false} NatToDigitsValue(n: nat)
    ensures DigitsValue(NatToDigits(n)) == n
    decreases n
  {
    if n >= 10 {
      NatToDigitsValue(n / 10);
      var s := NatToDigits(n);
      assert s[..|s| - 1] == NatToDigits(n / 10);
      assert s[|s| - 1] == DigitChar(n % 10);
    }
  }

  /** Leading zeros do not change the value of a digit string. */
  lemma {:induction false} LeadingZeroValue(s: string)
    requires AllDigits(s)
    ensures AllDigits("0" + s) && DigitsValue("0" + s) == DigitsValue(s)
    decreases |s|
  {
    if s != [] {
      var init := s[..|s| - 1];
      LeadingZeroValue(init);
      assert ("0" + s)[..|"0" + s| - 1] == "0" + init;
    }
  }

  /** `Integer.parseInt(String.valueOf(n)) == n` for every `int`. */
  lemma ParseIntToString(n: int)
    requires Int32Min <= n <= Int32Max
    ensures ParseInt(IntToString(n)) == Some(n)
  {
    var s := IntToString(n);
    if n < 0 {
      NatToDigitsValue(-n);
      assert s[0] == '-' && s[1..] == NatToDigits(-n);
    } else {
      NatToDigitsValue(n);
      assert IsDigit(s[0]);
    }
  }

  /**
   * For a stored version that parses to `n` with `-1 <= n < Int32Max`, the
   * updated version parses to `n + 1`.
   */
  lemma UpdatedVersionCounts(version: string, n: int)
    requires ParseInt(version) == Some(n)
    requires -1 <= n < Int32Max
    ensures GetUpdatedVersion(Some(version)).Success?
    ensures ParseInt(GetUpdatedVersion(Some(version)).value) == Some(n + 1)
  {
    var digits := NatToDigits(n + 1);
    NatToDigitsValue(n + 1);
    LeadingZeroValue(digits);
    LeadingZeroValue("0" + digits);
    assert "00" + digits == "0" + ("0" + digits);
  }

  /**
   * At the top of the range the increment wraps, and the updated version
   * ("00-2147483648") no longer parses; the same holds for every version
   * below -1, whose successor is negative.
   */
  lemma UpdatedVersionStopsParsing(version: string, n: int)
    requires ParseInt(version) == Some(n)
    requires n == Int32Max || n < -1
    ensures GetUpdatedVersion(Some(version)).Success?
    ensures ParseInt(GetUpdatedVersion(Some(version)).value) == None
  {
    var r := GetUpdatedVersion(Some(version)).value;
    assert r[0] == '0' && r[2] == '-';
    assert !IsDigit(r[2]);
  }

  /** "001" becomes "002", and "009" becomes "0010": the width is not kept. */
  lemma UpdatedVersionExamples()
    ensures GetUpdatedVersion(Some("001")) == Success("002")
    ensures GetUpdatedVersion(Some("009")) == Success("0010")
    ensures GetUpdatedVersion(None) == Failure(NumberFormat)
    ensures GetUpdatedVersion(Some("")) == Failure(NumberFormat)
    ensures GetUpdatedVersion(Some("v1")) == Failure(NumberFormat)
  {
    assert DigitChar(1) == '1' && DigitChar(9) == '9';
    DigitsOfSmall("001", 1);
    DigitsOfSmall("009", 9);
    assert ParseInt("001") == Some(1);
    assert ParseInt("009") == Some(9);
    assert DigitChar(2) == '2' && DigitChar(0) == '0';
    assert NatToDigits(2) == "2";
    assert NatToDigits(10) == "10";
    assert IntToString(2) == "2" && "00" + "2" == "002";
    assert IntToString(10) == "10" && "00" + "10" == "0010";
    assert !IsDigit("v1"[0]);
  }

  /** A two-zero prefix followed by one digit `d` reads as `d`. */
  lemma DigitsOfSmall(s: string, d: nat)
    requires d < 10 && s == "00" + [DigitChar(d)]
    ensures AllDigits(s) && DigitsValue(s) == d
  {
    var c := DigitChar(d);
    assert IsDigit(c) && c as int - '0' as int == d;
    assert AllDigits(s);
    assert s[..2] == "00" && "00"[..1] == "0" && "0"[..0] == "";
    assert DigitsValue("0") == 0;
    assert DigitsValue("00") == 0;
  }
}
