// Decimal text <-> integer, as the Go standard library's strconv.FormatInt(n, 10)
// and strconv.ParseInt(s, 10, 64) behave on the inputs the downloader gives them.

module Numbers {

  import opened Options

  const MaxInt64: int := 0x7FFF_FFFF_FFFF_FFFF
  const MinInt64: int := -0x8000_0000_0000_0000

  predicate IsDigit(c: char) { '0' <= c <= '9' }

  function DigitValue(c: char): (d: nat)
    requires IsDigit(c)
    ensures d < 10
  {
    (c as int) - ('0' as int)
  }

  function DigitChar(d: nat): (c: char)
    requires d < 10
    ensures IsDigit(c) && DigitValue(c) == d
  {
    (('0' as int) + d) as char
  }

  predicate AllDigits(s: string) { forall i :: 0 <= i < |s| ==> IsDigit(s[i]) }

  /** The value of a non-empty run of decimal digits, most significant first. */
  function DigitsValue(s: string): (v: nat)
    requires AllDigits(s)
  {
    if s == [] then 0 else DigitsValue(s[..|s| - 1]) * 10 + DigitValue(s[|s| - 1])
  }

  /** strconv.FormatInt(n, 10) for a non-negative n: no sign, no leading zeros. */
  function Decimal(n: nat): (s: string)
    ensures s != [] && AllDigits(s)
    ensures |s| > 1 ==> s[0] != '0'
    decreases n
  {
    if n < 10 then [DigitChar(n)] else Decimal(n / 10) + [DigitChar(n % 10)]
  }

  /** strconv.ParseInt(s, 10, 64): an optional sign, then at least one decimal digit, and a
      value that fits in 64 bits; anything else is an error (None). The source discards the
      value that ParseInt returns together with an error, so syntax and range errors are one case. */
  function ParseInt64(s: string): (r: Option<int>)
    ensures r.Some? ==> MinInt64 <= r.value <= MaxInt64
  {
    if s == [] then None
    else
      var neg := s[0] == '-';
      var digits := if s[0] == '+' || s[0] == '-' then s[1..] else s;
      if digits == [] || !AllDigits(digits) then None
      else
        var v: int := if neg then -(DigitsValue(digits) as int) else DigitsValue(digits);
        if MinInt64 <= v <= MaxInt64 then Some(v) else None
  }

  lemma {:induction false} DecimalValue(n: nat)
    ensures DigitsValue(Decimal(n)) == n
    decreases n
  {
    if n >= 10 {
      var s := Decimal(n);
      assert s[..|s| - 1] == Decimal(n / 10);
      DecimalValue(n / 10);
    }
  }

  /** Parsing what FormatInt printed gives the number back. */
  lemma DecimalRoundTrip(n: nat)
    requires n <= MaxInt64
    ensures ParseInt64(Decimal(n)) == Some(n)
  {
    DecimalValue(n);
    var s := Decimal(n);
    assert s[0] != '+' && s[0] != '-';
  }

  /** A '+' sign and leading zeros do not change the value; '*' (an unknown total in a
      Content-Range) and trailing garbage do not parse. */
  lemma ParseInt64Examples()
    ensures ParseInt64("+1234") == Some(1234)
    ensures ParseInt64("-0") == Some(0)
    ensures ParseInt64("007") == Some(7)
    ensures ParseInt64("*") == None
    ensures ParseInt64("12a") == None
    ensures ParseInt64("") == None
  {
    assert DigitsValue("1234") == 1234 by {
      assert "1234"[..3] == "123" && "123"[..2] == "12" && "12"[..1] == "1";
    }
    assert DigitsValue("007") == 7 by {
      assert "007"[..2] == "00" && "00"[..1] == "0";
    }
    assert "+1234"[1..] == "1234";
    assert "-0"[1..] == "0";
    assert !AllDigits("12a") by { assert !IsDigit("12a"[2]); }
    assert !AllDigits("*") by { assert !IsDigit("*"[0]); }
  }
}
