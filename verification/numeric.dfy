/** Integer features of full-context labels: `str::parse::<i32>` and
    `numeric_feature_by_regex` (sbv2_core/src/text.rs:29-35). */
module Numeric {
  import opened Wrappers

  const I32Min: int := -0x8000_0000
  const I32Max: int := 0x7fff_ffff

  /** Value returned by `numeric_feature_by_regex` when its pattern does not occur. */
  const Absent: int := -50

  predicate IsDigit(c: char)
  {
    '0' <= c <= '9'
  }

  predicate AllDigits(s: string)
  {
    forall i :: 0 <= i < |s| ==> IsDigit(s[i])
  }

  function DigitValue(c: char): nat
    requires IsDigit(c)
  {
    (c as int) - ('0' as int)
  }

  function DigitChar(d: nat): (c: char)
    requires d < 10
    ensures IsDigit(c) && DigitValue(c) == d
  {
    (('0' as int) + d) as char
  }

  /** Value of a decimal digit string, most significant digit first. */
  function DigitsValue(s: string): nat
    requires AllDigits(s)
  {
    if s == [] then 0 else 10 * DigitsValue(s[..|s| - 1]) + DigitValue(s[|s| - 1])
  }

  /** `i32::from_str`: an optional `+` or `-`, then at least one ASCII digit,
      with the value inside the 32-bit range. */
  function ParseI32(s: string): (r: Option<int>)
    ensures r.Some? ==> I32Min <= r.value <= I32Max
    ensures r.Some? ==> |s| > 0 && (IsDigit(s[0]) || s[0] == '-' || s[0] == '+')
  {
    var signed := |s| > 0 && (s[0] == '-' || s[0] == '+');
    var body := if signed then s[1..] else s;
    if body == [] || !AllDigits(body) then None
    else
      var v := if |s| > 0 && s[0] == '-' then 0 - (DigitsValue(body) as int) else DigitsValue(body) as int;
      if I32Min <= v <= I32Max then Some(v) else None
  }

  /** Decimal rendering of a natural number. */
  function Digits(n: nat): (s: string)
    ensures |s| > 0 && AllDigits(s)
  {
    if n < 10 then [DigitChar(n)] else Digits(n / 10) + [DigitChar(n % 10)]
  }

  /** Decimal rendering of an integer, as in a full-context label. */
  function ShowInt(n: int): string
  {
    if n < 0 then "-" + Digits(-n) else Digits(n)
  }

  lemma {:induction false} DigitsRoundTrip(n: nat)
    ensures DigitsValue(Digits(n)) == n
  {
    if n >= 10 {
      var s := Digits(n);
      assert s[..|s| - 1] == Digits(n / 10);
      DigitsRoundTrip(n / 10);
    }
  }

  /** Parsing the rendering of any 32-bit integer gives it back. */
  lemma ParseShowRoundTrip(n: int)
    requires I32Min <= n <= I32Max
    ensures ParseI32(ShowInt(n)) == Some(n)
  {
    if n < 0 {
      NegativeRoundTrip(n);
    } else {
      DigitsRoundTrip(n);
      assert IsDigit(Digits(n)[0]);
    }
  }

  lemma NegativeRoundTrip(n: int)
    requires I32Min <= n < 0
    ensures ParseI32("-" + Digits(-n)) == Some(n)
  {
    var s := "-" + Digits(-n);
    var body := s[1..];
    assert s[0] == '-' && body == Digits(-n);
    DigitsRoundTrip(-n);
    assert body != [] && AllDigits(body);
    assert DigitsValue(body) == -n;
  }

  /** A regex capture that the source would `unwrap` after `parse`. */
  predicate Parses(capture: Option<string>)
  {
    capture.Some? ==> ParseI32(capture.value).Some?
  }

  /** `numeric_feature_by_regex`: the parsed capture, or -50 when the pattern
      does not occur; a capture that is not an i32 panics, hence the requires. */
  function NumericFeature(capture: Option<string>): (r: int)
    requires Parses(capture)
    ensures capture.None? ==> r == Absent
    ensures capture.Some? ==> ParseI32(capture.value) == Some(r)
  {
    match capture
    case None => Absent
    case Some(text) => ParseI32(text).value
  }

  /** A feature written as an integer in the label is read back exactly. */
  lemma FeatureRoundTrip(n: int)
    requires I32Min <= n <= I32Max
    ensures Parses(Some(ShowInt(n)))
    ensures NumericFeature(Some(ShowInt(n))) == n
  {
    ParseShowRoundTrip(n);
  }
}
