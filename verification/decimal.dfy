/** Decimal text of 64-bit signed integers: Rust's `str::parse::<i64>` and the
    `Display` form of an `i64` (`to_string`, `format!("{n}")`). */
module Decimal {
  import opened Wrappers

  const I64Min: int := -0x8000_0000_0000_0000
  const I64Max: int := 0x7FFF_FFFF_FFFF_FFFF

  /** `n` fits in an `i64`. */
  predicate InI64(n: int) {
    I64Min <= n <= I64Max
  }

  predicate IsDigit(c: char) {
    '0' <= c <= '9'
  }

  predicate AllDigits(s: string) {
    forall k :: 0 <= k < |s| ==> IsDigit(s[k])
  }

  /** The value of a string of decimal digits, most significant first. */
  function DigitsValue(s: string): nat
    requires AllDigits(s)
  {
    if |s| == 0 then 0
    else DigitsValue(s[..|s| - 1]) * 10 + (s[|s| - 1] as int - '0' as int)
  }

  /** `s` is the sign text `sign` (empty, `+` or `-`) followed by the ASCII
      digits `digits`, at least one of them. */
  predicate SplitsAs(s: string, sign: string, digits: string) {
    && s == sign + digits
    && (sign == "" || sign == "+" || sign == "-")
    && |digits| >= 1
    && AllDigits(digits)
  }

  /** The value a sign and a digit string denote. */
  function Signed(sign: string, digits: string): int
    requires AllDigits(digits)
  {
    var m: int := DigitsValue(digits);
    if sign == "-" then -m else m
  }

  /** `s.parse::<i64>().ok()`: an optional `+` or `-`, then one or more ASCII
      digits and nothing else, with a value inside the `i64` range. */
  function ParseI64(s: string): (r: Option<int>)
    ensures r.Some? ==> InI64(r.value) && |s| >= 1
    ensures r.Some? <==> exists sign, digits :: SplitsAs(s, sign, digits) && InI64(Signed(sign, digits))
    ensures r.Some? ==> forall sign, digits :: SplitsAs(s, sign, digits) ==> r.value == Signed(sign, digits)
  {
    var negative := |s| > 0 && s[0] == '-';
    var digits := if |s| > 0 && (s[0] == '-' || s[0] == '+') then s[1..] else s;
    SplitUnique(s);
    if |digits| == 0 || !AllDigits(digits) then None
    else
      var m: int := DigitsValue(digits);
      var v := if negative then -m else m;
      if InI64(v) then Some(v) else None
  }

  /** The sign of a decimal text is its first character when that is `+` or
      `-`, and empty otherwise: there is at most one way to split. */
  lemma SplitUnique(s: string)
    ensures var sign := if |s| > 0 && (s[0] == '-' || s[0] == '+') then s[..1] else "";
            forall sign', digits' :: SplitsAs(s, sign', digits') ==> sign' == sign && digits' == s[|sign|..]
    ensures var sign := if |s| > 0 && (s[0] == '-' || s[0] == '+') then s[..1] else "";
            var digits := s[|sign|..];
            |digits| >= 1 && AllDigits(digits) ==> SplitsAs(s, sign, digits)
  {
    var sign := if |s| > 0 && (s[0] == '-' || s[0] == '+') then s[..1] else "";
    forall sign', digits' | SplitsAs(s, sign', digits')
      ensures sign' == sign && digits' == s[|sign|..]
    {
      if sign' == "" {
        assert s[0] == digits'[0];
      } else {
        assert s[0] == sign'[0];
        assert sign' == s[..1];
      }
    }
    assert s == sign + s[|sign|..];
  }

  /** The digit character of a value 0..9. */
  function DigitChar(d: int): (c: char)
    requires 0 <= d < 10
    ensures IsDigit(c) && c as int - '0' as int == d
  {
    ('0' as int + d) as char
  }

  /** The shortest decimal digits of `n`. */
  function FormatNat(n: nat): (r: string)
    ensures |r| >= 1 && AllDigits(r)
    ensures DigitsValue(r) == n
    ensures r[0] != '0' || r == "0"
  {
    if n < 10 then [DigitChar(n)]
    else
      var r := FormatNat(n / 10) + [DigitChar(n % 10)];
      assert r[..|r| - 1] == FormatNat(n / 10);
      r
  }

  /** `n.to_string()` for an `i64`: a `-` sign for negatives, never a `+`. */
  function FormatI64(n: int): (r: string)
    requires InI64(n)
    ensures |r| >= 1 && (r[0] == '-' || IsDigit(r[0]))
    ensures r[0] == '-' <==> n < 0
    ensures var lead := if n < 0 then 1 else 0; |r| > lead && (r[lead] != '0' || r == "0")
    ensures ParseI64(r) == Some(n)
  {
    if n < 0 then
      var r := "-" + FormatNat(-n);
      assert r[1..] == FormatNat(-n);
      r
    else FormatNat(n)
  }
}
