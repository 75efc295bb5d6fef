/** Strings: decimal numerals, prefixes and suffixes. */
module Text {
  import opened Model

  predicate IsDigit(c: char) {
    '0' <= c <= '9'
  }

  function DigitValue(c: char): (d: nat)
    requires IsDigit(c)
    ensures d < 10
  {
    c as int - '0' as int
  }

  function Digit(d: nat): (c: char)
    requires d < 10
    ensures IsDigit(c) && DigitValue(c) == d
  {
    (d + '0' as int) as char
  }

  predicate AllDigits(s: string) {
    forall c :: c in s ==> IsDigit(c)
  }

  /** The decimal numeral of a natural number. */
  function FormatNat(n: nat): (s: string)
    ensures s != "" && AllDigits(s)
  {
    if n < 10 then [Digit(n)] else FormatNat(n / 10) + [Digit(n % 10)]
  }

  function NatValue(s: string): nat
    requires AllDigits(s)
  {
    if s == "" then 0 else NatValue(s[..|s| - 1]) * 10 + DigitValue(s[|s| - 1])
  }

  lemma {:induction false} ValueOfFormat(n: nat)
    ensures NatValue(FormatNat(n)) == n
  {
    if n >= 10 {
      ValueOfFormat(n / 10);
      assert FormatNat(n)[..|FormatNat(n)| - 1] == FormatNat(n / 10);
    }
  }

  lemma FormatInjective(a: nat, b: nat)
    requires FormatNat(a) == FormatNat(b)
    ensures a == b
  {
    ValueOfFormat(a);
    ValueOfFormat(b);
  }

  const MAX_INT64 := 0x7FFF_FFFF_FFFF_FFFF

  /** Reads a 64-bit signed numeral: an optional sign and at least one digit, within range. */
  function ParseInt64(s: string): Result<int> {
    var negative := s != "" && s[0] == '-';
    var digits := if s != "" && (s[0] == '-' || s[0] == '+') then s[1..] else s;
    if digits == "" || !AllDigits(digits) then Err
    else
      var v: int := NatValue(digits);
      if negative then (if v <= MAX_INT64 + 1 then Ok(-v) else Err)
      else if v <= MAX_INT64 then Ok(v)
      else Err
  }

  /** Reads a 64-bit unsigned numeral: at least one digit, no sign, within range. */
  function ParseUint64(s: string): Result<nat> {
    if s == "" || !AllDigits(s) || NatValue(s) > 2 * MAX_INT64 + 1 then Err else Ok(NatValue(s))
  }

  /** Zeros in front do not matter. */
  lemma {:induction false} LeadingZero(s: string)
    requires AllDigits(s)
    ensures NatValue("0" + s) == NatValue(s)
    decreases |s|
  {
    if s != "" {
      var init := s[..|s| - 1];
      LeadingZero(init);
      assert ("0" + s)[..|"0" + s| - 1] == "0" + init;
    } else {
      assert "0" + s == "0" && "0"[..0] == "";
    }
  }

  /** A signed numeral is an optional sign and digits, and must fit in 64 bits. */
  lemma ParsesSigned(sign: string, digits: string)
    requires sign in {"", "+", "-"} && digits != "" && AllDigits(digits)
    ensures var n: int := NatValue(digits);
            var v := if sign == "-" then -n else n;
            ParseInt64(sign + digits) == if -0x8000_0000_0000_0000 <= v <= 0x7FFF_FFFF_FFFF_FFFF then Ok(v) else Err
  {
    assert digits[0] in digits;
    if sign == "" {
      assert sign + digits == digits;
    } else {
      assert (sign + digits)[1..] == digits;
    }
  }

  /** Nothing else is one. */
  lemma OnlyNumeralsParse(s: string)
    ensures ParseInt64(s).Ok? ==> exists sign, digits :: sign in {"", "+", "-"} && digits != "" && AllDigits(digits) && s == sign + digits
    ensures ParseUint64(s) ==
            if s != "" && (forall c :: c in s ==> '0' <= c <= '9') && NatValue(s) <= 0xFFFF_FFFF_FFFF_FFFF then Ok(NatValue(s)) else Err
  {
    if ParseInt64(s).Ok? {
      if s[0] == '-' || s[0] == '+' {
        assert s == s[..1] + s[1..] && s[..1] == [s[0]];
      } else {
        assert s == "" + s;
      }
    }
  }

  lemma ParseFormatted(n: nat)
    ensures ParseInt64(FormatNat(n)) == if n <= MAX_INT64 then Ok(n) else Err
    ensures ParseUint64(FormatNat(n)) == if n <= 2 * MAX_INT64 + 1 then Ok(n) else Err
  {
    ValueOfFormat(n);
    assert FormatNat(n)[0] in FormatNat(n);
  }

  predicate HasSuffix(s: string, suffix: string) {
    |suffix| <= |s| && s[|s| - |suffix|..] == suffix
  }

  function TrimSuffix(s: string, suffix: string): string {
    if HasSuffix(s, suffix) then s[..|s| - |suffix|] else s
  }

  function TrimPrefix(s: string, prefix: string): string {
    if prefix <= s then s[|prefix|..] else s
  }

  /** The position of the first `c`, or the length of the string. */
  function IndexOfChar(s: string, c: char): (i: nat)
    ensures i <= |s| && c !in s[..i]
    ensures i < |s| ==> s[i] == c
  {
    if s == "" || s[0] == c then 0
    else
      var i := 1 + IndexOfChar(s[1..], c);
      assert s[..i] == [s[0]] + s[1..][..i - 1];
      i
  }

  /** The part before the first `c`. */
  function Before(s: string, c: char): (r: string)
    ensures r <= s && c !in r
    ensures c !in s <==> r == s
  {
    var i := IndexOfChar(s, c);
    assert s[..i] + s[i..] == s;
    if i < |s| then assert c in s; s[..i] else assert s[..i] == s; s
  }

  lemma {:induction false} FirstAfterPrefix(prefix: string, s: string, c: char)
    requires c !in prefix
    ensures IndexOfChar(prefix + s, c) == |prefix| + IndexOfChar(s, c)
  {
    if prefix == "" {
      assert prefix + s == s;
    } else {
      assert (prefix + s)[1..] == prefix[1..] + s;
      FirstAfterPrefix(prefix[1..], s, c);
    }
  }

  lemma IndexAfterPrefix(prefix: string, s: string, c: char)
    requires c !in prefix
    ensures IndexOfChar(prefix + s, c) == |prefix| + IndexOfChar(s, c)
    ensures Before(prefix + s, c) == prefix + Before(s, c)
  {
    hide IndexOfChar, Before;
    FirstAfterPrefix(prefix, s, c);
    BeforeIsCut(prefix + s, c);
    BeforeIsCut(s, c);
    assert (prefix + s)[..|prefix| + IndexOfChar(s, c)] == prefix + s[..IndexOfChar(s, c)];
  }

  lemma BeforeIsCut(s: string, c: char)
    ensures Before(s, c) == s[..IndexOfChar(s, c)]
  {}
}
