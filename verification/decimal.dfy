/** Decimal text of unsigned 32-bit integers: the `Display` rendering Rust
    uses for `u32` (`{}`), and `u32::from_str`, which the local version scan
    applies to each dot-separated part of a file stem. */
module Decimal {
  import opened Wrappers

  const U32_LIMIT: int := 0x1_0000_0000

  /** Rust's `u32`. */
  type U32 = x: int | 0 <= x < U32_LIMIT

  predicate IsDigit(c: char) {
    '0' <= c <= '9'
  }

  predicate AllDigits(s: string) {
    forall i :: 0 <= i < |s| ==> IsDigit(s[i])
  }

  function DigitValue(c: char): nat
    requires IsDigit(c)
  {
    (c as int) - ('0' as int)
  }

  function DigitChar(d: nat): (c: char)
    requires d < 10
    ensures IsDigit(c) && DigitValue(c) == d
  {
    ('0' as int + d) as char
  }

  /** The number a string of decimal digits denotes, most significant first. */
  function Value(s: string): nat
    requires AllDigits(s)
  {
    if |s| == 0 then 0 else Value(s[..|s| - 1]) * 10 + DigitValue(s[|s| - 1])
  }

  /** A digit string with no superfluous leading zero. */
  predicate Canonical(s: string) {
    |s| > 0 && AllDigits(s) && (s[0] == '0' ==> |s| == 1)
  }

  /** `n.to_string()`: the shortest decimal rendering of `n`. */
  function Show(n: nat): (s: string)
    ensures Canonical(s)
  {
    if n < 10 then [DigitChar(n)] else Show(n / 10) + [DigitChar(n % 10)]
  }

  /** `u32::from_str`: an optional leading `+`, then at least one decimal
      digit, leading zeros allowed, and a value that fits in 32 bits. */
  function ParseU32(s: string): (r: Option<U32>)
    ensures r.Some? ==> |s| > 0 && s != "+"
    ensures r.Some? ==> forall i :: 0 <= i < |s| ==> IsDigit(s[i]) || (i == 0 && s[i] == '+')
  {
    var digits := if |s| > 0 && s[0] == '+' then s[1..] else s;
    if |digits| > 0 && AllDigits(digits) && Value(digits) < U32_LIMIT then Some(Value(digits)) else None
  }

  /** Reading back a rendering gives the number that was rendered. */
  lemma {:induction false} ValueOfShow(n: nat)
    ensures Value(Show(n)) == n
  {
    if n >= 10 {
      var s := Show(n);
      var p := Show(n / 10);
      assert s[..|s| - 1] == p;
      ValueOfShow(n / 10);
    }
  }

  /** A canonical digit string is the rendering of its own value. */
  lemma {:induction false} ShowOfValue(s: string)
    requires Canonical(s)
    ensures Show(Value(s)) == s
  {
    if |s| > 1 {
      var p := s[..|s| - 1];
      assert Canonical(p);
      ValuePositive(p);
      ShowOfValue(p);
      ShowStep(Value(p), DigitValue(s[|s| - 1]));
    }
  }

  /** Appending a digit to a positive number's rendering renders the longer number. */
  lemma ShowStep(q: nat, d: nat)
    requires q > 0 && d < 10
    ensures Show(q * 10 + d) == Show(q) + [DigitChar(d)]
  {
    var n := q * 10 + d;
    assert n / 10 == q && n % 10 == d;
  }

  lemma {:induction false} ValuePositive(s: string)
    requires Canonical(s) && s[0] != '0'
    ensures Value(s) > 0
  {
    if |s| > 1 {
      var p := s[..|s| - 1];
      assert Canonical(p) && p[0] == s[0];
      ValuePositive(p);
    }
  }

  /** Every 32-bit value survives rendering followed by `u32::from_str`. */
  lemma ParseShow(n: U32)
    ensures ParseU32(Show(n)) == Some(n)
  {
    ValueOfShow(n);
  }

  /** What `u32::from_str` accepts: a non-empty digit string, with or
      without a leading `+`, is read exactly when its value fits in 32 bits,
      and then as that value. */
  lemma ParseU32Accepts(plus: bool, digits: string)
    requires |digits| > 0 && AllDigits(digits)
    ensures var s := if plus then "+" + digits else digits;
            && (ParseU32(s).Some? <==> Value(digits) < U32_LIMIT)
            && (ParseU32(s).Some? ==> ParseU32(s).value == Value(digits))
  {
    var s := if plus then "+" + digits else digits;
    if plus {
      assert s[0] == '+' && s[1..] == digits;
    } else {
      assert s[0] != '+' by { assert IsDigit(digits[0]); }
    }
  }

  /** Numbers of 2^32 and above are rejected, `4294967296` first among them. */
  lemma ParseU32RejectsOverflow(n: nat)
    requires n >= U32_LIMIT
    ensures ParseU32(Show(n)) == None
  {
    ValueOfShow(n);
    ParseU32Accepts(false, Show(n));
  }

  /** Leading zeros are accepted, so distinct strings parse to one value. */
  lemma ParseLeadingZero(n: U32)
    ensures ParseU32("0" + Show(n)) == Some(n)
  {
    var s := "0" + Show(n);
    ValueOfShow(n);
    assert s[..|s| - 1] == "0" + Show(n)[..|Show(n)| - 1];
    LeadingZeroValue(Show(n));
  }

  lemma {:induction false} LeadingZeroValue(s: string)
    requires AllDigits(s)
    ensures AllDigits("0" + s) && Value("0" + s) == Value(s)
  {
    if |s| > 0 {
      var p := s[..|s| - 1];
      assert ("0" + s)[..|s|] == "0" + p;
      LeadingZeroValue(p);
    }
  }
}
