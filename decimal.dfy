/** Decimal integers as text: Python's `int(s)` for ASCII input, `str(n)` and the
    zero-padded `f"{n:02d}"` format. */
module Decimal {
  import opened Wrappers

  predicate IsDigit(c: char) { '0' <= c <= '9' }

  predicate AllDigits(s: string) { forall i :: 0 <= i < |s| ==> IsDigit(s[i]) }

  function DigitValue(c: char): (d: nat)
    requires IsDigit(c)
    ensures d < 10
  {
    (c as int) - ('0' as int)
  }

  function DigitChar(d: nat): (c: char)
    requires d < 10
    ensures IsDigit(c) && DigitValue(c) == d
  {
    (('0' as int) + d) as char
  }

  /** The value of a string of decimal digits; leading zeros are allowed, as `int("08")` allows them. */
  function ParseNat(s: string): nat
    requires AllDigits(s)
  {
    if s == [] then 0 else ParseNat(s[..|s| - 1]) * 10 + DigitValue(s[|s| - 1])
  }

  /** `int(s)`: an optional sign followed by one or more digits; anything else raises (`None`). */
  function ParseInt(s: string): (r: Option<int>)
    ensures r.Some? <==> (|s| > 0 && AllDigits(s)) || (|s| > 1 && (s[0] == '-' || s[0] == '+') && AllDigits(s[1..]))
    ensures r.Some? && s[0] != '-' ==> r.value >= 0
    ensures r.Some? && s[0] == '-' ==> r.value <= 0
  {
    if |s| > 0 && (s[0] == '-' || s[0] == '+') then
      if |s| > 1 && AllDigits(s[1..]) then
        var v: int := ParseNat(s[1..]);
        Some(if s[0] == '-' then -v else v)
      else
        None
    else if |s| > 0 && AllDigits(s) then
      Some(ParseNat(s))
    else
      None
  }

  /** The shortest decimal digits of `n`. */
  function NatDigits(n: nat): (r: string)
    ensures |r| >= 1 && AllDigits(r)
    ensures (|r| == 1) == (n < 10)
  {
    if n < 10 then [DigitChar(n)] else NatDigits(n / 10) + [DigitChar(n % 10)]
  }

  /** `str(n)` for an integer. */
  function IntToString(n: int): (r: string)
    ensures |r| >= 1 && (r[0] == '-' <==> n < 0)
    ensures AllDigits(if n < 0 then r[1..] else r)
  {
    if n < 0 then "-" + NatDigits(-n) else NatDigits(n)
  }

  /** `f"{n:02d}"`: at least two characters, zero-padded after the sign; a negative
      number already has two characters, so it is never padded. */
  function ZeroPad2(n: int): (r: string)
    ensures |r| >= 2 && (r[0] == '-' <==> n < 0)
    ensures AllDigits(if n < 0 then r[1..] else r)
  {
    if n < 0 then "-" + NatDigits(-n)
    else if n < 10 then "0" + NatDigits(n)
    else NatDigits(n)
  }

  lemma {:induction false} ParseNatDigits(n: nat)
    ensures ParseNat(NatDigits(n)) == n
  {
    if n >= 10 {
      var s := NatDigits(n);
      ParseNatDigits(n / 10);
      assert s[..|s| - 1] == NatDigits(n / 10);
    }
  }

  lemma {:induction false} ParseNatLeadingZero(s: string)
    requires AllDigits(s)
    ensures AllDigits("0" + s) && ParseNat("0" + s) == ParseNat(s)
  {
    if s != [] {
      ParseNatLeadingZero(s[..|s| - 1]);
      assert ("0" + s)[..|s|] == "0" + s[..|s| - 1];
    }
  }

  /** `int(str(n)) == n`. */
  lemma {:induction false} IntToStringRoundTrip(n: int)
    ensures ParseInt(IntToString(n)) == Some(n)
  {
    if n < 0 {
      NegativeReads(-n);
    } else {
      NatDigitsReads(n);
    }
  }

  lemma NatDigitsReads(n: nat)
    ensures ParseInt(NatDigits(n)) == Some(n)
  {
    ParseNatDigits(n);
    assert IsDigit(NatDigits(n)[0]);
  }

  lemma NegativeReads(m: nat)
    ensures ParseInt("-" + NatDigits(m)) == Some(-(m as int))
  {
    ParseNatDigits(m);
    assert ("-" + NatDigits(m))[1..] == NatDigits(m);
  }

  /** The two-digit format reads back as the same integer, is at least two characters
      wide, all digits for n >= 0 and exactly two digits for 0 <= n < 100. */
  lemma ZeroPad2RoundTrip(n: int)
    ensures ParseInt(ZeroPad2(n)) == Some(n)
    ensures |ZeroPad2(n)| >= 2
    ensures n >= 0 ==> AllDigits(ZeroPad2(n))
    ensures 0 <= n < 100 ==> |ZeroPad2(n)| == 2
    ensures ':' !in ZeroPad2(n) && '-' !in ZeroPad2(n)[1..]
  {
    ZeroPad2Reads(n);
    ZeroPad2Shape(n);
  }

  lemma ZeroPad2Reads(n: int)
    ensures ParseInt(ZeroPad2(n)) == Some(n)
  {
    if n < 0 {
      NegativeReads(-n);
    } else if n < 10 {
      ParseNatDigits(n);
      ParseNatLeadingZero(NatDigits(n));
    } else {
      NatDigitsReads(n);
    }
  }

  lemma ZeroPad2Shape(n: int)
    ensures |ZeroPad2(n)| >= 2
    ensures 0 <= n < 100 ==> |ZeroPad2(n)| == 2 && AllDigits(ZeroPad2(n))
    ensures ':' !in ZeroPad2(n) && '-' !in ZeroPad2(n)[1..]
  {
    var r := ZeroPad2(n);
    if 10 <= n < 100 {
      assert NatDigits(n) == NatDigits(n / 10) + [DigitChar(n % 10)];
    }
    assert forall i :: 1 <= i < |r| ==> IsDigit(r[i]);
    assert r[0] == '-' || IsDigit(r[0]);
  }
}
