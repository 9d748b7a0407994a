/** Decimal text: how integers are printed by `to_string` and read back by `parse`. */
module Decimal {
  import opened Basics

  const I64_MIN: int := -0x8000_0000_0000_0000
  const I64_MAX: int := 0x7FFF_FFFF_FFFF_FFFF

  function DigitChar(d: nat): char
    requires d < 10
  {
    '0' + d as char
  }

  predicate IsDigit(c: char) { '0' <= c <= '9' }

  function ShowNat(n: nat): (s: string)
    ensures s != [] && forall i :: 0 <= i < |s| ==> IsDigit(s[i])
  {
    if n < 10 then [DigitChar(n)] else ShowNat(n / 10) + [DigitChar(n % 10)]
  }

  function ShowInt(i: int): string {
    if i < 0 then "-" + ShowNat(-i) else ShowNat(i)
  }

  function ParseDigits(s: string): Option<nat> {
    if s == [] || !IsDigit(s[|s| - 1]) then None
    else
      var d := (s[|s| - 1] - '0') as nat;
      if |s| == 1 then Some(d)
      else match ParseDigits(s[..|s| - 1])
           case None => None
           case Some(n) => Some(10 * n + d)
  }

  /** `str::parse::<u64>`: digits with an optional plus sign, and in range. */
  function ParseU64(s: string): Option<nat> {
    var digits := if s != [] && s[0] == '+' then s[1..] else s;
    match ParseDigits(digits)
    case None => None
    case Some(n) => if n <= U64_MAX then Some(n) else None
  }

  /** `str::parse::<i64>`: digits with an optional sign, and in range. */
  function ParseI64(s: string): Option<int> {
    var magnitude := ParseDigits(if s != [] && (s[0] == '+' || s[0] == '-') then s[1..] else s);
    match magnitude
    case None => None
    case Some(n) =>
      var i: int := if s != [] && s[0] == '-' then 0 - n else n;
      if I64_MIN <= i <= I64_MAX then Some(i) else None
  }

  lemma {:induction false} ParseShow(n: nat)
    ensures ParseDigits(ShowNat(n)) == Some(n)
  {
    if n >= 10 {
      ParseShow(n / 10);
      var s := ShowNat(n);
      assert s[..|s| - 1] == ShowNat(n / 10);
    }
  }

  lemma ParseShowI64(i: int)
    requires I64_MIN <= i <= I64_MAX
    ensures ParseI64(ShowInt(i)) == Some(i)
  {
    hide ParseDigits, ShowNat;
    if i < 0 {
      ParseShow(-i);
      assert ShowInt(i)[1..] == ShowNat(-i);
    } else {
      ParseShow(i);
      assert IsDigit(ShowInt(i)[0]);
    }
  }

  lemma ParseShowU64(n: nat)
    requires n <= U64_MAX
    ensures ParseU64(ShowNat(n)) == Some(n)
  {
    ParseShow(n);
    assert IsDigit(ShowNat(n)[0]);
  }

  lemma ShowNatInjective(m: nat, n: nat)
    requires ShowNat(m) == ShowNat(n)
    ensures m == n
  {
    ParseShow(m);
    ParseShow(n);
  }

  ghost predicate AllDigits(s: string) { s != [] && forall i :: 0 <= i < |s| ==> IsDigit(s[i]) }

  /** Exactly the non-empty texts of digits are read, and zeros in front make no difference. */
  lemma {:induction false} ParseDigitsExactlyWhen(s: string)
    ensures ParseDigits(s).Some? <==> AllDigits(s)
    ensures AllDigits(s) ==> ParseDigits("0" + s) == ParseDigits(s)
  {
    if |s| > 1 {
      var n := |s| - 1;
      ParseDigitsExactlyWhen(s[..n]);
      assert s == s[..n] + [s[n]];
      assert ("0" + s)[..|s|] == "0" + s[..n];
    } else if |s| == 1 {
      assert ("0" + s)[..1] == "0" && ("0" + s)[1] == s[0];
    }
  }

  /** What is read prints as it was written, unless it was written with a zero in front. */
  lemma {:induction false} ShowParse(s: string)
    requires AllDigits(s) && (|s| > 1 ==> s[0] != '0')
    ensures ParseDigits(s).Some? && ShowNat(ParseDigits(s).value) == s && (|s| > 1 ==> ParseDigits(s).value > 0)
  {
    var n := |s| - 1;
    if n > 0 {
      ShowParse(s[..n]);
      var front, d := ParseDigits(s[..n]).value, (s[n] - '0') as nat;
      assert ParseDigits(s) == Some(10 * front + d) && (10 * front + d) / 10 == front && (10 * front + d) % 10 == d;
      assert s == s[..n] + [s[n]];
      if n == 1 { assert s[..n] == [s[0]] && front == (s[0] - '0') as nat; }
    }
  }

  /** A 64-bit number is read from digits with at most one sign in front; anything else, and any number out
      of range, is not read. */
  lemma ParseI64ExactlyWhen(s: string)
    ensures AllDigits(s) ==> ParseDigits(s).Some? && (ParseI64(s).Some? <==> ParseDigits(s).value <= I64_MAX)
    ensures AllDigits(s) && ParseI64(s).Some? ==>
              ParseI64(s).value == ParseDigits(s).value && ParseI64("+" + s) == ParseI64(s)
    ensures AllDigits(s) ==> (ParseI64("-" + s).Some? <==> ParseDigits(s).value <= I64_MAX + 1)
    ensures AllDigits(s) && ParseI64("-" + s).Some? ==> ParseI64("-" + s).value + ParseDigits(s).value == 0
    ensures ParseI64(s).Some? ==> AllDigits(s) || ((s[0] == '+' || s[0] == '-') && AllDigits(s[1..]))
  {
    ParseDigitsExactlyWhen(s);
    if s != [] { ParseDigitsExactlyWhen(s[1..]); }
    assert ("-" + s)[1..] == s && ("+" + s)[1..] == s;
    hide ParseDigits;
    if AllDigits(s) { assert IsDigit(s[0]); }
  }
}
