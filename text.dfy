/** Decimal text as the C library reads and writes it: `atoi` (as used by the
    argument parser) and the `%06d` conversion (as used for file names). */
module Text {

  /** `isspace` in the C locale. */
  predicate IsSpace(c: char) {
    c == ' ' || c == '\t' || c == '\n' || c == '\U{B}' || c == '\U{C}' || c == '\r'
  }

  predicate IsDigit(c: char) {
    '0' <= c <= '9'
  }

  predicate AllDigits(s: string) {
    forall i | 0 <= i < |s| :: IsDigit(s[i])
  }

  function DigitValue(c: char): (d: nat)
    requires IsDigit(c)
    ensures d < 10
  {
    c as int - '0' as int
  }

  function DigitChar(d: nat): (c: char)
    requires d < 10
    ensures IsDigit(c) && DigitValue(c) == d
  {
    (d + '0' as int) as char
  }

  /** The value of a string of decimal digits, most significant first. */
  function DigitsValue(ds: string): (v: nat)
    requires AllDigits(ds)
  {
    if ds == [] then 0 else 10 * DigitsValue(ds[..|ds| - 1]) + DigitValue(ds[|ds| - 1])
  }

  /** The shortest decimal representation of `n` (no sign, no leading zero). */
  function Decimal(n: nat): (s: string)
    ensures |s| >= 1 && AllDigits(s)
    ensures n > 0 ==> s[0] != '0'
  {
    if n < 10 then [DigitChar(n)] else Decimal(n / 10) + [DigitChar(n % 10)]
  }

  function Zeros(k: nat): (s: string)
    ensures |s| == k && AllDigits(s)
  {
    seq(k, _ => '0')
  }

  /** `s` padded on the left with '0' up to `width` characters; never truncated. */
  function ZeroPad(s: string, width: int): (r: string)
    ensures |r| == if |s| < width then width else |s|
    ensures AllDigits(s) ==> AllDigits(r)
  {
    if |s| < width then Zeros(width - |s|) + s else s
  }

  /** `printf("%06d", n)`: a minimum field width of six, zero-filled after the sign. */
  function Format06(n: int): (r: string)
    ensures |r| >= 6
    ensures n >= 0 ==> AllDigits(r)
    ensures n < 0 <==> r[0] == '-'
    ensures n < 0 ==> AllDigits(r[1..])
  {
    if n < 0 then "-" + ZeroPad(Decimal(-n), 5) else ZeroPad(Decimal(n), 6)
  }

  /** `s` after its leading white space. */
  function SkipSpace(s: string): (r: string)
    ensures |r| <= |s| && r == s[|s| - |r|..]
    ensures forall i | 0 <= i < |s| - |r| :: IsSpace(s[i])
    ensures r == [] || !IsSpace(r[0])
  {
    if s != [] && IsSpace(s[0]) then SkipSpace(s[1..]) else s
  }

  /** The longest prefix of `s` made of decimal digits. */
  function LeadingDigits(s: string): (r: string)
    ensures |r| <= |s| && r == s[..|r|] && AllDigits(r)
    ensures |r| < |s| ==> !IsDigit(s[|r|])
  {
    if s == [] || !IsDigit(s[0]) then [] else [s[0]] + LeadingDigits(s[1..])
  }

  /** `atoi`: leading white space, an optional sign, then as many digits as
      there are; anything else ends the number, and no digit at all gives 0. */
  function Atoi(s: string): (r: int)
    ensures r < 0 ==> SkipSpace(s) != [] && SkipSpace(s)[0] == '-'
    ensures (var t := SkipSpace(s); t == [] || !(t[0] == '-' || t[0] == '+' || IsDigit(t[0]))) ==> r == 0
  {
    var t := SkipSpace(s);
    if t != [] && t[0] == '-' then -(DigitsValue(LeadingDigits(t[1..])) as int)
    else if t != [] && t[0] == '+' then DigitsValue(LeadingDigits(t[1..]))
    else DigitsValue(LeadingDigits(t))
  }

  lemma {:induction false} DecimalRoundTrip(n: nat)
    ensures DigitsValue(Decimal(n)) == n
  {
    if n >= 10 {
      var s := Decimal(n);
      assert s[..|s| - 1] == Decimal(n / 10);
      DecimalRoundTrip(n / 10);
    }
  }

  lemma {:induction false} LeadingZerosIgnored(k: nat, ds: string)
    requires AllDigits(ds)
    ensures DigitsValue(Zeros(k) + ds) == DigitsValue(ds)
  {
    var s := Zeros(k) + ds;
    if ds == [] {
      assert s == Zeros(k);
      if k > 0 {
        assert s[..|s| - 1] == Zeros(k - 1);
        LeadingZerosIgnored(k - 1, []);
        assert Zeros(k - 1) + [] == Zeros(k - 1);
      }
    } else {
      assert s[..|s| - 1] == Zeros(k) + ds[..|ds| - 1];
      LeadingZerosIgnored(k, ds[..|ds| - 1]);
    }
  }

  lemma {:induction false} LeadingDigitsOfDigits(s: string)
    requires AllDigits(s)
    ensures LeadingDigits(s) == s
  {
    if s != [] {
      LeadingDigitsOfDigits(s[1..]);
    }
  }

  lemma PaddedValue(m: nat, width: int)
    ensures AllDigits(ZeroPad(Decimal(m), width))
    ensures DigitsValue(ZeroPad(Decimal(m), width)) == m
  {
    DecimalRoundTrip(m);
    if |Decimal(m)| < width {
      LeadingZerosIgnored(width - |Decimal(m)|, Decimal(m));
    }
  }

  /** `atoi` of an unsigned digit string is its value. */
  lemma AtoiOfDigits(ds: string)
    requires ds != [] && AllDigits(ds)
    ensures Atoi(ds) == DigitsValue(ds)
  {
    assert IsDigit(ds[0]);
    assert !IsSpace(ds[0]) && ds[0] != '-' && ds[0] != '+';
    assert SkipSpace(ds) == ds;
    LeadingDigitsOfDigits(ds);
    assert Atoi(ds) == DigitsValue(LeadingDigits(ds));
  }

  /** `atoi` of a minus sign followed by digits is the negated value. */
  lemma AtoiOfNegative(ds: string)
    requires AllDigits(ds)
    ensures Atoi("-" + ds) == -(DigitsValue(ds) as int)
  {
    var f := "-" + ds;
    assert f[0] == '-' && !IsSpace(f[0]);
    assert SkipSpace(f) == f;
    assert f[1..] == ds;
    LeadingDigitsOfDigits(ds);
    assert Atoi(f) == -(DigitsValue(LeadingDigits(ds)) as int);
  }

  lemma AtoiFormatNegative(n: int)
    requires n < 0
    ensures Atoi(Format06(n)) == n
  {
    var m: nat := -n;
    var digits := ZeroPad(Decimal(m), 5);
    assert Format06(n) == "-" + digits;
    PaddedValue(m, 5);
    AtoiOfNegative(digits);
  }

  lemma AtoiFormatNonNegative(n: int)
    requires n >= 0
    ensures Atoi(Format06(n)) == n
  {
    var digits := ZeroPad(Decimal(n), 6);
    PaddedValue(n, 6);
    AtoiOfDigits(digits);
    assert Format06(n) == digits;
  }

  /** `atoi` reads back what `%06d` wrote, for every `int`. */
  lemma AtoiFormat06(n: int)
    ensures Atoi(Format06(n)) == n
  {
    if n < 0 {
      AtoiFormatNegative(n);
    } else {
      AtoiFormatNonNegative(n);
    }
  }

  /** Distinct integers are formatted differently by `%06d`. */
  lemma Format06Injective(n: int, m: int)
    requires Format06(n) == Format06(m)
    ensures n == m
  {
    AtoiFormat06(n);
    AtoiFormat06(m);
  }

  lemma {:induction false} DecimalLength(n: nat, k: nat)
    requires n < Pow10(k)
    ensures |Decimal(n)| <= if k == 0 then 1 else k
  {
    if n >= 10 {
      DecimalLength(n / 10, k - 1);
    }
  }

  function Pow10(k: nat): (p: nat)
    ensures p >= 1
  {
    if k == 0 then 1 else 10 * Pow10(k - 1)
  }

  /** Every index a run can use, 0 through 999999, is written as exactly six digits. */
  lemma Format06SixDigits(n: int)
    requires 0 <= n <= 999999
    ensures |Format06(n)| == 6 && AllDigits(Format06(n))
  {
    assert Pow10(6) == 1000000;
    DecimalLength(n, 6);
  }
}
