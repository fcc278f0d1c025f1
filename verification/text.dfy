/** The few C library text routines the calibration file needs: `isspace`, `printf("%d")`
    and `atol` (as glibc implements it: `strtol` in base 10, saturating on overflow).
 */
module Text {
  import opened Bytes
  import opened Options

  const LongMin := -0x8000_0000_0000_0000
  const LongMax := 0x7FFF_FFFF_FFFF_FFFF

  /** `isspace` in the "C" locale: space, \t, \n, \v, \f, \r. */
  predicate IsSpace(c: char)
  {
    c == ' ' || (9 <= c as int <= 13)
  }

  predicate IsDigit(c: char)
  {
    '0' <= c <= '9'
  }

  function DigitChar(d: nat): (c: char)
    requires d < 10
    ensures IsDigit(c) && c as int - '0' as int == d
  {
    ('0' as int + d) as char
  }

  function DigitValue(c: char): (d: nat)
    requires IsDigit(c)
    ensures d < 10 && DigitChar(d) == c
  {
    c as int - '0' as int
  }

  /** `printf("%d")` of a non-negative value: decimal digits, most significant first. */
  function NatToString(n: nat): (s: string)
    ensures |s| > 0
    ensures forall i :: 0 <= i < |s| ==> IsDigit(s[i])
    decreases n
  {
    if n < 10 then [DigitChar(n)] else NatToString(n / 10) + [DigitChar(n % 10)]
  }

  /** `printf("%d")` of any int: a minus sign for negative values. */
  function IntToString(i: int): (s: string)
    ensures |s| > 0
    ensures i >= 0 ==> s == NatToString(i)
    ensures i < 0 ==> s[0] == '-'
  {
    if i < 0 then "-" + NatToString(-i) else NatToString(i)
  }

  /** Value of a run of decimal digits, most significant first. */
  function DigitsValue(ds: string): (v: nat)
    requires forall i :: 0 <= i < |ds| ==> IsDigit(ds[i])
    decreases |ds|
  {
    if |ds| == 0 then 0 else DigitsValue(ds[..|ds| - 1]) * 10 + DigitValue(ds[|ds| - 1])
  }

  /** The longest prefix of `s` made of decimal digits. */
  function DigitPrefix(s: string): (p: string)
    ensures |p| <= |s| && p == s[..|p|]
    ensures forall i :: 0 <= i < |p| ==> IsDigit(p[i])
    ensures |p| < |s| ==> !IsDigit(s[|p|])
    decreases |s|
  {
    if |s| == 0 || !IsDigit(s[0]) then "" else [s[0]] + DigitPrefix(s[1..])
  }

  /** `s` without its leading white space. */
  function SkipSpaces(s: string): (t: string)
    ensures |t| <= |s| && t == s[|s| - |t|..]
    ensures |t| > 0 ==> !IsSpace(t[0])
    ensures forall i :: 0 <= i < |s| - |t| ==> IsSpace(s[i])
    decreases |s|
  {
    if |s| > 0 && IsSpace(s[0]) then SkipSpaces(s[1..]) else s
  }

  /** `s` without its trailing white space. */
  function TrimEnd(s: string): (t: string)
    ensures |t| <= |s| && t == s[..|t|]
    ensures |t| > 0 ==> !IsSpace(t[|t| - 1])
    ensures forall i :: |t| <= i < |s| ==> IsSpace(s[i])
    decreases |s|
  {
    if |s| > 0 && IsSpace(s[|s| - 1]) then TrimEnd(s[..|s| - 1]) else s
  }

  /** `strchr`: the position of the first `c` in `s`, if there is one. */
  function IndexOf(s: string, c: char): (r: Option<nat>)
    ensures r.None? <==> c !in s
    ensures r.Some? ==> r.value < |s| && s[r.value] == c
    ensures r.Some? ==> forall i :: 0 <= i < r.value ==> s[i] != c
    decreases |s|
  {
    if |s| == 0 then None
    else if s[0] == c then Some(0)
    else
      match IndexOf(s[1..], c)
      case None => None
      case Some(i) => Some(i + 1)
  }

  /** glibc `atol`: leading white space, an optional sign, then the longest run of digits;
      no digits gives 0 and a value beyond the range of `long` saturates. */
  function Atol(s: string): (v: int)
    ensures LongMin <= v <= LongMax
  {
    SignedDigits(SkipSpaces(s))
  }

  /** The part of `atol` after the white space. */
  function SignedDigits(t: string): (v: int)
    ensures LongMin <= v <= LongMax
  {
    var negative := |t| > 0 && t[0] == '-';
    var body := if |t| > 0 && (t[0] == '-' || t[0] == '+') then t[1..] else t;
    var magnitude: int := DigitsValue(DigitPrefix(body));
    var value := if negative then -magnitude else magnitude;
    if value < LongMin then LongMin else if value > LongMax then LongMax else value
  }

  // ---- round trip ------------------------------------------------------------------------

  lemma {:induction false} DigitsValueOfNatToString(n: nat)
    ensures DigitsValue(NatToString(n)) == n
    decreases n
  {
    var s := NatToString(n);
    if n >= 10 {
      var prefix := NatToString(n / 10);
      assert s == prefix + [DigitChar(n % 10)];
      assert s[..|s| - 1] == prefix;
      DigitsValueOfNatToString(n / 10);
    }
  }

  lemma {:induction false} DigitPrefixOfDigits(ds: string, rest: string)
    requires forall i :: 0 <= i < |ds| ==> IsDigit(ds[i])
    requires |rest| > 0 && !IsDigit(rest[0])
    ensures DigitPrefix(ds + rest) == ds
    decreases |ds|
  {
    if |ds| == 0 {
      assert ds + rest == rest;
    } else {
      assert (ds + rest)[1..] == ds[1..] + rest;
      DigitPrefixOfDigits(ds[1..], rest);
    }
  }

  lemma SkipOneSpace(t: string)
    requires |t| > 0 && IsDigit(t[0])
    ensures SkipSpaces(" " + t) == t
  {
    assert (" " + t)[1..] == t;
    assert !IsSpace(t[0]);
  }

  lemma SignedDigitsOfDigitLine(digits: string)
    requires |digits| > 0
    requires forall i :: 0 <= i < |digits| ==> IsDigit(digits[i])
    requires DigitsValue(digits) <= LongMax
    ensures SignedDigits(digits + "\n") == DigitsValue(digits)
  {
    var t := digits + "\n";
    assert t[0] == digits[0];
    DigitPrefixOfDigits(digits, "\n");
  }

  /** `atol` of a space, a run of digits and a newline is the value of the digits. */
  lemma AtolOfDigitLine(digits: string)
    requires |digits| > 0
    requires forall i :: 0 <= i < |digits| ==> IsDigit(digits[i])
    requires DigitsValue(digits) <= LongMax
    ensures Atol(" " + digits + "\n") == DigitsValue(digits)
  {
    var t := digits + "\n";
    var s := " " + digits + "\n";
    assert s == " " + t;
    assert t[0] == digits[0];
    SkipOneSpace(t);
    assert SkipSpaces(s) == t;
    assert Atol(s) == SignedDigits(t);
    SignedDigitsOfDigitLine(digits);
  }

  /** Reading back what `printf(" %d\n")` wrote gives the value again. */
  lemma AtolOfPrinted(n: nat)
    requires n <= LongMax
    ensures Atol(" " + NatToString(n) + "\n") == n
  {
    DigitsValueOfNatToString(n);
    AtolOfDigitLine(NatToString(n));
  }
}
