/**
 * Decimal rendering of integers as Python's "{:0<width>d}" format spec does it
 * (zero fill after the sign, up to a minimum total width), and the inverse
 * parsing of digit strings.
 */
module Format {

  predicate IsDigit(c: char) {
    '0' <= c <= '9'
  }

  predicate AllDigits(s: string) {
    forall i :: 0 <= i < |s| ==> IsDigit(s[i])
  }

  function DigitValue(c: char): nat
    requires IsDigit(c)
  {
    c as int - '0' as int
  }

  function DigitChar(d: nat): (c: char)
    requires d < 10
    ensures IsDigit(c) && DigitValue(c) == d
  {
    (d + '0' as int) as char
  }

  function Pow10(k: nat): nat {
    if k == 0 then 1 else 10 * Pow10(k - 1)
  }

  /** The decimal digits of n, most significant first, with no leading zero ("0" for zero). */
  function Digits(n: nat): (s: string)
    ensures 1 <= |s| && AllDigits(s)
    decreases n
  {
    if n < 10 then [DigitChar(n)] else Digits(n / 10) + [DigitChar(n % 10)]
  }

  /** The number a string of decimal digits denotes (leading zeros allowed). */
  function ParseDigits(s: string): nat
    requires AllDigits(s)
  {
    if s == [] then 0 else ParseDigits(s[..|s| - 1]) * 10 + DigitValue(s[|s| - 1])
  }

  function Zeros(k: nat): string {
    seq(k, _ => '0')
  }

  /** Left-fills s with '0' up to width characters; longer strings are kept whole. */
  function ZeroPad(s: string, width: nat): (r: string)
    ensures |r| == if |s| < width then width else |s|
  {
    if |s| < width then Zeros(width - |s|) + s else s
  }

  /**
   * "{:0<width>d}".format(n): a '-' sign for negative numbers, then the digits
   * zero-filled so that sign and digits together take at least width characters.
   */
  function FormatInt(n: int, width: nat): (r: string)
    ensures n >= 0 ==> AllDigits(r) && ParseDigits(r) == n
    ensures 0 <= n < Pow10(width) && 0 < width ==> |r| == width
    ensures n >= 0 ==> |r| == (if width < |Digits(n)| then |Digits(n)| else width)
    ensures n < 0 ==> |r| == (if width < |Digits(-n)| + 1 then |Digits(-n)| + 1 else width)
    ensures n < 0 ==> 2 <= |r| && r[0] == '-' && AllDigits(r[1..]) && ParseDigits(r[1..]) == -n
  {
    if n >= 0 then
      ParseDigitsOfDigits(n);
      ParseIgnoresLeadingZeros(width - |Digits(n)|, Digits(n));
      if 0 < width && n < Pow10(width) then DigitsLength(n, width); ZeroPad(Digits(n), width)
      else ZeroPad(Digits(n), width)
    else
      var body := ZeroPad(Digits(-n), if width > 0 then width - 1 else 0);
      ParseDigitsOfDigits(-n);
      ParseIgnoresLeadingZeros((if width > 0 then width - 1 else 0) - |Digits(-n)|, Digits(-n));
      assert ("-" + body)[1..] == body;
      "-" + body
  }

  lemma {:induction false} ParseDigitsOfDigits(n: nat)
    ensures ParseDigits(Digits(n)) == n
    decreases n
  {
    if n >= 10 {
      var s, c := Digits(n / 10), DigitChar(n % 10);
      assert (s + [c])[..|s|] == s;
      ParseDigitsOfDigits(n / 10);
    }
  }

  lemma {:induction false} ParseZeros(k: nat)
    ensures AllDigits(Zeros(k)) && ParseDigits(Zeros(k)) == 0
  {
    if k > 0 {
      assert Zeros(k)[..k - 1] == Zeros(k - 1);
      ParseZeros(k - 1);
    }
  }

  /** Leading zeros do not change the value of a digit string. */
  lemma {:induction false} ParseIgnoresLeadingZeros(k: int, s: string)
    requires AllDigits(s)
    ensures k >= 0 ==> AllDigits(Zeros(k) + s) && ParseDigits(Zeros(k) + s) == ParseDigits(s)
    decreases |s|
  {
    if k >= 0 {
      ParseZeros(k);
      if s == [] {
        assert Zeros(k) + s == Zeros(k);
      } else {
        var t := Zeros(k) + s;
        assert t[..|t| - 1] == Zeros(k) + s[..|s| - 1];
        ParseIgnoresLeadingZeros(k, s[..|s| - 1]);
      }
    }
  }

  /** A number below 10^k needs at most k digits. */
  lemma {:induction false} DigitsLength(n: nat, k: nat)
    requires 1 <= k && n < Pow10(k)
    ensures |Digits(n)| <= k
    decreases k
  {
    if n >= 10 {
      assert k >= 2;
      assert n / 10 < Pow10(k - 1);
      DigitsLength(n / 10, k - 1);
    }
  }
}
