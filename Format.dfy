/**
  The number rendering used in tree headings: C# string interpolation of an
  `int` (decimal, with a leading `-` when negative) and of a pointer with the
  `X` format (upper-case hexadecimal, no leading zeros).
*/
module Format {
  import Casts

  /** The character for digit `d`: `0`-`9`, then `A`-`F`. */
  function Digit(d: nat): (c: char)
    requires d < 16
    ensures DigitValue(c) == d
  {
    if d < 10 then ('0' as int + d) as char else ('A' as int + d - 10) as char
  }

  /** The value of a digit character, or -1 for any other character. */
  function DigitValue(c: char): int {
    if '0' <= c <= '9' then c as int - '0' as int
    else if 'A' <= c <= 'F' then c as int - 'A' as int + 10
    else -1
  }

  /** Every character of `s` is a digit of the given base. */
  predicate IsNumeral(s: string, base: nat) {
    forall i | 0 <= i < |s| :: 0 <= DigitValue(s[i]) < base
  }

  /** `n` written in `base`, most significant digit first, without leading zeros. */
  function Render(n: nat, base: nat): (s: string)
    requires 2 <= base <= 16
    ensures |s| > 0 && IsNumeral(s, base)
    ensures n > 0 ==> DigitValue(s[0]) != 0
    decreases n
  {
    if n < base then [Digit(n)]
    else
      Split(n, base);
      Render(n / base, base) + [Digit(n % base)]
  }

  /** The value of a numeral: the reading direction `Render` writes in. */
  function Parse(s: string, base: nat): nat
    requires 2 <= base <= 16 && IsNumeral(s, base)
  {
    if s == [] then 0 else Parse(s[..|s| - 1], base) * base + DigitValue(s[|s| - 1])
  }

  /** Rendering a number and reading it back gives the number. */
  lemma {:induction false} ParseRender(n: nat, base: nat)
    requires 2 <= base <= 16
    ensures Parse(Render(n, base), base) == n
    decreases n
  {
    var s := Render(n, base);
    if n >= base {
      var q, r := n / base, n % base;
      Split(n, base);
      ParseRender(q, base);
      assert s[..|s| - 1] == Render(q, base);
      assert Parse(s, base) == q * base + r;
    }
  }

  /** Division by the base takes a numeral's last digit off. */
  lemma Split(n: nat, base: nat)
    requires 2 <= base <= n
    ensures 1 <= n / base < n && n == n / base * base + n % base
  {
    var q, r := n / base, n % base;
    assert n == q * base + r && 0 <= r < base;
    assert q * base > 0;
    assert q >= 1;
    assert q * base >= q * 2;
  }

  /** Division by a positive number keeps the order of non-negative numbers. */
  lemma DivMono(i: nat, n: nat, base: nat)
    requires i <= n && base > 0
    ensures i / base <= n / base
  {
    var qi, qn := i / base, n / base;
    if qi > qn {
      Casts.MulAtLeast(qi - qn, base);
      assert false;
    }
  }

  /** A smaller number never takes more digits. */
  lemma {:induction false} RenderLengthMono(i: nat, n: nat, base: nat)
    requires 2 <= base <= 16 && i <= n
    ensures |Render(i, base)| <= |Render(n, base)|
    decreases n
  {
    if n >= base && i >= base {
      Split(n, base);
      Split(i, base);
      DivMono(i, n, base);
      RenderLengthMono(i / base, n / base, base);
    }
  }

  /** `k` zero digits. */
  function Zeros(k: nat): (s: string)
    ensures |s| == k
  {
    seq(k, _ => '0')
  }

  /** Zeros alone read as 0. */
  lemma {:induction false} ParseZerosOnly(k: nat, base: nat)
    requires 2 <= base <= 16
    ensures IsNumeral(Zeros(k), base) && Parse(Zeros(k), base) == 0
  {
    if k > 0 {
      assert Zeros(k)[..k - 1] == Zeros(k - 1);
      ParseZerosOnly(k - 1, base);
    }
  }

  /** Leading zeros do not change the value of a numeral. */
  lemma {:induction false} ParseLeadingZeros(k: nat, s: string, base: nat)
    requires 2 <= base <= 16 && IsNumeral(s, base)
    ensures IsNumeral(Zeros(k) + s, base) && Parse(Zeros(k) + s, base) == Parse(s, base)
    decreases |s|
  {
    ParseZerosOnly(k, base);
    var t := Zeros(k) + s;
    if s == [] {
      assert t == Zeros(k);
    } else {
      assert t[..|t| - 1] == Zeros(k) + s[..|s| - 1];
      ParseLeadingZeros(k, s[..|s| - 1], base);
    }
  }

  /** `s.PadLeft(width, '0')`: zeros in front of `s` up to `width` characters. */
  function PadZeros(s: string, width: nat): (r: string)
    ensures |r| == if |s| < width then width else |s|
    ensures r[|r| - |s|..] == s
  {
    if |s| < width then Zeros(width - |s|) + s else s
  }

  /** `{v}` for an `int`. */
  function IntText(v: int): (s: string)
    ensures |s| > 0
    ensures v >= 0 ==> IsNumeral(s, 10) && Parse(s, 10) == v
  {
    if v < 0 then "-" + Render(-v, 10)
    else
      ParseRender(v, 10);
      Render(v, 10)
  }

  /** `{p:X}` for a pointer. */
  function Hex(p: nat): (s: string)
    ensures |s| > 0 && IsNumeral(s, 16) && Parse(s, 16) == p
  {
    ParseRender(p, 16);
    Render(p, 16)
  }

  /** The child-count suffix of a heading: ` [+n]` when n > 0, otherwise nothing. */
  function CountSuffix(count: int): string {
    if count > 0 then " [+" + IntText(count) + "]" else ""
  }

  /** Reads the count back out of a suffix; 0 for anything that is not a suffix. */
  function SuffixCount(s: string): nat {
    if |s| >= 4 && s[..3] == " [+" && s[|s| - 1] == ']' && IsNumeral(s[3..|s| - 1], 10)
    then Parse(s[3..|s| - 1], 10)
    else 0
  }

  /**
    A suffix placed between a fixed head and tail can be sliced back out, is
    non-empty exactly when the count is positive, and reads back as the count.
  */
  lemma SuffixBetween(head: string, count: int, tail: string)
    ensures var s := head + CountSuffix(count) + tail;
      && |head| + |tail| <= |s|
      && s[..|head|] == head
      && s[|s| - |tail|..] == tail
      && (|s| > |head| + |tail| <==> count > 0)
      && SuffixCount(s[|head|..|s| - |tail|]) == if count > 0 then count else 0
  {
    var mid := CountSuffix(count);
    var s := head + mid + tail;
    assert s[..|head|] == head;
    assert s[|s| - |tail|..] == tail;
    assert s[|head|..|s| - |tail|] == mid;
    SuffixCarriesCount(count);
  }

  /**
    The suffix is present exactly when the count is positive, and it carries
    the count itself.
  */
  lemma SuffixCarriesCount(count: int)
    ensures CountSuffix(count) != "" <==> count > 0
    ensures SuffixCount(CountSuffix(count)) == if count > 0 then count else 0
  {
    if count > 0 {
      var s := CountSuffix(count);
      var t := IntText(count);
      assert s[..3] == " [+";
      assert s[3..|s| - 1] == t;
    }
  }
}
