/** English ordinals for the component prompts: "1st", "2nd", "3rd", "4th",
    "11th", "21st", ... built from the decimal form of the number and a
    stride-4 slice of the string "tsnrhtdd". */
module Ordinal {

  function DigitChar(d: nat): (c: char)
    requires d < 10
    ensures '0' <= c <= '9' && c as int - '0' as int == d
  {
    "0123456789"[d]
  }

  /** The decimal digits of a natural number, without leading zeros. */
  function NatDigits(n: nat): (s: string)
    ensures |s| >= 1
    ensures forall i :: 0 <= i < |s| ==> '0' <= s[i] <= '9'
    ensures s[0] == '0' ==> n == 0
    ensures |s| > 1 ==> s[0] != '0'
  {
    if n < 10 then [DigitChar(n)] else NatDigits(n / 10) + [DigitChar(n % 10)]
  }

  /** Python's `%d`: a minus sign for negative numbers, then the digits
      without leading zeros; it reads back as the number it printed. */
  function FormatInt(n: int): (s: string)
    ensures |s| >= 1 && (s[0] == '-' <==> n < 0)
    ensures s[0] == '-' || '0' <= s[0] <= '9'
    ensures forall i :: 1 <= i < |s| ==> '0' <= s[i] <= '9'
    ensures s[0] != '-' && |s| > 1 ==> s[0] != '0'
    ensures s[0] == '-' ==> |s| >= 2 && s[1] != '0'
    ensures ParseInt(s) == n
  {
    if n < 0 then
      NegativeRoundTrip(-n);
      "-" + NatDigits(-n)
    else
      NatDigitsRoundTrip(n);
      NatDigits(n)
  }

  /** Python's stride-4 slice from `start`: the characters at start,
      start + 4, start + 8, ... */
  function EveryFourth(s: string, start: nat): (r: string)
    ensures |r| == if start < |s| then (|s| - start + 3) / 4 else 0
    decreases |s| - start
  {
    if start >= |s| then "" else [s[start]] + EveryFourth(s, start + 4)
  }

  /** Where the slice starts: the test "tens digit is not 1" times the test
      "last digit is below 4" (each 0 or 1) times n, all modulo 10, since
      Python's `*` and `%` group from the left. Python's floor division and
      modulo agree with Dafny's `/` and `%` for the divisor 10. */
  function SuffixIndex(n: int): (k: nat)
  {
    var notTeen := if n / 10 % 10 != 1 then 1 else 0;
    var lowDigit := if n % 10 < 4 then 1 else 0;
    notTeen * lowDigit * n % 10
  }

  /** ordinal: the number in decimal followed by its two-letter suffix, which
      is the one the English rule gives. */
  function Ordinal(n: int): (s: string)
    ensures s == FormatInt(n) + Suffix(n)
  {
    SliceTrickIsSuffixRule(n);
    FormatInt(n) + EveryFourth("tsnrhtdd", SuffixIndex(n))
  }

  /** The suffix rule stated directly: "st", "nd" or "rd" when the last digit
      is 1, 2 or 3 and the tens digit is not 1; "th" otherwise. */
  function Suffix(n: int): string
  {
    var last := n % 10;
    var tens := n / 10 % 10;
    if tens != 1 && last == 1 then "st"
    else if tens != 1 && last == 2 then "nd"
    else if tens != 1 && last == 3 then "rd"
    else "th"
  }

  /** The slice trick computes exactly the suffix rule. */
  lemma SliceTrickIsSuffixRule(n: int)
    ensures EveryFourth("tsnrhtdd", SuffixIndex(n)) == Suffix(n)
  {
    var s := "tsnrhtdd";
    var k := SuffixIndex(n);
    if n / 10 % 10 != 1 && n % 10 < 4 {
      assert k == n % 10;
    } else {
      assert k == 0;
    }
    assert k < 4;
    assert EveryFourth(s, k + 8) == "";
    assert EveryFourth(s, k) == [s[k], s[k + 4]];
  }

  // ---------------------------------------------------------------------
  // Reading the number back.

  function DigitValue(c: char): nat
    requires '0' <= c <= '9'
  {
    c as int - '0' as int
  }

  function ParseNat(s: string): nat
    requires forall i :: 0 <= i < |s| ==> '0' <= s[i] <= '9'
  {
    if s == [] then 0 else ParseNat(s[..|s| - 1]) * 10 + DigitValue(s[|s| - 1])
  }

  function ParseInt(s: string): int
    requires |s| >= 1
    requires s[0] == '-' || '0' <= s[0] <= '9'
    requires forall i :: 1 <= i < |s| ==> '0' <= s[i] <= '9'
  {
    if s[0] == '-' then 0 - ParseNat(s[1..]) else ParseNat(s)
  }

  lemma {:induction false} NatDigitsRoundTrip(n: nat)
    ensures ParseNat(NatDigits(n)) == n
  {
    if n >= 10 {
      var s := NatDigits(n);
      NatDigitsRoundTrip(n / 10);
      assert s[..|s| - 1] == NatDigits(n / 10);
    }
  }

  /** A minus sign followed by the digits of m reads back as -m. */
  lemma NegativeRoundTrip(m: nat)
    ensures var s := "-" + NatDigits(m); ParseInt(s) == 0 - m
  {
    var digits := NatDigits(m);
    NatDigitsRoundTrip(m);
    assert ("-" + digits)[1..] == digits;
  }

  /** `ordinal(n)` is two characters longer than the decimal form of n, and
      dropping those two characters reads back as n. */
  lemma OrdinalSpec(n: int)
    ensures var s := Ordinal(n);
      && |s| == |FormatInt(n)| + 2
      && ParseInt(s[..|s| - 2]) == n
  {
    var s := Ordinal(n);
    assert |Suffix(n)| == 2;
    assert s[..|s| - 2] == FormatInt(n);
  }
}
