/** `getSizeString`: a byte count shown as whole kilobytes, `size / 1024` in Java's
    `long` arithmetic (which truncates toward zero) followed by " KB", the number
    written the way Java's `"" + long` writes it. */
module SizeString {

  import opened FileTree

  const Suffix := " KB"

  predicate IsDigit(c: char)
  {
    '0' <= c <= '9'
  }

  predicate AllDigits(s: string)
  {
    forall i :: 0 <= i < |s| ==> IsDigit(s[i])
  }

  function DigitChar(d: nat): (c: char)
    requires d < 10
    ensures IsDigit(c) && DigitValue(c) == d
  {
    (('0' as int) + d) as char
  }

  function DigitValue(c: char): nat
    requires IsDigit(c)
  {
    (c as int) - ('0' as int)
  }

  /** The decimal numeral of `n`: digits only, at least one, and no leading zero. */
  function Decimal(n: nat): (s: string)
    ensures |s| >= 1 && AllDigits(s)
    ensures s[0] == '0' <==> n == 0
    ensures n == 0 ==> s == "0"
  {
    if n < 10 then [DigitChar(n)] else Decimal(n / 10) + [DigitChar(n % 10)]
  }

  /** Reads a numeral back; the inverse of `Decimal`. */
  function ParseDecimal(s: string): nat
    requires AllDigits(s)
  {
    if s == [] then 0 else ParseDecimal(s[..|s| - 1]) * 10 + DigitValue(s[|s| - 1])
  }

  /** `Long.toString`: a minus sign before the numeral of the magnitude when negative. */
  function LongToString(x: int): (s: string)
    ensures |s| >= 1
    ensures s[0] == '-' <==> x < 0
  {
    if x < 0 then "-" + Decimal(-x) else Decimal(x)
  }

  /** `size / 1024` on a Java `long`: the quotient truncated toward zero, so the
      kilobytes shown never overstate the size and keep its sign. */
  function KbSize(size: Long): (k: Long)
    ensures 0 <= size ==> 0 <= k * 1024 <= size
    ensures size < 0 ==> size <= k * 1024 <= 0
  {
    if size >= 0 then size / 1024 else -((-(size as int)) / 1024)
  }

  /** `getSizeString`: ends in " KB", and carries a minus sign only for a size of
      at least one whole kilobyte below zero. */
  function GetSizeString(size: Long): (s: string)
  {
    LongToString(KbSize(size)) + Suffix
  }

  /** Reads back what `LongToString` writes: an optional minus sign and a numeral. */
  function ParseLong(s: string): Option<int>
  {
    if |s| > 1 && s[0] == '-' && AllDigits(s[1..]) then Some(-(ParseDecimal(s[1..]) as int))
    else if |s| > 0 && AllDigits(s) then Some(ParseDecimal(s))
    else None
  }

  /** Reads a size string back to its kilobyte count; `None` when it is not of the
      form `GetSizeString` produces. */
  function ParseSizeString(s: string): Option<int>
  {
    if |s| <= |Suffix| || s[|s| - |Suffix|..] != Suffix then None
    else ParseLong(s[..|s| - |Suffix|])
  }

  lemma {:induction false} ParseDecimalOfDecimal(n: nat)
    ensures ParseDecimal(Decimal(n)) == n
  {
    if n >= 10 {
      var s := Decimal(n);
      assert s[..|s| - 1] == Decimal(n / 10);
      ParseDecimalOfDecimal(n / 10);
    }
  }

  /** Distinct counts never share a numeral. */
  lemma DecimalInjective(m: nat, n: nat)
    requires Decimal(m) == Decimal(n)
    ensures m == n
  {
    ParseDecimalOfDecimal(m);
    ParseDecimalOfDecimal(n);
  }

  lemma ParseLongOfLongToString(x: int)
    ensures ParseLong(LongToString(x)) == Some(x)
  {
    var s := LongToString(x);
    if x < 0 {
      assert s[1..] == Decimal(-x);
      ParseDecimalOfDecimal(-x);
    } else {
      assert s == Decimal(x);
      ParseDecimalOfDecimal(x);
    }
  }

  lemma StripSuffix(num: string)
    requires |num| > 0
    ensures var s := num + Suffix;
      |s| > |Suffix| && s[|s| - |Suffix|..] == Suffix && s[..|s| - |Suffix|] == num
  {
    var s := num + Suffix;
    assert s[|num|..] == Suffix;
    assert s[..|num|] == num;
  }

  /** The size string always reads back as the kilobyte count it was made from. */
  lemma SizeStringRoundTrip(size: Long)
    ensures ParseSizeString(GetSizeString(size)) == Some(KbSize(size))
  {
    assert |LongToString(KbSize(size))| > 0;
    StripSuffix(LongToString(KbSize(size)));
    ParseLongOfLongToString(KbSize(size));
  }

  /** Every size string ends in " KB", and it starts with a minus sign only for a
      size of at least one whole kilobyte below zero. */
  lemma SizeStringShape(size: Long)
    ensures var s := GetSizeString(size);
      |s| > |Suffix| && s[|s| - |Suffix|..] == Suffix && (s[0] == '-' <==> size <= -1024)
  {
    StripSuffix(LongToString(KbSize(size)));
  }

  /** Two sizes read alike exactly when they fall in the same kilobyte. */
  lemma SizeStringsEqualIff(a: Long, b: Long)
    ensures GetSizeString(a) == GetSizeString(b) <==> KbSize(a) == KbSize(b)
  {
    SizeStringRoundTrip(a);
    SizeStringRoundTrip(b);
  }

  /** For a non-negative size (every `File.length()`) the truncation is the floor. */
  lemma SizeStringOfNonNegative(size: Long)
    requires 0 <= size
    ensures GetSizeString(size) == Decimal(size / 1024) + " KB"
  {
  }

  /** `size / 1024` truncates toward zero: for a non-negative size it is the floor of
      the quotient, for a negative one the ceiling. */
  lemma KbSizeTruncates(size: Long)
    ensures 0 <= size ==> 0 <= KbSize(size) && KbSize(size) * 1024 <= size < KbSize(size) * 1024 + 1024
    ensures size < 0 ==> KbSize(size) <= 0 && KbSize(size) * 1024 - 1024 < size <= KbSize(size) * 1024
  {
  }

  /** The number shown grows with the size. */
  lemma KbSizeMonotone(a: Long, b: Long)
    requires a <= b
    ensures KbSize(a) <= KbSize(b)
  {
  }

  /** Anything under one kilobyte shows as zero, on either side of zero. */
  lemma SizeStringBelowOneKb(size: Long)
    requires -1024 < size < 1024
    ensures GetSizeString(size) == "0 KB"
  {
  }

  /** The worked example of the source's documentation comment. */
  lemma SizeStringExample()
    ensures GetSizeString(123456) == "120 KB"
    ensures GetSizeString(1023) == "0 KB"
  {
    assert KbSize(123456) == 120;
    assert Decimal(120) == Decimal(12) + ['0'];
  }
}
