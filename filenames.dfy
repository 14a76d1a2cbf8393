/** The names of the saved files, `RANDOM_{i:06d}.jpg`: the raw position i in
    decimal, zero-padded to at least six digits. */
module FileNames {

  predicate IsDigit(ch: char)
  {
    '0' <= ch <= '9'
  }

  predicate AllDigits(s: string)
  {
    forall k :: 0 <= k < |s| ==> IsDigit(s[k])
  }

  function DigitChar(d: nat): (ch: char)
    requires d < 10
    ensures IsDigit(ch)
  {
    ('0' as int + d) as char
  }

  function DigitValue(ch: char): (d: nat)
    requires IsDigit(ch)
    ensures d < 10 && DigitChar(d) == ch
  {
    ch as int - '0' as int
  }

  /** The decimal representation of n, without leading zeros ("0" for zero). */
  function Decimal(n: nat): (s: string)
    ensures 1 <= |s| && AllDigits(s)
  {
    if n < 10 then [DigitChar(n)] else Decimal(n / 10) + [DigitChar(n % 10)]
  }

  /** The value of a string of decimal digits; the reference reading that
      Decimal and ZeroPadded are checked against. */
  function Parse(s: string): nat
    requires AllDigits(s)
  {
    if s == [] then 0 else Parse(s[..|s| - 1]) * 10 + DigitValue(s[|s| - 1])
  }

  function Zeros(k: nat): (s: string)
    ensures |s| == k && AllDigits(s)
  {
    if k == 0 then [] else Zeros(k - 1) + ['0']
  }

  /** Python's `{n:0<width>d}` for a non-negative n: the decimal digits,
      preceded by zeros up to the given width. */
  function ZeroPadded(n: nat, width: nat): (s: string)
    ensures AllDigits(s)
    ensures |s| == if |Decimal(n)| < width then width else |Decimal(n)|
  {
    var digits := Decimal(n);
    if |digits| < width then Zeros(width - |digits|) + digits else digits
  }

  /** The file name written for the sample at raw position i. */
  function FileName(i: nat): string
  {
    "RANDOM_" + ZeroPadded(i, 6) + ".jpg"
  }

  /** Reading the last digit off. */
  lemma ParseSnoc(s: string, ch: char)
    requires AllDigits(s) && IsDigit(ch)
    ensures AllDigits(s + [ch]) && Parse(s + [ch]) == Parse(s) * 10 + DigitValue(ch)
  {
    assert (s + [ch])[..|s|] == s;
  }

  /** Decimal and Parse are inverse: the digits written for n read back as n. */
  lemma {:induction false} ParseDecimal(n: nat)
    ensures Parse(Decimal(n)) == n
  {
    if n >= 10 {
      ParseDecimal(n / 10);
      ParseSnoc(Decimal(n / 10), DigitChar(n % 10));
    }
  }

  /** A run of zeros reads as zero. */
  lemma {:induction false} ParseZeros(k: nat)
    ensures Parse(Zeros(k)) == 0
  {
    if k > 0 {
      ParseZeros(k - 1);
      ParseSnoc(Zeros(k - 1), '0');
    }
  }

  /** Leading zeros do not change the value read. */
  lemma {:induction false} ParseLeadingZeros(k: nat, s: string)
    requires AllDigits(s)
    ensures AllDigits(Zeros(k) + s) && Parse(Zeros(k) + s) == Parse(s)
  {
    if s == [] {
      assert Zeros(k) + s == Zeros(k);
      ParseZeros(k);
    } else {
      var init, last := s[..|s| - 1], s[|s| - 1];
      ParseLeadingZeros(k, init);
      assert s == init + [last];
      assert Zeros(k) + s == (Zeros(k) + init) + [last];
      ParseSnoc(Zeros(k) + init, last);
      ParseSnoc(init, last);
    }
  }

  /** The zero-padded number reads back as the number, whatever the width. */
  lemma ParseZeroPadded(n: nat, width: nat)
    ensures Parse(ZeroPadded(n, width)) == n
  {
    ParseDecimal(n);
    var digits := Decimal(n);
    if |digits| < width {
      ParseLeadingZeros(width - |digits|, digits);
    }
  }

  function Pow10(k: nat): (p: nat)
    ensures p >= 1
  {
    if k == 0 then 1 else 10 * Pow10(k - 1)
  }

  /** A number below 10^k has at most k digits. */
  lemma {:induction false} DecimalLength(n: nat, k: nat)
    requires 1 <= k && n < Pow10(k)
    ensures |Decimal(n)| <= k
  {
    if n >= 10 {
      DecimalLength(n / 10, k - 1);
    }
  }

  /** Below a million every name has exactly six digits between "RANDOM_" and ".jpg". */
  lemma SixDigitNames(i: nat)
    requires i < 1000000
    ensures |ZeroPadded(i, 6)| == 6
    ensures |FileName(i)| == 17
  {
    DecimalLength(i, 6);
  }

  /** The number between the prefix and the extension of a name. */
  lemma FileNameMiddle(i: nat)
    ensures |FileName(i)| >= 11
    ensures FileName(i)[7..|FileName(i)| - 4] == ZeroPadded(i, 6)
  {
  }

  /** Distinct positions give distinct file names, so no save overwrites another. */
  lemma FileNameInjective(i: nat, j: nat)
    requires FileName(i) == FileName(j)
    ensures i == j
  {
    FileNameMiddle(i);
    FileNameMiddle(j);
    ParseZeroPadded(i, 6);
    ParseZeroPadded(j, 6);
  }

  /** A single-digit position gets five leading zeros, e.g. RANDOM_000009.jpg. */
  lemma SingleDigitName(i: nat)
    requires i < 10
    ensures FileName(i) == "RANDOM_00000" + [DigitChar(i)] + ".jpg"
  {
    var d := DigitChar(i);
    assert Decimal(i) == [d];
    assert Zeros(1) == "0";
    assert Zeros(2) == "00";
    assert Zeros(3) == "000";
    assert Zeros(4) == "0000";
    assert Zeros(5) == "00000";
    assert ZeroPadded(i, 6) == "00000" + [d];
    assert "RANDOM_" + ("00000" + [d]) == "RANDOM_00000" + [d];
  }
}
