/**
 * The `dd/mm/yyyy` text that `strftime('%d/%m/%Y')` writes for a date, and
 * its reading back, which shows the text names exactly that date.
 */
module DateText {
  import opened Wrappers
  import opened Calendar

  function DigitChar(k: int): char
    requires 0 <= k <= 9
  {
    (48 + k) as char
  }

  predicate IsDigit(c: char)
  {
    '0' <= c <= '9'
  }

  function DigitValue(c: char): int
  {
    c as int - 48
  }

  /** Two decimal digits, zero-padded. */
  function Pad2(k: int): string
    requires 0 <= k <= 99
  {
    [DigitChar(k / 10), DigitChar(k % 10)]
  }

  /** Four decimal digits, zero-padded. */
  function Pad4(k: int): string
    requires 0 <= k <= 9999
  {
    Pad2(k / 100) + Pad2(k % 100)
  }

  /** Day, month and year, zero-padded and separated by slashes. */
  function FormatDate(d: Date): (s: string)
    requires ValidDate(d) && 0 <= d.year <= 9999
    ensures |s| == 10 && s[2] == '/' && s[5] == '/'
    ensures forall i :: 0 <= i < 10 && i != 2 && i != 5 ==> IsDigit(s[i])
  {
    Pad2(d.day) + "/" + Pad2(d.month) + "/" + Pad4(d.year)
  }

  /** The value of the decimal digits s[lo..hi]. */
  function Number(s: string, lo: int, hi: int): int
    requires 0 <= lo <= hi <= |s|
    decreases hi - lo
  {
    if lo == hi then 0 else 10 * Number(s, lo, hi - 1) + DigitValue(s[hi - 1])
  }

  /** Reads `dd/mm/yyyy`; anything else, or a day that does not exist, is None. */
  function ParseDate(s: string): (r: Option<Date>)
    ensures r.Some? ==> ValidDate(r.value) && 0 <= r.value.year <= 9999
  {
    if |s| == 10 && s[2] == '/' && s[5] == '/'
       && forall i :: 0 <= i < 10 && i != 2 && i != 5 ==> IsDigit(s[i])
    then
      var d := Date(Number(s, 6, 10), Number(s, 3, 5), Number(s, 0, 2));
      if ValidDate(d) then Some(d) else None
    else None
  }

  lemma NumberOfTwo(s: string, lo: int)
    requires 0 <= lo && lo + 2 <= |s|
    ensures Number(s, lo, lo + 2) == 10 * DigitValue(s[lo]) + DigitValue(s[lo + 1])
  {
    assert Number(s, lo, lo + 1) == DigitValue(s[lo]);
  }

  lemma NumberOfFour(s: string, lo: int)
    requires 0 <= lo && lo + 4 <= |s|
    ensures Number(s, lo, lo + 4) == 1000 * DigitValue(s[lo]) + 100 * DigitValue(s[lo + 1])
                                     + 10 * DigitValue(s[lo + 2]) + DigitValue(s[lo + 3])
  {
    NumberOfTwo(s, lo);
    assert Number(s, lo, lo + 3) == 10 * Number(s, lo, lo + 2) + DigitValue(s[lo + 2]);
  }

  /** Two digits written by `Pad2` read back as the number. */
  lemma Pad2Reads(k: int)
    requires 0 <= k <= 99
    ensures 10 * DigitValue(Pad2(k)[0]) + DigitValue(Pad2(k)[1]) == k
  {
  }

  /** Two digit characters are what `Pad2` writes for the number they denote. */
  lemma Pad2Writes(c0: char, c1: char)
    requires IsDigit(c0) && IsDigit(c1)
    ensures Pad2(10 * DigitValue(c0) + DigitValue(c1)) == [c0, c1]
  {
  }

  /** Reading the text back gives the date that was written. */
  lemma ParseFormat(d: Date)
    requires ValidDate(d) && 0 <= d.year <= 9999
    ensures ParseDate(FormatDate(d)) == Some(d)
  {
    var s := FormatDate(d);
    NumberOfTwo(s, 0);
    NumberOfTwo(s, 3);
    NumberOfFour(s, 6);
    Pad2Reads(d.day);
    Pad2Reads(d.month);
    Pad2Reads(d.year / 100);
    Pad2Reads(d.year % 100);
    assert s[..2] == Pad2(d.day);
    assert s[3..5] == Pad2(d.month);
    assert s[6..8] == Pad2(d.year / 100) && s[8..] == Pad2(d.year % 100);
  }

  /** Only the text `FormatDate` writes for a date reads back as that date. */
  lemma FormatParse(s: string)
    requires ParseDate(s).Some?
    ensures 0 <= ParseDate(s).value.year <= 9999
    ensures FormatDate(ParseDate(s).value) == s
  {
    NumberOfTwo(s, 0);
    NumberOfTwo(s, 3);
    NumberOfFour(s, 6);
    var d := ParseDate(s).value;
    Pad2Writes(s[0], s[1]);
    Pad2Writes(s[3], s[4]);
    Pad2Writes(s[6], s[7]);
    Pad2Writes(s[8], s[9]);
    var hi := 10 * DigitValue(s[6]) + DigitValue(s[7]);
    var lo := 10 * DigitValue(s[8]) + DigitValue(s[9]);
    assert d.year == 100 * hi + lo;
    assert d.year / 100 == hi && d.year % 100 == lo;
    assert s == s[..2] + "/" + s[3..5] + "/" + s[6..8] + s[8..];
  }
}
