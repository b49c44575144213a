/**
 * The `YYYY-MM-DD` text of a calendar day: what `toISOString()` followed by
 * `split("T")[0]` produces for a day at midnight UTC, and the date-only form
 * that `new Date(...)` accepts. The booked list and the selected date are
 * strings of this form, compared with `includes`; the lemmas here show that
 * comparing these strings is the same as comparing the days they name,
 * which is why the search itself works on days.
 */
module IsoDates {
  import opened Wrappers
  import opened CivilDates

  /** Years that ISO 8601 writes with exactly four digits. */
  predicate FourDigitYear(d: Date) {
    0 <= d.year <= 9999
  }

  predicate IsDigit(c: char) {
    '0' <= c <= '9'
  }

  predicate AllDigits(s: string) {
    forall i :: 0 <= i < |s| ==> IsDigit(s[i])
  }

  function DigitChar(k: int): char
    requires 0 <= k <= 9
  {
    (k + '0' as int) as char
  }

  function DigitValue(c: char): int {
    c as int - '0' as int
  }

  /** Zero-padded two-digit decimal text. */
  function TwoDigits(n: int): (s: string)
    requires 0 <= n <= 99
    ensures |s| == 2 && AllDigits(s)
  {
    [DigitChar(n / 10), DigitChar(n % 10)]
  }

  /** Zero-padded four-digit decimal text. */
  function FourDigits(n: int): (s: string)
    requires 0 <= n <= 9999
    ensures |s| == 4 && AllDigits(s)
  {
    TwoDigits(n / 100) + TwoDigits(n % 100)
  }

  function Value2(s: string): int
    requires |s| == 2
  {
    DigitValue(s[0]) * 10 + DigitValue(s[1])
  }

  function Value4(s: string): int
    requires |s| == 4
  {
    Value2(s[..2]) * 100 + Value2(s[2..])
  }

  lemma TwoDigitsRoundTrip(n: int)
    requires 0 <= n <= 99
    ensures Value2(TwoDigits(n)) == n
  {
  }

  lemma Value2RoundTrip(s: string)
    requires |s| == 2 && AllDigits(s)
    ensures 0 <= Value2(s) <= 99 && TwoDigits(Value2(s)) == s
  {
  }

  lemma FourDigitsRoundTrip(n: int)
    requires 0 <= n <= 9999
    ensures Value4(FourDigits(n)) == n
  {
  }

  lemma Value4RoundTrip(s: string)
    requires |s| == 4 && AllDigits(s)
    ensures 0 <= Value4(s) <= 9999 && FourDigits(Value4(s)) == s
  {
    var hi, lo := s[..2], s[2..];
    assert AllDigits(hi) && AllDigits(lo) by {
      forall i | 0 <= i < 2 ensures IsDigit(hi[i]) && IsDigit(lo[i]) {
        assert hi[i] == s[i] && lo[i] == s[i + 2];
      }
    }
    Value2RoundTrip(hi);
    Value2RoundTrip(lo);
    var n := Value4(s);
    assert n / 100 == Value2(hi) && n % 100 == Value2(lo);
    assert s == hi + lo;
  }

  /**
   * The `YYYY-MM-DD` text of a day: the year, the month and the day of the
   * month in zero-padded decimal, separated by `-`.
   */
  function Format(d: CivilDate): (s: string)
    requires FourDigitYear(d)
    ensures |s| == 10 && s[4] == '-' && s[7] == '-'
    ensures AllDigits(s[..4]) && AllDigits(s[5..7]) && AllDigits(s[8..])
    ensures Value4(s[..4]) == d.year && Value2(s[5..7]) == d.month && Value2(s[8..]) == d.day
  {
    var s := FourDigits(d.year) + "-" + TwoDigits(d.month) + "-" + TwoDigits(d.day);
    assert s[..4] == FourDigits(d.year) && s[5..7] == TwoDigits(d.month) && s[8..] == TwoDigits(d.day);
    FourDigitsRoundTrip(d.year);
    TwoDigitsRoundTrip(d.month);
    TwoDigitsRoundTrip(d.day);
    s
  }

  /**
   * Reads `YYYY-MM-DD` text. It accepts exactly the texts that `Format`
   * writes: whatever it returns formats back to the text it was given.
   */
  function Parse(s: string): (r: Option<CivilDate>)
    ensures r.Some? ==> FourDigitYear(r.value) && Format(r.value) == s
  {
    if |s| == 10 && s[4] == '-' && s[7] == '-' &&
       AllDigits(s[..4]) && AllDigits(s[5..7]) && AllDigits(s[8..])
    then
      var d := Date(Value4(s[..4]), Value2(s[5..7]), Value2(s[8..]));
      if Valid(d) then
        Value4RoundTrip(s[..4]);
        Value2RoundTrip(s[5..7]);
        Value2RoundTrip(s[8..]);
        assert s == s[..4] + "-" + s[5..7] + "-" + s[8..];
        Some(d)
      else None
    else None
  }

  /** Formatting a day and reading the text back gives the same day. */
  lemma ParseFormat(d: CivilDate)
    requires FourDigitYear(d)
    ensures Parse(Format(d)) == Some(d)
  {
  }

  /** Two days have the same text only if they are the same day. */
  lemma FormatInjective(a: CivilDate, b: CivilDate)
    requires FourDigitYear(a) && FourDigitYear(b)
    ensures Format(a) == Format(b) <==> a == b
  {
    ParseFormat(a);
    ParseFormat(b);
  }

  /** The texts of a list of days, in order. */
  function FormatAll(ds: seq<CivilDate>): (ss: seq<string>)
    requires forall i :: 0 <= i < |ds| ==> FourDigitYear(ds[i])
    ensures |ss| == |ds|
    ensures forall i :: 0 <= i < |ds| ==> ss[i] == Format(ds[i])
  {
    if ds == [] then [] else [Format(ds[0])] + FormatAll(ds[1..])
  }

  /**
   * `includes` on the texts agrees with membership of the days: a day's text
   * is in the list of texts exactly when the day is in the list of days.
   */
  lemma {:induction false} IncludesAgrees(ds: seq<CivilDate>, d: CivilDate)
    requires forall i :: 0 <= i < |ds| ==> FourDigitYear(ds[i])
    requires FourDigitYear(d)
    ensures Format(d) in FormatAll(ds) <==> d in ds
  {
    if ds != [] {
      FormatInjective(d, ds[0]);
      IncludesAgrees(ds[1..], d);
      assert FormatAll(ds) == [Format(ds[0])] + FormatAll(ds[1..]);
      assert ds == [ds[0]] + ds[1..];
    }
  }
}
