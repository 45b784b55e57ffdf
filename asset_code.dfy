/**
 * Asset-code allocation in `createAsset`: the `YYMMDD` date key, the per-date
 * counter upsert and the `A<YYMMDD><NNNNN>` code built from them.
 */
module AssetCode {
  import opened Text
  import opened Records

  /** Width the counter is zero-padded to. Padding never truncates a longer count. */
  const SEQUENCE_WIDTH: nat := 5

  // ---------------------------------------------------------------------------
  // The date key

  /** `getFullYear().toString().slice(2)`: the year's text minus its first two characters. */
  function YearPart(year: nat): string {
    var s := Dec(year);
    if |s| <= 2 then "" else s[2..]
  }

  /**
   * The date key for a calendar day. `month` is zero-based, as `getMonth()`
   * returns it, and is written as `month + 1`; month and day are padded to two
   * digits.
   */
  function DateString(year: nat, month: nat, day: nat): string {
    YearPart(year) + PadStart(Dec(month + 1), 2, '0') + PadStart(Dec(day), 2, '0')
  }

  /** A four-digit year, a `getMonth()` value and a day of the month. */
  predicate ValidDate(year: nat, month: nat, day: nat) {
    1000 <= year <= 9999 && month < 12 && 1 <= day <= 31
  }

  lemma DecFourDigits(year: nat)
    requires 1000 <= year <= 9999
    ensures |Dec(year)| == 4
  {
    DecLength(year, 4);
    DecLength(year, 3);
    assert Pow10(3) == 1000 && Pow10(4) == 10000;
  }

  lemma LastTwoDigits(hi: nat, lo: nat)
    requires lo < 100
    ensures (hi * 100 + lo) % 100 == lo
  {
  }

  lemma FourDigitYear(year: nat)
    requires 1000 <= year <= 9999
    ensures |YearPart(year)| == 2 && AllDigits(YearPart(year))
    ensures Value(YearPart(year)) == year % 100
  {
    var s := Dec(year);
    DecFourDigits(year);
    DecValue(year);
    var hi, lo := s[..2], s[2..];
    assert s == hi + lo;
    ValueAppend(hi, lo);
    ValueBound(lo);
    assert Pow10(2) == 100;
    LastTwoDigits(Value(hi), Value(lo));
  }

  lemma TwoDigitField(n: nat)
    requires 1 <= n <= 99
    ensures |PadStart(Dec(n), 2, '0')| == 2
    ensures AllDigits(PadStart(Dec(n), 2, '0')) && Value(PadStart(Dec(n), 2, '0')) == n
  {
    DecLength(n, 2);
    assert Pow10(2) == 100;
    PaddedDecValue(n, 2);
  }

  /**
   * The date key of a valid day is six digits that read back as the last two
   * digits of the year, the one-based month and the day.
   */
  lemma DateStringShape(year: nat, month: nat, day: nat)
    requires ValidDate(year, month, day)
    ensures var ds := DateString(year, month, day);
      && |ds| == 6 && AllDigits(ds)
      && Value(ds[..2]) == year % 100
      && Value(ds[2..4]) == month + 1
      && Value(ds[4..]) == day
  {
    var y, m, d := YearPart(year), PadStart(Dec(month + 1), 2, '0'), PadStart(Dec(day), 2, '0');
    FourDigitYear(year);
    TwoDigitField(month + 1);
    TwoDigitField(day);
    var ds := DateString(year, month, day);
    assert ds == y + m + d;
    ValueAppend(y, m);
    ValueAppend(y + m, d);
    assert ds[..2] == y && ds[2..4] == m && ds[4..] == d;
  }

  /** Two valid days share a date key exactly when they agree on year modulo 100, month and day. */
  lemma DateStringInjective(y1: nat, m1: nat, d1: nat, y2: nat, m2: nat, d2: nat)
    requires ValidDate(y1, m1, d1) && ValidDate(y2, m2, d2)
    ensures DateString(y1, m1, d1) == DateString(y2, m2, d2)
        <==> (y1 % 100 == y2 % 100 && m1 == m2 && d1 == d2)
  {
    DateStringShape(y1, m1, d1);
    DateStringShape(y2, m2, d2);
    if y1 % 100 == y2 % 100 && m1 == m2 && d1 == d2 {
      TwoDigitYearEqual(y1, y2);
    }
  }

  lemma TwoDigitYearEqual(y1: nat, y2: nat)
    requires 1000 <= y1 <= 9999 && 1000 <= y2 <= 9999 && y1 % 100 == y2 % 100
    ensures YearPart(y1) == YearPart(y2)
  {
    FourDigitYear(y1);
    FourDigitYear(y2);
    var a, b := YearPart(y1), YearPart(y2);
    DigitPairsEqual(a, b);
  }

  lemma DigitPairsEqual(a: string, b: string)
    requires |a| == 2 && |b| == 2 && AllDigits(a) && AllDigits(b) && Value(a) == Value(b)
    ensures a == b
  {
    assert a[..1] == [a[0]] && b[..1] == [b[0]];
    assert [a[0]][..0] == [] && [b[0]][..0] == [];
    assert Value([a[0]]) == DigitValue(a[0]);
    assert Value([b[0]]) == DigitValue(b[0]);
    assert Value(a) == DigitValue(a[0]) * 10 + DigitValue(a[1]);
    assert Value(b) == DigitValue(b[0]) * 10 + DigitValue(b[1]);
    assert a[0] == b[0] && a[1] == b[1];
  }

  // ---------------------------------------------------------------------------
  // The code

  /** `A${dateStr}${currentCount.toString().padStart(5, '0')}`. */
  function FormatCode(dateStr: string, count: nat): string {
    "A" + dateStr + PadStart(Dec(count), SEQUENCE_WIDTH, '0')
  }

  /** Reads a code back into its date key and count (the inverse of FormatCode). */
  function ParseCode(code: string): Option<(string, nat)> {
    if |code| >= 12 && code[0] == 'A' && AllDigits(code[7..])
    then Some((code[1..7], Value(code[7..])))
    else None
  }

  lemma FormatParse(dateStr: string, count: nat)
    requires |dateStr| == 6
    ensures ParseCode(FormatCode(dateStr, count)) == Some((dateStr, count))
  {
    var code := FormatCode(dateStr, count);
    var tail := PadStart(Dec(count), SEQUENCE_WIDTH, '0');
    assert code[1..7] == dateStr && code[7..] == tail;
    PaddedDecValue(count, SEQUENCE_WIDTH);
  }

  /** Different (date key, count) pairs never give the same code. */
  lemma FormatCodeInjective(ds1: string, n1: nat, ds2: string, n2: nat)
    requires |ds1| == 6 && |ds2| == 6
    requires FormatCode(ds1, n1) == FormatCode(ds2, n2)
    ensures ds1 == ds2 && n1 == n2
  {
    FormatParse(ds1, n1);
    FormatParse(ds2, n2);
  }

  /**
   * A code is 12 characters while the count fits in five digits; a larger
   * count is written in full after the date key, never cut or wrapped.
   */
  lemma FormatCodeLength(dateStr: string, count: nat)
    requires |dateStr| == 6
    ensures count < 100000 ==> |FormatCode(dateStr, count)| == 12
    ensures count >= 100000 ==> FormatCode(dateStr, count) == "A" + dateStr + Dec(count)
    ensures count >= 100000 ==> |FormatCode(dateStr, count)| > 12
  {
    DecLength(count, SEQUENCE_WIDTH);
    assert Pow10(5) == 100000;
  }

  /** The worked example of the format: count 7 on 7 June 2024. */
  lemma FormatExample()
    ensures FormatCode(DateString(2024, 5, 7), 7) == "A24060700007"
  {
    YearExample();
    PaddingExample();
  }

  lemma YearExample()
    ensures YearPart(2024) == "24"
  {
    assert DigitChar(0) == '0' && DigitChar(2) == '2' && DigitChar(4) == '4';
    assert Dec(2) == "2";
    assert Dec(20) == Dec(2) + "0" == "20";
    assert Dec(202) == Dec(20) + "2" == "202";
    assert Dec(2024) == Dec(202) + "4" == "2024";
  }

  lemma PaddingExample()
    ensures PadStart(Dec(6), 2, '0') == "06"
    ensures PadStart(Dec(7), 2, '0') == "07"
    ensures PadStart(Dec(7), 5, '0') == "00007"
  {
    assert DigitChar(6) == '6' && DigitChar(7) == '7';
    assert Repeat('0', 1) == "0";
    assert Repeat('0', 4) == "0000";
  }

  // ---------------------------------------------------------------------------
  // The per-date counter

  /** The value the counter upsert leaves for `date`: created at 1, or incremented by 1. */
  function NextCount(sequences: map<string, nat>, date: string): nat {
    if date in sequences then sequences[date] + 1 else 1
  }

  /** The counter's current value for a date, 0 when there is no row. */
  function Base(sequences: map<string, nat>, date: string): nat {
    if date in sequences then sequences[date] else 0
  }

  /** Successive counter upserts on `dates`: the table afterwards and the count each one returned. */
  function Allocate(sequences: map<string, nat>, dates: seq<string>): (r: (map<string, nat>, seq<nat>))
    ensures |r.1| == |dates|
    decreases |dates|
  {
    if dates == [] then (sequences, [])
    else
      var n := NextCount(sequences, dates[0]);
      var rest := Allocate(sequences[dates[0] := n], dates[1..]);
      (rest.0, [n] + rest.1)
  }

  /** How many entries of xs equal d. */
  function Occurrences(xs: seq<string>, d: string): nat {
    if xs == [] then 0 else (if xs[0] == d then 1 else 0) + Occurrences(xs[1..], d)
  }

  /**
   * Each allocation returns the date's starting count plus the number of
   * allocations on that date so far (itself included); the table ends at the
   * starting count plus all of them. Other dates do not disturb a date's count.
   */
  lemma {:induction false} AllocationCounts(sequences: map<string, nat>, dates: seq<string>)
    ensures forall j :: 0 <= j < |dates| ==>
      Allocate(sequences, dates).1[j] == Base(sequences, dates[j]) + Occurrences(dates[..j + 1], dates[j])
    ensures forall d :: Base(Allocate(sequences, dates).0, d) == Base(sequences, d) + Occurrences(dates, d)
    decreases |dates|
  {
    if dates != [] {
      var d0 := dates[0];
      var s' := sequences[d0 := NextCount(sequences, d0)];
      AllocationCounts(s', dates[1..]);
      var counts := Allocate(sequences, dates).1;
      forall j | 0 <= j < |dates|
        ensures counts[j] == Base(sequences, dates[j]) + Occurrences(dates[..j + 1], dates[j])
      {
        if j > 0 {
          assert dates[..j + 1][1..] == dates[1..][..j];
          assert counts[j] == Allocate(s', dates[1..]).1[j - 1];
        }
      }
      forall d ensures Base(Allocate(sequences, dates).0, d) == Base(sequences, d) + Occurrences(dates, d) {
      }
    }
  }

  /** N allocations on one date that had no row yet return exactly 1, 2, ..., N. */
  lemma SameDateCounts(sequences: map<string, nat>, d: string, n: nat)
    requires d !in sequences
    ensures var dates := seq(n, _ => d);
      forall j :: 0 <= j < n ==> Allocate(sequences, dates).1[j] == j + 1
  {
    var dates := seq(n, _ => d);
    AllocationCounts(sequences, dates);
    forall j | 0 <= j < n ensures Allocate(sequences, dates).1[j] == j + 1 {
      OccurrencesAllSame(dates[..j + 1], d);
    }
  }

  lemma {:induction false} OccurrencesAllSame(xs: seq<string>, d: string)
    requires forall k :: 0 <= k < |xs| ==> xs[k] == d
    ensures Occurrences(xs, d) == |xs|
    decreases |xs|
  {
    if xs != [] {
      OccurrencesAllSame(xs[1..], d);
    }
  }

  lemma {:induction false} OccurrencesAppend(xs: seq<string>, x: string, d: string)
    ensures Occurrences(xs + [x], d) == Occurrences(xs, d) + (if x == d then 1 else 0)
    decreases |xs|
  {
    if xs != [] {
      assert (xs + [x])[1..] == xs[1..] + [x];
      OccurrencesAppend(xs[1..], x, d);
    } else {
      assert [x][1..] == [];
    }
  }

  lemma {:induction false} OccurrencesPrefix(xs: seq<string>, i: nat, j: nat, d: string)
    requires i <= j <= |xs|
    ensures Occurrences(xs[..i], d) <= Occurrences(xs[..j], d)
    decreases j - i
  {
    if i < j {
      OccurrencesPrefix(xs, i, j - 1, d);
      assert xs[..j] == xs[..j - 1] + [xs[j - 1]];
      OccurrencesAppend(xs[..j - 1], xs[j - 1], d);
    }
  }

  /**
   * The codes issued by any run of allocations on six-character date keys are
   * pairwise distinct: on one date the counts strictly increase, and codes of
   * different dates differ in the date field.
   */
  lemma AllocatedCodesDistinct(sequences: map<string, nat>, dates: seq<string>, i: nat, j: nat)
    requires forall k :: 0 <= k < |dates| ==> |dates[k]| == 6
    requires i < j < |dates|
    ensures var counts := Allocate(sequences, dates).1;
      FormatCode(dates[i], counts[i]) != FormatCode(dates[j], counts[j])
  {
    var counts := Allocate(sequences, dates).1;
    AllocationCounts(sequences, dates);
    if dates[i] == dates[j] {
      var d := dates[j];
      OccurrencesPrefix(dates, i + 1, j, d);
      assert dates[..j + 1] == dates[..j] + [d];
      OccurrencesAppend(dates[..j], d, d);
      assert counts[i] < counts[j];
    }
    if FormatCode(dates[i], counts[i]) == FormatCode(dates[j], counts[j]) {
      FormatCodeInjective(dates[i], counts[i], dates[j], counts[j]);
    }
  }
}
