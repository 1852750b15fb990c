/** Lenient date normalisation of the register's `begin_date` and `end_date` columns
    (`parse_date` in `system_card.rs`). A month-precision value `YYYY-MM` gets the day `-01`
    appended and is read as a full calendar date with the format `%Y-%m-%d`; any failure
    becomes an absent date. */
module Dates {
  import opened Options

  /** A calendar date of the proleptic Gregorian calendar (chrono's `NaiveDate`). */
  datatype Date = Date(year: int, month: int, day: int)

  predicate IsDigit(c: char) { '0' <= c <= '9' }

  predicate AllDigits(d: string) { forall k :: 0 <= k < |d| ==> IsDigit(d[k]) }

  /** The number written in decimal by the digits `d` (leading zeros allowed). */
  function Number(d: string): nat
    requires AllDigits(d)
  {
    if d == [] then 0 else 10 * Number(d[..|d| - 1]) + (d[|d| - 1] as int - '0' as int)
  }

  /** Reading a number field of at most `width` digits starting at `i`: the end of the longest
      such run of digits. */
  function ScanDigits(s: string, i: nat, width: nat): (j: nat)
    requires i <= |s|
    ensures i <= j <= |s| && j <= i + width
    ensures forall k :: i <= k < j ==> IsDigit(s[k])
    ensures j < |s| && j < i + width ==> !IsDigit(s[j])
    decreases width
  {
    if width == 0 || i == |s| || !IsDigit(s[i]) then i else ScanDigits(s, i + 1, width - 1)
  }

  predicate IsLeapYear(y: int) { (y % 4 == 0 && y % 100 != 0) || y % 400 == 0 }

  function DaysInMonth(y: int, m: int): (n: int)
    requires 1 <= m <= 12
    ensures 28 <= n <= 31
  {
    if m == 2 then (if IsLeapYear(y) then 29 else 28)
    else if m == 4 || m == 6 || m == 9 || m == 11 then 30
    else 31
  }

  /** Reading `s` as a full date with the format `%Y-%m-%d`: a year of one to four digits, a
      month of one or two digits and a day of one or two digits, separated by `-`, with nothing
      left over; the month must lie in 1..12 and the day must exist in that month. */
  function ParseFullDate(s: string): (r: Option<Date>)
    ensures r.Some? ==> 1 <= r.value.month <= 12 && 1 <= r.value.day <= DaysInMonth(r.value.year, r.value.month)
  {
    var y := ScanDigits(s, 0, 4);
    if y == 0 || y == |s| || s[y] != '-' then None
    else
      var m := ScanDigits(s, y + 1, 2);
      if m == y + 1 || m == |s| || s[m] != '-' then None
      else
        var d := ScanDigits(s, m + 1, 2);
        if d == m + 1 || d != |s| then None
        else
          var year, month, day := Number(s[..y]), Number(s[y + 1..m]), Number(s[m + 1..]);
          if 1 <= month <= 12 && 1 <= day <= DaysInMonth(year, month)
          then Some(Date(year, month, day))
          else None
  }

  /** `parse_date`: the value with `-01` appended, read as a full date. An `Err` of
      chrono's parser is `None` here, which is what the caller's `.ok()` turns it into. */
  function ParseDate(date: string): (r: Option<Date>)
    ensures r.Some? ==> r.value.day == 1 && 1 <= r.value.month <= 12
  {
    ParsedDayIsFirst(date);
    ParseFullDate(date + "-01")
  }

  /** The splitting of a month-precision value into year digits, `-` and month digits. */
  predicate YearMonthAt(date: string, k: nat)
  {
    && 1 <= k <= 4 && k < |date| && date[k] == '-'
    && 1 <= |date| - k - 1 <= 2
    && AllDigits(date[..k]) && AllDigits(date[k + 1..])
  }

  lemma ScanDigitsExact(s: string, i: nat, width: nat, j: nat)
    requires i <= j <= |s| && j <= i + width
    requires forall k :: i <= k < j ==> IsDigit(s[k])
    requires j == i + width || j == |s| || !IsDigit(s[j])
    ensures ScanDigits(s, i, width) == j
  {
  }

  /** Whatever parses, the day is the appended `01`: the month digits end right where the
      given value ends. */
  lemma ParsedDayIsFirst(date: string)
    ensures ParseFullDate(date + "-01").Some? ==>
      && ParseFullDate(date + "-01").value.day == 1
      && 1 <= ParseFullDate(date + "-01").value.month <= 12
  {
    var s := date + "-01";
    var y := ScanDigits(s, 0, 4);
    if y == 0 || y == |s| || s[y] != '-' {
    } else {
      var m := ScanDigits(s, y + 1, 2);
      if m == y + 1 || m == |s| || s[m] != '-' {
      } else {
        var d := ScanDigits(s, m + 1, 2);
        if d == m + 1 || d != |s| {
        } else {
          assert s[|s| - 3] == '-' && s[|s| - 2] == '0' && s[|s| - 1] == '1';
          assert m == |s| - 3;
          assert s[m + 1..] == "01";
          assert Number("01") == 1 by {
            assert "01"[..1] == "0";
            assert "0"[..0] == "";
          }
        }
      }
    }
  }

  /** A full-date text whose day field is the literal `01`, split at positions `a` and `b`. */
  lemma ParseFirstOfMonth(s: string, a: nat, b: nat)
    requires 1 <= a <= 4 && a + 2 <= b <= a + 3 && |s| == b + 3
    requires forall k :: 0 <= k < a ==> IsDigit(s[k])
    requires forall k :: a < k < b ==> IsDigit(s[k])
    requires s[a] == '-' && s[b] == '-' && s[b + 1..] == "01"
    ensures ParseFullDate(s) ==
      var month := Number(s[a + 1..b]);
      if 1 <= month <= 12 then Some(Date(Number(s[..a]), month, 1)) else None
  {
    ScanDigitsExact(s, 0, 4, a);
    ScanDigitsExact(s, a + 1, 2, b);
    ScanDigitsExact(s, b + 1, 2, |s|);
    assert Number("01") == 1 by {
      assert "01"[..1] == "0";
      assert "0"[..0] == "";
    }
  }

  /** Every year-month value made of one to four year digits and one or two month digits
      normalises to the first of that month when the month lies in 1..12, and to `None`
      otherwise. */
  lemma ParseYearMonth(y: string, m: string)
    requires 1 <= |y| <= 4 && 1 <= |m| <= 2 && AllDigits(y) && AllDigits(m)
    ensures ParseDate(y + "-" + m) ==
      if 1 <= Number(m) <= 12 then Some(Date(Number(y), Number(m), 1)) else None
  {
    var s := y + "-" + m + "-01";
    var a, b := |y|, |y| + 1 + |m|;
    assert s[..a] == y;
    assert s[a + 1..b] == m;
    assert s[b + 1..] == "01";
    ParseFirstOfMonth(s, a, b);
  }

  /** Conversely, every value that normalises splits as year digits, `-`, month digits, and
      the date holds exactly those numbers. */
  lemma ParsedIsYearMonth(date: string)
    requires ParseDate(date).Some?
    ensures exists k: nat :: (YearMonthAt(date, k) &&
      ParseDate(date) == Some(Date(Number(date[..k]), Number(date[k + 1..]), 1)))
  {
    var s := date + "-01";
    var y := ScanDigits(s, 0, 4);
    var m := ScanDigits(s, y + 1, 2);
    assert s[|s| - 3] == '-' && s[|s| - 2] == '0' && s[|s| - 1] == '1';
    assert m == |date|;
    assert s[..y] == date[..y];
    assert s[y + 1..m] == date[y + 1..];
    assert AllDigits(date[..y]) && AllDigits(date[y + 1..]);
    assert YearMonthAt(date, y);
  }

  /** The digit values read from the date `2023-05`. */
  lemma ReferenceDigits()
    ensures AllDigits("2023") && Number("2023") == 2023
    ensures AllDigits("05") && Number("05") == 5
  {
    assert "2023"[..3] == "202";
    assert "202"[..2] == "20";
    assert "20"[..1] == "2";
    assert "2"[..0] == "";
    assert "05"[..1] == "0";
    assert "0"[..0] == "";
  }

  /** `2023-05` is the first of May 2023. */
  lemma MonthValueExample()
    ensures ParseDate("2023-05") == Some(Date(2023, 5, 1))
  {
    ReferenceDigits();
    assert "2023-05" == "2023" + "-" + "05";
    ParseYearMonth("2023", "05");
  }

  /** Text that is not a year and month is absent rather than an error. */
  lemma FreeTextExample()
    ensures ParseDate("unspecified") == None
  {
    assert ScanDigits("unspecified-01", 0, 4) == 0;
  }

  /** The two example values: `2023-05` is the first of May 2023, and text
      that is not a year and month is absent rather than an error. */
  lemma DateExamples()
    ensures ParseDate("2023-05") == Some(Date(2023, 5, 1))
    ensures ParseDate("unspecified") == None
  {
    MonthValueExample();
    FreeTextExample();
  }
}
