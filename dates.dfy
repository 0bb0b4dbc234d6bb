/** Calendar dates as the to-do script uses them: the due date is an ISO
    `yyyy-mm-dd` string (what a date input field yields), shown as
    `MM/DD/YYYY`, and compared with today's date at day granularity. */
module Dates {
  import opened Options

  datatype Date = Date(year: nat, month: nat, day: nat)

  predicate IsLeapYear(y: nat) {
    y % 4 == 0 && (y % 100 != 0 || y % 400 == 0)
  }

  function DaysInMonth(y: nat, m: nat): (n: nat) {
    if m == 2 then (if IsLeapYear(y) then 29 else 28)
    else if m == 4 || m == 6 || m == 9 || m == 11 then 30
    else if 1 <= m <= 12 then 31
    else 0
  }

  predicate IsValidDate(d: Date) {
    1 <= d.month <= 12 && 1 <= d.day <= DaysInMonth(d.year, d.month)
  }

  // ---------------------------------------------------------------------------
  // Decimal digits

  predicate IsDigit(c: char) {
    '0' <= c <= '9'
  }

  predicate AllDigits(s: string) {
    forall i :: 0 <= i < |s| ==> IsDigit(s[i])
  }

  function DigitChar(n: nat): (c: char)
    requires n < 10
    ensures IsDigit(c)
  {
    ('0' as int + n) as char
  }

  function DigitValue(c: char): (n: nat)
    requires IsDigit(c)
    ensures n < 10 && DigitChar(n) == c
  {
    c as int - '0' as int
  }

  /** The number a string of decimal digits denotes. */
  function DecValue(s: string): (n: nat)
    requires AllDigits(s)
  {
    if s == [] then 0 else DecValue(s[..|s| - 1]) * 10 + DigitValue(s[|s| - 1])
  }

  /** `String(n)` for a non-negative integer: decimal, no leading zeros. */
  function NatToDec(n: nat): (r: string)
    ensures r != [] && AllDigits(r)
    ensures r[0] == '0' ==> n == 0
  {
    if n < 10 then [DigitChar(n)] else NatToDec(n / 10) + [DigitChar(n % 10)]
  }

  /** `String(n).padStart(2, '0')`. */
  function Pad2(n: nat): (r: string)
    ensures |r| >= 2 && AllDigits(r)
  {
    var s := NatToDec(n);
    if |s| < 2 then "0" + s else s
  }

  lemma {:induction false} NatToDecDigits(n: nat)
    ensures AllDigits(NatToDec(n)) && NatToDec(n) != []
    ensures DecValue(NatToDec(n)) == n
    ensures |NatToDec(n)| == 1 <==> n < 10
    ensures n < 100 ==> |NatToDec(n)| <= 2
    ensures NatToDec(n)[0] != '0' || n == 0
  {
    var s := NatToDec(n);
    if n >= 10 {
      NatToDecDigits(n / 10);
      assert s[..|s| - 1] == NatToDec(n / 10);
    }
  }

  /** A number below 100 is padded to exactly two digits that denote it. */
  lemma Pad2Digits(n: nat)
    requires n < 100
    ensures |Pad2(n)| == 2 && AllDigits(Pad2(n)) && DecValue(Pad2(n)) == n
  {
    NatToDecDigits(n);
    var p := Pad2(n);
    if n < 10 {
      assert p[..1] == "0";
      assert DecValue(p[..1]) == 0 by {
        assert p[..1][..0] == [];
      }
    }
  }

  // ---------------------------------------------------------------------------
  // Parsing and display

  /** `new Date(iso)` read back as a calendar date: an exact `yyyy-mm-dd` string
      naming an existing day; anything else is an invalid date. */
  function ParseIsoDate(s: string): (r: Option<Date>)
    ensures r.Some? ==> IsValidDate(r.value) && r.value.year <= 9999
  {
    if |s| == 10 && AllDigits(s[..4]) && s[4] == '-' && AllDigits(s[5..7]) && s[7] == '-'
       && AllDigits(s[8..])
    then
      var d := Date(DecValue(s[..4]), DecValue(s[5..7]), DecValue(s[8..]));
      assert DecValue(s[..4]) <= 9999 by { DecValueBound(s[..4]); }
      if IsValidDate(d) then Some(d) else None
    else None
  }

  lemma {:induction false} DecValueBound(s: string)
    requires AllDigits(s)
    ensures DecValue(s) < Pow10(|s|)
  {
    if s != [] {
      DecValueBound(s[..|s| - 1]);
    }
  }

  function Pow10(k: nat): (p: nat)
    ensures p >= 1
  {
    if k == 0 then 1 else 10 * Pow10(k - 1)
  }

  /** `n` written with exactly `k` decimal digits, zero-padded on the left. */
  function Digits(n: nat, k: nat): (r: string)
    ensures |r| == k && AllDigits(r)
  {
    if k == 0 then [] else Digits(n / 10, k - 1) + [DigitChar(n % 10)]
  }

  /** The `yyyy-mm-dd` text of a date, each field zero-padded. */
  function IsoText(d: Date): (r: string)
    ensures |r| == 10
  {
    Digits(d.year, 4) + "-" + Digits(d.month, 2) + "-" + Digits(d.day, 2)
  }

  /** `k` digits are enough for a number below 10^k, and they denote it. */
  lemma {:induction false} DigitsValue(n: nat, k: nat)
    requires n < Pow10(k)
    ensures DecValue(Digits(n, k)) == n
  {
    if k > 0 {
      var q, d, p := n / 10, n % 10, Pow10(k - 1);
      assert Pow10(k) == 10 * p;
      assert q < p;
      DigitsValue(q, k - 1);
      var t := Digits(q, k - 1);
      var s := Digits(n, k);
      assert s == t + [DigitChar(d)];
      assert s[..|s| - 1] == t;
      assert DigitValue(DigitChar(d)) == d;
      assert DecValue(s) == DecValue(t) * 10 + d;
    }
  }

  /** A digit string is the padded numeral of its own value. */
  lemma {:induction false} DigitsOfValue(s: string)
    requires AllDigits(s)
    ensures Digits(DecValue(s), |s|) == s
  {
    if s != [] {
      var init, last := s[..|s| - 1], s[|s| - 1];
      DigitsOfValue(init);
      var v := DecValue(init) * 10 + DigitValue(last);
      assert DecValue(s) == v;
      assert v / 10 == DecValue(init) && v % 10 == DigitValue(last);
      assert s == init + [last];
    }
  }

  /** Where the fields sit in `yyyy + "-" + mm + "-" + dd`. */
  lemma IsoLayout(yyyy: string, mm: string, dd: string)
    requires |yyyy| == 4 && |mm| == 2 && |dd| == 2
    ensures var r := yyyy + "-" + mm + "-" + dd;
      r[..4] == yyyy && r[4] == '-' && r[5..7] == mm && r[7] == '-' && r[8..] == dd
  {
  }

  /** Every existing day with a year of at most four digits is read back from
      its `yyyy-mm-dd` text. */
  lemma ParseIsoText(d: Date)
    requires IsValidDate(d) && d.year <= 9999
    ensures ParseIsoDate(IsoText(d)) == Some(d)
  {
    IsoLayout(Digits(d.year, 4), Digits(d.month, 2), Digits(d.day, 2));
    assert Pow10(2) == 100;
    assert Pow10(4) == 10000;
    DigitsValue(d.year, 4);
    DigitsValue(d.month, 2);
    DigitsValue(d.day, 2);
  }

  /** Whatever is accepted is exactly the `yyyy-mm-dd` text of the parsed date. */
  lemma ParseIsoExact(s: string)
    ensures ParseIsoDate(s).Some? ==> s == IsoText(ParseIsoDate(s).value)
  {
    if ParseIsoDate(s).Some? {
      DigitsOfValue(s[..4]);
      DigitsOfValue(s[5..7]);
      DigitsOfValue(s[8..]);
      IsoLayout(s[..4], s[5..7], s[8..]);
      assert s == s[..4] + "-" + s[5..7] + "-" + s[8..];
    }
  }

  /** The parser accepts exactly the `yyyy-mm-dd` texts of the existing days
      with a year of at most four digits, each read as its own date. */
  lemma ParseIsoDateIff(s: string, d: Date)
    ensures ParseIsoDate(s) == Some(d) <==> IsValidDate(d) && d.year <= 9999 && s == IsoText(d)
  {
    ParseIsoExact(s);
    if IsValidDate(d) && d.year <= 9999 {
      ParseIsoText(d);
    }
  }

  /** formatDisplayDate: `-` for an absent or invalid date, otherwise the
      two-digit month, `/`, the two-digit day, `/`, and the year. */
  function FormatDisplayDate(iso: string): (r: string)
    ensures r == "-" <==> ParseIsoDate(iso).None?
  {
    if iso == "" then "-"
    else match ParseIsoDate(iso)
      case None => "-"
      case Some(d) => Pad2(d.month) + "/" + Pad2(d.day) + "/" + NatToDec(d.year)
  }

  /** Reads `MM/DD/Y...` back: the inverse of the display format. */
  function ParseDisplayDate(s: string): (r: Option<Date>) {
    if |s| >= 7 && AllDigits(s[..2]) && s[2] == '/' && AllDigits(s[3..5]) && s[5] == '/'
       && AllDigits(s[6..])
    then Some(Date(DecValue(s[6..]), DecValue(s[..2]), DecValue(s[3..5])))
    else None
  }

  /** The displayed date has the fixed shape `MM/DD/` followed by the year, and
      each field denotes the parsed date's field. */
  lemma FormatDisplayDateFields(iso: string, d: Date)
    requires ParseIsoDate(iso) == Some(d)
    ensures var r := FormatDisplayDate(iso);
      |r| >= 7 && r[2] == '/' && r[5] == '/'
      && AllDigits(r[..2]) && DecValue(r[..2]) == d.month
      && AllDigits(r[3..5]) && DecValue(r[3..5]) == d.day
      && r[6..] == NatToDec(d.year) && AllDigits(r[6..]) && DecValue(r[6..]) == d.year
  {
    Pad2Digits(d.month);
    Pad2Digits(d.day);
    NatToDecDigits(d.year);
    DisplayLayout(Pad2(d.month), Pad2(d.day), NatToDec(d.year));
  }

  /** Where the fields sit in `mm + "/" + dd + "/" + y`. */
  lemma DisplayLayout(mm: string, dd: string, y: string)
    requires |mm| == 2 && |dd| == 2
    ensures var r := mm + "/" + dd + "/" + y;
      |r| == 6 + |y| && r[..2] == mm && r[2] == '/' && r[3..5] == dd && r[5] == '/' && r[6..] == y
  {
  }

  /** Round trip: reading the displayed text back gives the parsed date, and the
      placeholder `-` reads back as no date. */
  lemma FormatDisplayDateRoundTrip(iso: string)
    ensures ParseDisplayDate(FormatDisplayDate(iso)) == ParseIsoDate(iso)
  {
    match ParseIsoDate(iso)
    case None =>
    case Some(d) => FormatDisplayDateFields(iso, d);
  }

  // ---------------------------------------------------------------------------
  // Day-granularity comparison

  /** Day-granularity `due < today`: the calendar order of two dates. It is
      strict: an earlier date is a different date, in the same or an earlier
      year. */
  predicate DateLess(a: Date, b: Date)
    ensures DateLess(a, b) ==> a != b && a.year <= b.year
  {
    a.year < b.year
    || (a.year == b.year && a.month < b.month)
    || (a.year == b.year && a.month == b.month && a.day < b.day)
  }

  /** Days in the months of year `y` before month `m`. */
  function DaysBeforeMonth(y: nat, m: nat): (n: nat) {
    if m <= 1 then 0 else DaysBeforeMonth(y, m - 1) + DaysInMonth(y, m - 1)
  }

  function DaysInYear(y: nat): (n: nat) {
    DaysBeforeMonth(y, 13)
  }

  function DaysBeforeYear(y: nat): (n: nat) {
    if y == 0 then 0 else DaysBeforeYear(y - 1) + DaysInYear(y - 1)
  }

  /** The number of days from 1 January of year 0 to the date: what the
      script's comparison of two midnight time values compares. */
  function DayOrdinal(d: Date): (n: int) {
    DaysBeforeYear(d.year) + DaysBeforeMonth(d.year, d.month) + d.day - 1
  }

  lemma {:induction false} DaysBeforeMonthGrows(y: nat, m: nat, m': nat)
    requires 1 <= m < m' <= 13
    ensures DaysBeforeMonth(y, m) + DaysInMonth(y, m) <= DaysBeforeMonth(y, m')
  {
    if m' > m + 1 {
      DaysBeforeMonthGrows(y, m, m' - 1);
    }
  }

  lemma {:induction false} DaysBeforeYearGrows(y: nat, y': nat)
    requires y < y'
    ensures DaysBeforeYear(y) + DaysInYear(y) <= DaysBeforeYear(y')
  {
    if y' > y + 1 {
      DaysBeforeYearGrows(y, y' - 1);
    }
  }

  /** A valid date lies within its year's days. */
  lemma DayWithinYear(d: Date)
    requires IsValidDate(d)
    ensures DaysBeforeMonth(d.year, d.month) + d.day - 1 < DaysInYear(d.year)
  {
    DaysBeforeMonthGrows(d.year, d.month, 13);
  }

  lemma DateLessOrdinal(a: Date, b: Date)
    requires IsValidDate(a) && IsValidDate(b) && DateLess(a, b)
    ensures DayOrdinal(a) < DayOrdinal(b)
  {
    if a.year < b.year {
      DayWithinYear(a);
      DaysBeforeYearGrows(a.year, b.year);
    } else if a.month < b.month {
      DaysBeforeMonthGrows(a.year, a.month, b.month);
    }
  }

  /** The calendar order is exactly the order of day numbers, i.e. of the
      midnight time values that the script compares. */
  lemma DateLessIff(a: Date, b: Date)
    requires IsValidDate(a) && IsValidDate(b)
    ensures DateLess(a, b) <==> DayOrdinal(a) < DayOrdinal(b)
  {
    if DateLess(a, b) {
      DateLessOrdinal(a, b);
    } else if DateLess(b, a) {
      DateLessOrdinal(b, a);
    } else {
      assert a == b;
    }
  }
}
