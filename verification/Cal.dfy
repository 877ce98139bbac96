/** Conversion between packed dates (yyyymmdd) and Julian day numbers, in integer
    arithmetic only, against the rules of the Gregorian calendar. */
module GregorianDates {

  // ----- division as the program's language does it: towards zero

  function Quot(a: int, b: int): int
    requires b > 0
  {
    if a >= 0 then a / b else -((-a) / b)
  }

  function Rem(a: int, b: int): int
    requires b > 0
  {
    if a >= 0 then a % b else -((-a) % b)
  }

  // ----- the two conversions

  function JulianToDate(jdate: int): int {
    var x := 4 * jdate - 6884477;
    DateOfCentury(Quot(x, 146097), Quot(Rem(x, 146097), 4))
  }

  function DateOfCentury(century: int, d: int): int {
    var x := 4 * d + 3;
    DateOfYear(Quot(x, 1461) + century * 100, Quot(Rem(x, 1461), 4) + 1)
  }

  function DateOfYear(y: int, d: int): int {
    var x := 5 * d - 3;
    var m := Quot(x, 153) + 1;
    var day := Quot(Rem(x, 153), 5) + 1;
    var month := if m < 11 then m + 2 else m - 10;
    var year := y + Quot(m, 11);
    year * 10000 + month * 100 + day
  }

  function DateToJulian(ddate: int): int {
    var year := Quot(ddate, 10000);
    var rest := Rem(ddate, 10000);
    var month := Quot(rest, 100);
    var day := Rem(rest, 100);
    var m1 := if month > 2 then month - 3 else month + 9;
    var y1 := if month > 2 then year else year - 1;
    var a := Quot(146097 * Quot(y1, 100), 4);
    var b := Quot(1461 * Rem(y1, 100), 4);
    var c := Quot(153 * m1 + 2, 5) + day + 1721119;
    a + b + c
  }

  // ----- the calendar

  datatype Date = Date(year: int, month: int, day: int)

  predicate Leap(y: int) { (y % 4 == 0 && y % 100 != 0) || y % 400 == 0 }

  function MonthLength(y: int, m: int): int {
    if m == 2 then (if Leap(y) then 29 else 28)
    else if m == 4 || m == 6 || m == 9 || m == 11 then 30
    else 31
  }

  predicate Valid(d: Date) {
    0 <= d.year && 1 <= d.month <= 12 && 1 <= d.day <= MonthLength(d.year, d.month)
  }

  function Packed(d: Date): int { d.year * 10000 + d.month * 100 + d.day }

  /** The next day. */
  function Successor(d: Date): (s: Date)
    requires Valid(d)
    ensures Valid(s)
  {
    if d.day < MonthLength(d.year, d.month) then d.(day := d.day + 1)
    else if d.month < 12 then Date(d.year, d.month + 1, 1)
    else Date(d.year + 1, 1, 1)
  }

  /** From the first of March of year 0 on. */
  predicate Supported(d: Date) { Valid(d) && (d.year > 0 || d.month >= 3) }

  const FIRST_JULIAN := 1721120

  // ----- years that begin in March

  /** A day as a century, a year of the century beginning in March, a month counted from
      March, and a day of the month, all from zero. */
  datatype MarchDate = MarchDate(century: nat, year: nat, month: nat, day: nat)

  function YearStart(year: nat): nat { 1461 * year / 4 }
  function CenturyStart(century: nat): nat { 146097 * century / 4 }
  function MonthStart(month: nat): nat { (153 * month + 2) / 5 }

  predicate ValidMarch(t: MarchDate) {
    && t.year < 100 && t.month < 12
    && MonthStart(t.month) + t.day < (if t.month == 11 then 366 else MonthStart(t.month + 1))
    && YearStart(t.year) + MonthStart(t.month) + t.day
       < (if t.year == 99 then CenturyStart(t.century + 1) - CenturyStart(t.century) else YearStart(t.year + 1))
  }

  function MarchDay(t: MarchDate): int {
    CenturyStart(t.century) + YearStart(t.year) + MonthStart(t.month) + t.day
  }

  function ToMarch(d: Date): MarchDate
    requires Supported(d)
  {
    var y1 := if d.month > 2 then d.year else d.year - 1;
    MarchDate(y1 / 100, y1 % 100, if d.month > 2 then d.month - 3 else d.month + 9, d.day - 1)
  }

  function FromMarch(t: MarchDate): Date {
    var y1 := 100 * t.century + t.year;
    if t.month < 10 then Date(y1, t.month + 3, t.day + 1) else Date(y1 + 1, t.month - 9, t.day + 1)
  }

  lemma MarchIsTheSameDate(d: Date)
    requires Supported(d)
    ensures FromMarch(ToMarch(d)) == d
  {
  }

  /** The leap rule is what the starts of years and centuries count. */
  lemma ToMarchIsValid(d: Date)
    requires Supported(d)
    ensures ValidMarch(ToMarch(d))
  {
    var t := ToMarch(d);
    LeapDay(t.century, t.year);
    MarchYearFits(t.century, t.year);
    hide CenturyStart, YearStart, Leap;
  }

  /** A year beginning in March has at least 365 days, also the last one of a century. */
  lemma MarchYearFits(century: nat, year: nat)
    requires year < 100
    ensures YearStart(year) + 365
      <= (if year == 99 then CenturyStart(century + 1) - CenturyStart(century) else YearStart(year + 1))
  {
  }

  lemma FromMarchIsSupported(t: MarchDate)
    requires ValidMarch(t)
    ensures Supported(FromMarch(t)) && ToMarch(FromMarch(t)) == t
  {
    LeapDay(t.century, t.year);
    hide CenturyStart, YearStart, Leap;
    var y := 100 * t.century + t.year;
    assert y / 100 == t.century && y % 100 == t.year;
    MonthFits(t);
  }

  lemma MonthFits(t: MarchDate)
    requires t.month < 12 && MonthStart(t.month) + t.day < (if t.month == 11 then 366 else MonthStart(t.month + 1))
    requires t.month == 11 && t.day == 28 ==> Leap(100 * t.century + t.year + 1)
    ensures Valid(FromMarch(t))
  {
    hide Leap;
  }

  /** The year beginning in March has a 366th day exactly when the next year is a leap year. */
  lemma LeapDay(century: nat, year: nat)
    requires year < 100
    ensures Leap(100 * century + year + 1) <==>
      YearStart(year) + 365
      < (if year == 99 then CenturyStart(century + 1) - CenturyStart(century) else YearStart(year + 1))
  {
    LeapOfCentury(century, year);
    if year == 99 { LongCentury(century); } else { LongYear(year); }
  }

  lemma LeapOfCentury(century: nat, year: nat)
    requires year < 100
    ensures Leap(100 * century + year + 1) <==> if year == 99 then (century + 1) % 4 == 0 else (year + 1) % 4 == 0
  {
    var r := year + 1;
    if year == 99 {
      LeapCentury(century + 1);
    } else {
      HundredsMod100(century, r);
      HundredsMod4(century, r);
      Mod400Is100(100 * century + r);
    }
  }

  /** Hundreds do not count modulo 100, nor modulo 4. */
  lemma HundredsMod100(c: nat, r: nat)
    requires r < 100
    ensures (100 * c + r) % 100 == r
  {
  }

  lemma HundredsMod4(c: nat, r: nat)
    ensures (100 * c + r) % 4 == r % 4
  {
    assert 100 * c + r == 4 * (25 * c) + r;
  }

  /** A multiple of 400 is a multiple of 100. */
  lemma Mod400Is100(y: nat)
    ensures y % 400 == 0 ==> y % 100 == 0
  {
    assert y == 100 * (4 * (y / 400)) + y % 400;
  }

  lemma LeapCentury(c: nat)
    ensures Leap(100 * c) <==> c % 4 == 0
  {
    HundredsMod100(c, 0);
    CenturyMod400(c);
  }

  lemma CenturyMod400(c: nat)
    ensures 100 * c % 400 == 100 * (c % 4)
  {
    assert 100 * c == 400 * (c / 4) + 100 * (c % 4);
  }

  lemma LongCentury(century: nat)
    ensures YearStart(99) + 365 < CenturyStart(century + 1) - CenturyStart(century) <==> (century + 1) % 4 == 0
  {
    CenturyLength(century);
    hide CenturyStart, YearStart;
  }

  lemma LongYear(year: nat)
    ensures YearStart(year) + 365 < YearStart(year + 1) <==> (year + 1) % 4 == 0
  {
    YearLength(year);
    hide YearStart;
  }

  lemma YearLength(year: nat)
    ensures YearStart(year + 1) == YearStart(year) + if (year + 1) % 4 == 0 then 366 else 365
  {
    var q, r := year / 4, year % 4;
    QuarterOf(1461, q, r);
    if r < 3 {
      QuarterOf(1461, q, r + 1);
      assert year + 1 == 4 * q + (r + 1);
    } else {
      QuarterOf(1461, q + 1, 0);
      assert year + 1 == 4 * (q + 1);
    }
  }

  lemma CenturyLength(century: nat)
    ensures CenturyStart(century + 1)
            == CenturyStart(century) + YearStart(99) + if (century + 1) % 4 == 0 then 366 else 365
    ensures YearStart(0) == 0
  {
    var q, r := century / 4, century % 4;
    QuarterOf(146097, q, r);
    if r < 3 {
      QuarterOf(146097, q, r + 1);
      assert century + 1 == 4 * q + (r + 1);
    } else {
      QuarterOf(146097, q + 1, 0);
      assert century + 1 == 4 * (q + 1);
    }
  }

  /** Whole fours divide out. */
  lemma QuarterOf(k: int, q: nat, r: nat)
    ensures k * (4 * q + r) / 4 == k * q + k * r / 4
  {
    assert k * (4 * q + r) == 4 * (k * q) + k * r;
  }

  // ----- the conversions, level by level

  lemma SplitCentury(century: nat, rest: nat)
    requires rest < CenturyStart(century + 1) - CenturyStart(century)
    ensures
      var x := 4 * (CenturyStart(century) + rest) + 3;
      x / 146097 == century && x % 146097 / 4 == rest
  {
  }

  lemma SplitYear(year: nat, rest: nat)
    requires rest < YearStart(year + 1) - YearStart(year)
    ensures
      var x := 4 * (YearStart(year) + rest) + 3;
      x / 1461 == year && x % 1461 / 4 == rest
  {
  }

  lemma SplitMonth(month: nat, rest: nat)
    requires month < 12 && rest < MonthStart(month + 1) - MonthStart(month)
    ensures
      var x := 5 * (MonthStart(month) + rest) + 2;
      x / 153 == month && x % 153 / 5 == rest
  {
  }

  lemma Unpack(d: Date)
    requires 0 <= d.year && 1 <= d.month <= 12 && 1 <= d.day <= 31
    ensures Packed(d) / 10000 == d.year
    ensures Packed(d) % 10000 == d.month * 100 + d.day
    ensures (d.month * 100 + d.day) / 100 == d.month && (d.month * 100 + d.day) % 100 == d.day
  {
  }

  lemma DateToJulianCounts(d: Date)
    requires Supported(d)
    ensures DateToJulian(Packed(d)) == FIRST_JULIAN + MarchDay(ToMarch(d))
  {
    Unpack(d);
  }

  lemma JulianToDateSplits(t: MarchDate)
    requires ValidMarch(t)
    ensures JulianToDate(FIRST_JULIAN + MarchDay(t)) == Packed(FromMarch(t))
  {
    hide JulianToDate, DateOfCentury, DateOfYear, CenturyStart, YearStart, MonthStart;
    var ofYear := MonthStart(t.month) + t.day;
    var ofCentury := YearStart(t.year) + ofYear;
    MarchBounds(t);
    CenturySplits(t.century, ofCentury, FIRST_JULIAN + MarchDay(t));
    YearSplits(t.century, t.year, ofYear);
    MonthSplits(100 * t.century + t.year, t.month, t.day);
  }

  lemma CenturySplits(century: nat, rest: nat, j: int)
    requires rest < CenturyStart(century + 1) - CenturyStart(century)
    requires j == FIRST_JULIAN + CenturyStart(century) + rest
    ensures JulianToDate(j) == DateOfCentury(century, rest)
  {
    SplitCentury(century, rest);
  }

  lemma YearSplits(century: nat, year: nat, rest: nat)
    requires rest < YearStart(year + 1) - YearStart(year)
    ensures DateOfCentury(century, YearStart(year) + rest) == DateOfYear(100 * century + year, rest + 1)
  {
    SplitYear(year, rest);
  }

  lemma MonthSplits(y: nat, month: nat, day: nat)
    requires month < 12 && day < MonthStart(month + 1) - MonthStart(month)
    ensures DateOfYear(y, MonthStart(month) + day + 1)
            == if month < 10 then Packed(Date(y, month + 3, day + 1)) else Packed(Date(y + 1, month - 9, day + 1))
  {
    SplitMonth(month, day);
  }

  lemma MarchBounds(t: MarchDate)
    requires ValidMarch(t)
    ensures
      var ofYear := MonthStart(t.month) + t.day;
      && YearStart(t.year) + ofYear < CenturyStart(t.century + 1) - CenturyStart(t.century)
      && ofYear < YearStart(t.year + 1) - YearStart(t.year)
      && t.day < MonthStart(t.month + 1) - MonthStart(t.month)
  {
  }

  lemma CenturyOf(n: nat)
    ensures
      var century, rest := (4 * n + 3) / 146097, (4 * n + 3) % 146097 / 4;
      n == CenturyStart(century) + rest && rest < CenturyStart(century + 1) - CenturyStart(century)
  {
  }

  lemma YearOf(n: nat)
    requires n < 36525
    ensures
      var year, rest := (4 * n + 3) / 1461, (4 * n + 3) % 1461 / 4;
      && n == YearStart(year) + rest && year < 100 && rest < 366
      && rest < YearStart(year + 1) - YearStart(year)
  {
  }

  lemma MonthOf(n: nat)
    requires n < 366
    ensures
      var month, rest := (5 * n + 2) / 153, (5 * n + 2) % 153 / 5;
      && month < 12 && n == MonthStart(month) + rest
      && n < (if month == 11 then 366 else MonthStart(month + 1))
  {
  }

  /** Every day number from the first of March of year 0 is some March date. */
  lemma MarchOf(n: nat) returns (t: MarchDate)
    ensures ValidMarch(t) && MarchDay(t) == n
  {
    var century, ofCentury := (4 * n + 3) / 146097, (4 * n + 3) % 146097 / 4;
    CenturyOf(n);
    CenturyIsShort(century);
    var year, ofYear := (4 * ofCentury + 3) / 1461, (4 * ofCentury + 3) % 1461 / 4;
    YearOf(ofCentury);
    MonthOf(ofYear);
    t := MarchDate(century, year, (5 * ofYear + 2) / 153, (5 * ofYear + 2) % 153 / 5);
    hide CenturyStart, YearStart, MonthStart;
  }

  lemma CenturyIsShort(century: nat)
    ensures CenturyStart(century + 1) - CenturyStart(century) <= 36525
  {
  }

  // ----- main results

  /** In January and February of year 0 the two conversions disagree. */
  lemma BeforeFirst(d: Date)
    requires Valid(d) && !Supported(d)
    ensures JulianToDate(DateToJulian(Packed(d))) != Packed(d)
    ensures DateToJulian(Packed(d)) == (if d.month == 1 then 1721060 else 1721091) + d.day
  {
    hide JulianToDate;
    EarlyDay(d);
    EarlyJulian(DateToJulian(Packed(d)));
  }

  lemma EarlyDay(d: Date)
    requires Valid(d) && !Supported(d)
    ensures DateToJulian(Packed(d)) == (if d.month == 1 then 1721060 else 1721091) + d.day
  {
    Unpack(d);
    var y1, m1 := d.year - 1, d.month + 9;
    assert Quot(146097 * Quot(y1, 100), 4) == 0;
    assert Quot(1461 * Rem(y1, 100), 4) == -365;
    assert Quot(153 * m1 + 2, 5) == if d.month == 1 then 306 else 337;
  }

  lemma EarlyJulian(j: int)
    requires 1721061 <= j <= 1721120
    ensures JulianToDate(j) >= (if j <= 1721087 then 175 else 272)
  {
    hide DateOfYear;
    var x := 4 * j - 6884477;
    assert Quot(x, 146097) == 0 && Rem(x, 146097) == x;
    var x1 := 4 * Quot(x, 4) + 3;
    assert Quot(x1, 1461) == 0 && Rem(x1, 1461) == x1;
    EarlyYear(Quot(x1, 4) + 1);
  }

  lemma EarlyYear(y: int)
    requires -56 <= y <= 1
    ensures DateOfYear(0, y) >= (if y <= -30 then 175 else 272)
  {
  }

  /** Date to Julian and back is the identity exactly from 0000-03-01 on. */
  lemma DateRoundTrip(d: Date)
    requires Valid(d)
    ensures JulianToDate(DateToJulian(Packed(d))) == Packed(d) <==> Supported(d)
  {
    hide JulianToDate, DateToJulian;
    if Supported(d) {
      ToMarchIsValid(d);
      DateToJulianCounts(d);
      JulianToDateSplits(ToMarch(d));
      MarchIsTheSameDate(d);
    } else {
      BeforeFirst(d);
    }
  }

  /** Julian to date always gives a valid date, and back is the identity. */
  lemma JulianRoundTrip(j: int)
    requires FIRST_JULIAN <= j
    ensures exists d :: Supported(d) && JulianToDate(j) == Packed(d)
    ensures DateToJulian(JulianToDate(j)) == j
  {
    hide JulianToDate, DateToJulian;
    var t := MarchOf(j - FIRST_JULIAN);
    var d := FromMarch(t);
    JulianToDateSplits(t);
    FromMarchIsSupported(t);
    DateToJulianCounts(d);
    assert Supported(d) && JulianToDate(j) == Packed(d);
  }

  /** The next day of the calendar is one more, for every date but 29 February of year 0. */
  lemma SuccessorIsOneMore(d: Date)
    requires Valid(d)
    ensures DateToJulian(Packed(Successor(d))) == DateToJulian(Packed(d)) + 1 <==> d != Date(0, 2, 29)
  {
    hide DateToJulian;
    if Supported(d) {
      DateToJulianCounts(d);
      DateToJulianCounts(Successor(d));
      MarchSuccessor(d);
    } else {
      EarlyDay(d);
      if Supported(Successor(d)) {
        DateToJulianCounts(Successor(d));
      } else {
        EarlyDay(Successor(d));
      }
    }
  }

  lemma MarchSuccessor(d: Date)
    requires Supported(d)
    ensures MarchDay(ToMarch(Successor(d))) == MarchDay(ToMarch(d)) + 1
  {
    if d.month == 2 && d.day == MonthLength(d.year, 2) {
      FirstOfMarch(d);
    } else {
      hide CenturyStart, YearStart, Leap;
      var t, s := ToMarch(d), ToMarch(Successor(d));
      assert s.century == t.century && s.year == t.year;
      assert MonthStart(s.month) + s.day == MonthStart(t.month) + t.day + 1;
    }
  }

  lemma FirstOfMarch(d: Date)
    requires Supported(d) && d.month == 2 && d.day == MonthLength(d.year, 2)
    ensures MarchDay(ToMarch(Successor(d))) == MarchDay(ToMarch(d)) + 1
  {
    var t, s := ToMarch(d), ToMarch(Successor(d));
    var y := 100 * t.century + t.year + 1;
    assert y == d.year && s == MarchDate(y / 100, y % 100, 0, 0);
    NewMarchYear(t.century, t.year);
    hide CenturyStart, YearStart, Leap;
    assert t.month == 11 && MonthStart(11) == 337 && MonthStart(0) == 0;
    assert t.day == if Leap(y) then 28 else 27;
  }

  lemma NewMarchYear(century: nat, year: nat)
    requires year < 100
    ensures
      var y := 100 * century + year + 1;
      && CenturyStart(y / 100) + YearStart(y % 100)
         == CenturyStart(century) + YearStart(year) + (if Leap(y) then 366 else 365)
  {
    var y := 100 * century + year + 1;
    LeapOfCentury(century, year);
    if year < 99 {
      assert y / 100 == century && y % 100 == year + 1;
      YearLength(year);
    } else {
      assert y / 100 == century + 1 && y % 100 == 0;
      CenturyLength(century);
    }
  }

  function DaysLater(d: Date, n: nat): (s: Date)
    requires Valid(d)
    ensures Valid(s)
  {
    if n == 0 then d else Successor(DaysLater(d, n - 1))
  }

  /** The conversion counts days: n calendar days later is n more. */
  lemma {:induction false} CountingDays(d: Date, n: nat)
    requires Supported(d)
    ensures Supported(DaysLater(d, n))
    ensures DateToJulian(Packed(DaysLater(d, n))) == DateToJulian(Packed(d)) + n
  {
    hide DateToJulian;
    if n > 0 {
      CountingDays(d, n - 1);
      SuccessorIsOneMore(DaysLater(d, n - 1));
    }
  }

  /** And converting n more gives the date n calendar days later. */
  lemma JulianCountsDays(d: Date, n: nat)
    requires Supported(d)
    ensures JulianToDate(DateToJulian(Packed(d)) + n) == Packed(DaysLater(d, n))
  {
    hide JulianToDate, DateToJulian;
    CountingDays(d, n);
    DateRoundTrip(DaysLater(d, n));
  }
}
