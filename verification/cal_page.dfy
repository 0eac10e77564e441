/** cal: the day of the week of the first of January by a formula, the length of the year from two of
    those, and the month laid out in the columns of the week. */
module CalPage {
  import opened Arith

  // The calendar: Julian up to September 1752, when the 2nd was followed by the 14th; Gregorian since.

  predicate Leap(y: int) {
    if y <= 1752 then y % 4 == 0 else y % 4 == 0 && (y % 100 != 0 || y % 400 == 0)
  }

  function Length(y: int, m: int): (n: int)
    requires 1 <= m <= 12
    ensures 19 <= n <= 31
  {
    if m == 9 && y == 1752 then 19
    else if m == 2 then (if Leap(y) then 29 else 28)
    else if m in {4, 6, 9, 11} then 30
    else 31
  }

  /** The days of the year before the month. */
  function DaysBefore(y: int, m: int): (n: int)
    requires 1 <= m <= 13
    ensures n >= 0
  {
    if m == 1 then 0 else DaysBefore(y, m - 1) + Length(y, m - 1)
  }

  /** The days before the year, from the year 1 on. */
  function YearsBefore(y: int): (n: int)
    requires y >= 1
    ensures n >= 0
  {
    if y == 1 then 0 else YearsBefore(y - 1) + DaysBefore(y - 1, 13)
  }

  /** Sunday is 0; the first day of the year 1 was a Saturday. */
  function Weekday(y: int, m: int, k: nat): (d: int)
    requires y >= 1 && 1 <= m <= 12
    ensures 0 <= d < 7
  {
    (6 + YearsBefore(y) + DaysBefore(y, m) + k) % 7
  }

  /** The number of the k-th day of the month, from 0. */
  function DayNumber(y: int, m: int, k: nat): nat {
    if y == 1752 && m == 9 && k >= 2 then k + 12 else k + 1
  }

  // jan1.

  function Jan1(y: int): int
    requires y >= 1
  {
    var d := 4 + y + (y + 3) / 4;
    var e := if y > 1800 then d - (y - 1701) / 100 + (y - 1601) / 400 else d;
    (if y > 1752 then e + 3 else e) % 7
  }

  lemma YearLength(y: int)
    ensures DaysBefore(y, 13) == if y == 1752 then 355 else if Leap(y) then 366 else 365
  {
    assert DaysBefore(y, 2) == 31;
    assert DaysBefore(y, 3) == 31 + Length(y, 2);
    assert DaysBefore(y, 5) == DaysBefore(y, 3) + 61;
    assert DaysBefore(y, 7) == DaysBefore(y, 5) + 61;
    assert DaysBefore(y, 9) == DaysBefore(y, 7) + 62;
    assert DaysBefore(y, 11) == DaysBefore(y, 9) + Length(y, 9) + 31;
    assert DaysBefore(y, 13) == DaysBefore(y, 11) + 61;
  }

  function Fours(y: int): int {
    (y + 3) / 4
  }

  /** From 1800 on, less one day in a century and more one day in four. */
  function Centuries(y: int): int {
    (y - 1601) / 400 - (y - 1701) / 100
  }

  /** jan1 before the remainder is taken. */
  function Sum(y: int): int {
    4 + y + Fours(y) + (if y > 1800 then Centuries(y) else 0) + if y > 1752 then 3 else 0
  }

  lemma Quotient(a: int, n: int)
    requires n > 0
    ensures (a + 1) / n == a / n + if (a + 1) % n == 0 then 1 else 0
  {
    DivMod(a, n);
    if a % n == n - 1 {
      MulStep(a / n, n);
      DivisionUnique(n, a / n + 1, 0);
    } else {
      DivisionUnique(n, a / n, a % n + 1);
    }
  }

  lemma Shifted(a: int, n: nat, k: int)
    requires n > 0
    ensures (a + k * n) % n == a % n
  {
    DivMod(a, n);
    assert a + k * n == (a / n + k) * n + a % n;
    DivisionUnique(n, a / n + k, a % n);
  }

  lemma Remainders(y: int)
    ensures (y + 4) % 4 == y % 4 && (y - 1700) % 100 == y % 100 && (y - 1600) % 400 == y % 400
  {
    Shifted(y, 4, 1);
    Shifted(y, 100, -17);
    Shifted(y, 400, -4);
  }

  lemma FoursStep(y: int)
    ensures Fours(y + 1) == Fours(y) + if y % 4 == 0 then 1 else 0
  {
    Remainders(y);
    Quotient(y + 3, 4);
  }

  lemma CenturiesStep(y: int)
    ensures Centuries(1801) == -1
    ensures Centuries(y + 1) == Centuries(y) + (if y % 400 == 0 then 1 else 0) - if y % 100 == 0 then 1 else 0
  {
    Remainders(y);
    Quotient(y - 1701, 100);
    Quotient(y - 1601, 400);
  }

  /** From one year to the next the sum grows by the length of the year, weeks aside. */
  lemma SumStep(y: int)
    requires y >= 1
    ensures (Sum(y + 1) - Sum(y)) == if y == 1752 then 5 else if Leap(y) then 2 else 1
  {
    hide Fours, Centuries;
    FoursStep(y);
    CenturiesStep(y);
  }

  /** Counting whole weeks changes nothing. */
  lemma Weeks(a: int, b: int, k: int)
    requires a - b == 7 * k
    ensures a % 7 == b % 7
  {
  }

  lemma YearInWeeks(y: int)
    requires y >= 1
    ensures DaysBefore(y, 13) - (Sum(y + 1) - Sum(y)) == 7 * if y == 1752 then 50 else 52
  {
    hide Sum, DaysBefore, Leap;
    SumStep(y);
    YearLength(y);
  }

  lemma SumOne()
    ensures Sum(1) == 6
  {
  }

  lemma {:induction false} SumIsCount(y: int) returns (k: int)
    requires y >= 1
    ensures 6 + YearsBefore(y) - Sum(y) == 7 * k
  {
    hide Sum, DaysBefore, Leap;
    if y == 1 {
      SumOne();
      k := 0;
    } else {
      var j := SumIsCount(y - 1);
      YearInWeeks(y - 1);
      k := j + if y - 1 == 1752 then 50 else 52;
    }
  }

  /** The formula gives the weekday found by counting days from the year 1. */
  lemma Jan1IsCounted(y: int)
    requires y >= 1
    ensures Jan1(y) == Weekday(y, 1, 0) == (6 + YearsBefore(y)) % 7
  {
    var k := SumIsCount(y);
    Weeks(6 + YearsBefore(y), Sum(y), k);
  }

  lemma Apart(a: int, n: int)
    ensures ((a + n) % 7 + 7 - a % 7) % 7 == n % 7
  {
    Weeks((a + n) % 7 + 7 - a % 7, n, a / 7 - (a + n) / 7 + 1);
  }

  lemma YearsNext(y: int)
    requires y >= 1
    ensures YearsBefore(y + 1) == YearsBefore(y) + DaysBefore(y, 13)
  {
  }

  /** The days of a year over and above whole weeks. */
  lemma YearsOver(y: int)
    ensures DaysBefore(y, 13) % 7 == if y == 1752 then 5 else if Leap(y) then 2 else 1
  {
    YearLength(y);
    hide DaysBefore, Leap;
  }

  /** The distance between two New Year's days tells the three kinds of years apart. */
  lemma KindOfYear(y: int)
    requires y >= 1
    ensures (Jan1(y + 1) + 7 - Jan1(y)) % 7 == if y == 1752 then 5 else if Leap(y) then 2 else 1
  {
    hide *;
    Jan1IsCounted(y);
    Jan1IsCounted(y + 1);
    YearsNext(y);
    YearsOver(y);
    Apart(6 + YearsBefore(y), DaysBefore(y, 13));
  }

  /** The lengths of the months, from January on. */
  lemma MonthTable(y: int, m: int)
    requires 1 <= m <= 12
    ensures y != 1752 || m != 9 ==>
      Length(y, m) == [31, if Leap(y) then 29 else 28, 31, 30, 31, 30, 31, 31, 30, 31, 30, 31][m - 1]
    ensures y == 1752 && m == 9 ==> Length(y, m) == 19 && DayNumber(y, m, 1) == 2 && DayNumber(y, m, 2) == 14
  {
  }

  ghost predicate Divides(n: int, y: int) {
    exists k :: y == n * k
  }

  lemma DividesIs(n: nat, y: int)
    requires n > 0
    ensures Divides(n, y) <==> y % n == 0
  {
    DivMod(y, n);
    if Divides(n, y) {
      var k :| y == n * k;
      DivisionUnique(n, k, 0);
      assert k * n + 0 == y;
    } else {
      assert y != n * (y / n);
    }
  }

  /** Every fourth year is a leap year, but since the change no full century that is not divisible by
      400. */
  lemma LeapYears(y: int)
    ensures Leap(y) <==> Divides(4, y) && !(y > 1752 && Divides(100, y) && !Divides(400, y))
  {
    hide Divides;
    DividesIs(4, y);
    DividesIs(100, y);
    DividesIs(400, y);
  }

  /** From one day to the next the weekday goes on by one, over the end of a month, and over the end of a
      year, too. */
  lemma NextDay(y: int, m: int, k: nat)
    requires y >= 1 && 1 <= m <= 12
    ensures Weekday(y, m, k + 1) == (Weekday(y, m, k) + 1) % 7
    ensures m < 12 ==> Weekday(y, m + 1, 0) == Weekday(y, m, Length(y, m))
    ensures m == 12 ==> Weekday(y + 1, 1, 0) == Weekday(y, 12, 31)
  {
    hide YearsBefore;
    var a := 6 + YearsBefore(y) + DaysBefore(y, m) + k;
    Weeks((a % 7) + 1, a + 1, -(a / 7));
    if m == 12 {
      YearsNext(y);
      assert DaysBefore(y, 13) == DaysBefore(y, 12) + 31 && DaysBefore(y + 1, 1) == 0;
    }
  }

  lemma WeekdayFrom(y: int, m: int, k: nat, a: int, d: int)
    requires y >= 1 && 1 <= m <= 12 && (6 + YearsBefore(y)) % 7 == a && DaysBefore(y, m) == d
    ensures Weekday(y, m, k) == (a + d + k) % 7
  {
    hide YearsBefore, DaysBefore;
    Weeks(6 + YearsBefore(y) + d + k, a + d + k, (6 + YearsBefore(y)) / 7);
  }

  lemma DaysBeforeSeptember(y: int)
    requires Leap(y) && y <= 1752
    ensures DaysBefore(y, 9) == 244 && DaysBefore(y, 1) == 0
  {
    assert DaysBefore(y, 2) == 31;
    assert DaysBefore(y, 3) == 60;
    assert DaysBefore(y, 5) == DaysBefore(y, 3) + 61;
    assert DaysBefore(y, 7) == DaysBefore(y, 5) + 61;
  }

  /** In a leap year of old that began on a Wednesday, the second and the third day of September on
      which there was one were a Wednesday and a Thursday. */
  lemma SeptemberDays(y: int)
    requires 1 <= y <= 1752 && Leap(y) && Jan1(y) == 3
    ensures Weekday(y, 9, 1) == 3 && Weekday(y, 9, 2) == 4
  {
    hide *;
    Jan1IsCounted(y);
    DaysBeforeSeptember(y);
    WeekdayFrom(y, 9, 1, 3, 244);
    WeekdayFrom(y, 9, 2, 3, 244);
  }

  lemma Jan1Of(y: int)
    requires y == 1752 || y == 1970
    ensures Jan1(y) == (if y == 1752 then 3 else 4) && (y == 1752 ==> Leap(y))
  {
  }

  /** 2 and 14 September 1752 were a Wednesday and a Thursday, and 1 January 1970 a Thursday. */
  lemma KnownDays(y: int)
    requires y == 1752 || y == 1970
    ensures y == 1752 ==> Weekday(y, 9, 1) == 3 && Weekday(y, 9, 2) == 4
    ensures y == 1970 ==> Weekday(y, 1, 0) == 4
  {
    hide *;
    Jan1Of(y);
    Jan1IsCounted(y);
    if y < 1970 {
      SeptemberDays(y);
    }
  }

  // The page.

  /** Where the day that is the q-th cell of the month goes: three places to a cell, w to a week. */
  function Place(p: int, w: int, q: nat): int {
    p + q / 7 * w + q % 7 * 3
  }

  lemma PlaceStep(p: int, w: int, q: nat)
    ensures Place(p, w, q + 1) == if q % 7 == 6 then p + (q / 7) * w + w else Place(p, w, q) + 3
  {
    if q % 7 == 6 {
      assert (q + 1) / 7 == q / 7 + 1;
      MulStep(q / 7, w);
    } else {
      assert (q + 1) / 7 == q / 7;
    }
  }

  /** Rows do not overlap. */
  lemma {:induction false} PlacesApart(p: int, w: int, a: nat, b: nat)
    requires w >= 21 && a < b
    ensures Place(p, w, a) + 3 <= Place(p, w, b)
  {
    PlaceStep(p, w, b - 1);
    if a < b - 1 {
      PlacesApart(p, w, a, b - 1);
    }
  }

  lemma PlaceInPage(p: int, w: int, q: nat, size: int)
    requires 0 <= p && w >= 21 && q < 42 && p + 5 * w + 20 <= size
    ensures 0 <= Place(p, w, q) && Place(p, w, q) + 2 <= size
  {
    MulMono(0, q / 7, w);
    MulMono(q / 7, 5, w);
  }

  predicate Fits(p: int, w: int, size: int) {
    0 <= p && w >= 21 && p + 5 * w + 20 <= size
  }

  function Write(buf: seq<int>, at: int, i: nat): (r: seq<int>)
    requires 0 <= at && at + 2 <= |buf|
    ensures |r| == |buf|
  {
    (if i > 9 then buf[at := i / 10 + 48] else buf)[at + 1 := i % 10 + 48]
  }

  /** The page with the first n days of the month on it. */
  function Page(buf: seq<int>, y: int, m: int, p: int, w: int, n: nat): (r: seq<int>)
    requires y >= 1 && 1 <= m <= 12 && Fits(p, w, |buf|) && n <= 35
    ensures |r| == |buf|
  {
    if n == 0 then buf
    else
      PlaceInPage(p, w, Weekday(y, m, 0) + n - 1, |buf|);
      Write(Page(buf, y, m, p, w, n - 1), Place(p, w, Weekday(y, m, 0) + n - 1), DayNumber(y, m, n - 1))
  }

  predicate Shows(buf: seq<int>, r: seq<int>, at: int, day: nat)
    requires |r| == |buf|
  {
    && 0 <= at && at + 2 <= |buf|
    && r[at] == (if day > 9 then day / 10 + 48 else buf[at]) && r[at + 1] == day % 10 + 48
  }

  /** The day stands in the row of its week, in the column of its weekday. */
  predicate Stands(buf: seq<int>, r: seq<int>, y: int, m: int, p: int, w: int, k: nat)
    requires y >= 1 && 1 <= m <= 12 && |r| == |buf|
  {
    Shows(buf, r, p + (Weekday(y, m, 0) + k) / 7 * w + Weekday(y, m, k) * 3, DayNumber(y, m, k))
  }

  predicate Taken(y: int, m: int, p: int, w: int, k: nat, j: int)
    requires y >= 1 && 1 <= m <= 12
  {
    Place(p, w, Weekday(y, m, 0) + k) <= j <= Place(p, w, Weekday(y, m, 0) + k) + 1
  }

  predicate Free(y: int, m: int, p: int, w: int, n: nat, j: int)
    requires y >= 1 && 1 <= m <= 12
  {
    forall k: nat | k < n :: !Taken(y, m, p, w, k, j)
  }

  lemma AddMod(a: int, k: int)
    ensures (a % 7 + k) % 7 == (a + k) % 7
  {
    Weeks(a + k, a % 7 + k, a / 7);
  }

  lemma Column(y: int, m: int, k: nat)
    requires y >= 1 && 1 <= m <= 12
    ensures (Weekday(y, m, 0) + k) % 7 == Weekday(y, m, k)
  {
    hide YearsBefore, DaysBefore;
    AddMod(6 + YearsBefore(y) + DaysBefore(y, m), k);
  }

  /** Every day of the month is there, and nothing else has changed. */
  lemma {:induction false} PageHas(buf: seq<int>, y: int, m: int, p: int, w: int, n: nat)
    requires y >= 1 && 1 <= m <= 12 && Fits(p, w, |buf|) && n <= 35
    ensures forall k: nat | k < n :: Stands(buf, Page(buf, y, m, p, w, n), y, m, p, w, k)
    ensures forall j | 0 <= j < |buf| && Free(y, m, p, w, n, j) :: Page(buf, y, m, p, w, n)[j] == buf[j]
  {
    hide Page, Stands, Free, Weekday;
    if n > 0 {
      var r, r' := Page(buf, y, m, p, w, n), Page(buf, y, m, p, w, n - 1);
      PageHas(buf, y, m, p, w, n - 1);
      PageNext(buf, y, m, p, w, n - 1);
      forall k: nat | k < n
        ensures Stands(buf, r, y, m, p, w, k)
      {
        if k < n - 1 {
          StandsStill(buf, r', r, y, m, p, w, n, k);
        } else {
          LastFree(y, m, p, w, k);
          StandsNow(buf, r', r, y, m, p, w, k);
        }
      }
      forall j | 0 <= j < |buf| && Free(y, m, p, w, n, j)
        ensures r[j] == buf[j]
      {
        FreeNext(y, m, p, w, n, j);
      }
    } else {
      PageFirst(buf, y, m, p, w);
    }
  }

  lemma PageFirst(buf: seq<int>, y: int, m: int, p: int, w: int)
    requires y >= 1 && 1 <= m <= 12 && Fits(p, w, |buf|)
    ensures Page(buf, y, m, p, w, 0) == buf
  {
  }

  lemma PageNext(buf: seq<int>, y: int, m: int, p: int, w: int, n: nat)
    requires y >= 1 && 1 <= m <= 12 && Fits(p, w, |buf|) && n < 35
    ensures 0 <= Place(p, w, Weekday(y, m, 0) + n) && Place(p, w, Weekday(y, m, 0) + n) + 2 <= |buf|
    ensures Page(buf, y, m, p, w, n + 1) ==
            Write(Page(buf, y, m, p, w, n), Place(p, w, Weekday(y, m, 0) + n), DayNumber(y, m, n))
  {
    PlaceInPage(p, w, Weekday(y, m, 0) + n, |buf|);
  }

  lemma FreeNext(y: int, m: int, p: int, w: int, n: nat, j: int)
    requires y >= 1 && 1 <= m <= 12 && 0 < n && Free(y, m, p, w, n, j)
    ensures Free(y, m, p, w, n - 1, j) && !Taken(y, m, p, w, n - 1, j)
  {
  }

  /** The next day's place is not taken by those before. */
  lemma LastFree(y: int, m: int, p: int, w: int, n: nat)
    requires y >= 1 && 1 <= m <= 12 && w >= 21
    ensures forall j | Taken(y, m, p, w, n, j) :: Free(y, m, p, w, n, j)
  {
    hide Weekday, Place;
    forall j, k: nat | Taken(y, m, p, w, n, j) && k < n
      ensures !Taken(y, m, p, w, k, j)
    {
      PlacesApart(p, w, Weekday(y, m, 0) + k, Weekday(y, m, 0) + n);
    }
  }

  lemma StandsStill(buf: seq<int>, r': seq<int>, r: seq<int>, y: int, m: int, p: int, w: int, n: nat, k: nat)
    requires y >= 1 && 1 <= m <= 12 && w >= 21 && k < n - 1 && |r| == |r'| == |buf|
    requires var at := Place(p, w, Weekday(y, m, 0) + n - 1);
      0 <= at && at + 2 <= |buf| && r == Write(r', at, DayNumber(y, m, n - 1))
    requires Stands(buf, r', y, m, p, w, k)
    ensures Stands(buf, r, y, m, p, w, k)
  {
    hide Weekday, DayNumber, Place;
    PlaceIs(y, m, p, w, k);
    PlacesApart(p, w, Weekday(y, m, 0) + k, Weekday(y, m, 0) + n - 1);
  }

  lemma StandsNow(buf: seq<int>, r': seq<int>, r: seq<int>, y: int, m: int, p: int, w: int, k: nat)
    requires y >= 1 && 1 <= m <= 12 && |r| == |r'| == |buf|
    requires var at := Place(p, w, Weekday(y, m, 0) + k);
      0 <= at && at + 2 <= |buf| && r == Write(r', at, DayNumber(y, m, k)) && r'[at] == buf[at]
    ensures Stands(buf, r, y, m, p, w, k)
  {
    hide Weekday, DayNumber, Place;
    PlaceIs(y, m, p, w, k);
  }

  lemma PlaceIs(y: int, m: int, p: int, w: int, k: nat)
    requires y >= 1 && 1 <= m <= 12
    ensures Place(p, w, Weekday(y, m, 0) + k) == p + (Weekday(y, m, 0) + k) / 7 * w + Weekday(y, m, k) * 3
  {
    hide Weekday;
    Column(y, m, k);
  }

  class Cal {
    const mon: array<int>

    constructor ()
      ensures Months() && fresh(mon)
    {
      mon := new int[] [0, 31, 29, 31, 30, 31, 30, 31, 31, 30, 31, 30, 31];
    }

    /** The lengths of the months that are the same in every year. */
    predicate Months()
      reads mon
    {
      mon.Length == 13 && forall m | 1 <= m <= 12 && m != 2 && m != 9 :: mon[m] == if m in {4, 6, 11} then 30 else 31
    }

    /** The lengths of the months of this year. */
    method SetYear(y: int)
      requires y >= 1 && Months()
      modifies mon
      ensures Months() && forall m | 1 <= m <= 12 :: mon[m] == Length(y, m)
    {
      hide Jan1;
      mon[2] := 29;
      mon[9] := 30;
      KindOfYear(y);
      match (Jan1(y + 1) + 7 - Jan1(y)) % 7
      case 1 => mon[2] := 28;
      case 2 =>
      case _ => mon[9] := 19;
    }

    method FirstColumn(y: int, m: int) returns (d: int)
      requires y >= 1 && 1 <= m <= 12 && mon.Length == 13 && forall j | 1 <= j <= 12 :: mon[j] == Length(y, j)
      ensures d == Weekday(y, m, 0)
    {
      hide Jan1, Weekday, YearsBefore, Length;
      d := Jan1(y);
      for i := 1 to m
        invariant d == Jan1(y) + DaysBefore(y, i)
      {
        d := d + mon[i];
      }
      Jan1IsCounted(y);
      FirstOfMonth(y, m);
      d := d % 7;
    }

    static lemma FirstOfMonth(y: int, m: int)
      requires y >= 1 && 1 <= m <= 12
      ensures ((6 + YearsBefore(y)) % 7 + DaysBefore(y, m)) % 7 == Weekday(y, m, 0)
    {
      hide YearsBefore, DaysBefore;
      AddMod(6 + YearsBefore(y), DaysBefore(y, m));
    }

    /** cal: the month at p in the buffer, w places to a line. */
    method Print(y: int, m: int, buf: array<int>, start: int, w: int)
      requires y >= 1 && 1 <= m <= 12 && Months() && Fits(start, w, buf.Length) && buf != mon
      modifies mon, buf
      ensures Months()
      ensures buf[..] == Page(old(buf[..]), y, m, start, w, Length(y, m))
    {
      hide Weekday, Page, Place, Write;
      SetYear(y);
      var d := FirstColumn(y, m);
      ghost var first := d;
      var p, s, i := start, start + 3 * d, 1;
      ghost var k := 0;
      PlaceRow(start, w, first);
      PageFirst(buf[..], y, m, start, w);
      while i <= mon[m]
        invariant Months() && 0 <= k <= Length(y, m) && 0 <= first < 7
        invariant i == if y == 1752 && m == 9 && k >= 3 then k + 12 else k + 1
        invariant mon[m] == if y == 1752 && m == 9 && k >= 3 then 30 else Length(y, m)
        invariant d == (first + k) % 7 && p == start + (first + k) / 7 * w && s == Place(start, w, first + k)
        invariant buf[..] == Page(old(buf[..]), y, m, start, w, k)
        decreases Length(y, m) - k
      {
        if i == 3 && mon[m] == 19 {
          i := i + 11;
          mon[m] := mon[m] + 11;
        }
        PlaceInPage(start, w, first + k, buf.Length);
        PageNext(old(buf[..]), y, m, start, w, k);
        s := PutDay(buf, s, i);
        d := d + 1;
        PlaceStep(start, w, first + k);
        RowStep(first + k);
        if d == 7 {
          d := 0;
          s := p + w;
          p := s;
          MulStep((first + k) / 7, w);
        }
        k := k + 1;
        i := i + 1;
      }
    }

    /** A day in its two places, and on to the next. */
    static method PutDay(buf: array<int>, s0: int, i: nat) returns (s: int)
      requires 0 <= s0 && s0 + 2 <= buf.Length
      modifies buf
      ensures buf[..] == Write(old(buf[..]), s0, i) && s == s0 + 3
    {
      s := s0;
      if i > 9 {
        buf[s] := i / 10 + 48;
      }
      s := s + 1;
      buf[s] := i % 10 + 48;
      s := s + 2;
    }

    static lemma PlaceRow(p: int, w: int, q: nat)
      requires q < 7
      ensures Place(p, w, q) == p + 3 * q && q / 7 * w == 0 && q % 7 == q
    {
    }

    static lemma RowStep(q: nat)
      ensures q % 7 == 6 ==> (q + 1) / 7 == q / 7 + 1 && (q + 1) % 7 == 0
      ensures q % 7 != 6 ==> (q + 1) / 7 == q / 7 && (q + 1) % 7 == q % 7 + 1
    {
    }
  }
}
