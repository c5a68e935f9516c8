/** Dates of a statement: the Italian day-month-year text of a cell (`parseItalianDate`)
    and the day that `new Date(year, month, day)` stands for. A date is a day number,
    counted from 1 January 1970, which is all that the import and its duplicate key
    (`toLocaleDateString`) tell apart. */
module Dates {
  import opened Wrappers
  import opened Text
  import opened Numbers

  /** The arguments of `new Date(year, month, day)`: the month counts from 0. */
  datatype DateParts = DateParts(year: int, month: int, day: int)

  /** The keys of the month table: the first three letters of each Italian month name. */
  const MonthKeys: seq<string> :=
    ["gen", "feb", "mar", "apr", "mag", "giu", "lug", "ago", "set", "ott", "nov", "dic"]

  const MonthNames: seq<string> :=
    ["gennaio", "febbraio", "marzo", "aprile", "maggio", "giugno",
     "luglio", "agosto", "settembre", "ottobre", "novembre", "dicembre"]

  /** The month table lookup: `undefined` is `None`. */
  function MonthOf(key: string): (r: Option<nat>)
    ensures r.Some? <==> key in MonthKeys
    ensures r.Some? ==> r.value < 12 && MonthKeys[r.value] == key
  {
    if key == "gen" then Some(0)
    else if key == "feb" then Some(1)
    else if key == "mar" then Some(2)
    else if key == "apr" then Some(3)
    else if key == "mag" then Some(4)
    else if key == "giu" then Some(5)
    else if key == "lug" then Some(6)
    else if key == "ago" then Some(7)
    else if key == "set" then Some(8)
    else if key == "ott" then Some(9)
    else if key == "nov" then Some(10)
    else if key == "dic" then Some(11)
    else None
  }

  /** `s.substring(0, 3)` */
  function Prefix3(s: string): string {
    if |s| < 3 then s else s[..3]
  }

  /** `parseItalianDate(s)`: lower-case the text, split it on single spaces, and read
      the day from the first piece, the month from the first three letters of the
      second and the year from the third; `None` is `null`. */
  function ParseItalianDate(s: string): (r: Option<DateParts>)
    ensures s == "" ==> r.None?
    ensures |Split(Lower(s), ' ')| < 3 ==> r.None?
    ensures r.Some? ==> 0 <= r.value.month < 12
    ensures r.Some? ==> MonthKeys[r.value.month] == Prefix3(Split(Lower(s), ' ')[1])
    ensures var parts := Split(Lower(s), ' ');
      r.Some? <==> s != "" && |parts| >= 3 && MonthOf(Prefix3(parts[1])).Some?
                   && ParseInt(parts[0]).Some? && ParseInt(parts[2]).Some?
    ensures var parts := Split(Lower(s), ' ');
      r.Some? ==> r.value.day == ParseInt(parts[0]).value && r.value.year == ParseInt(parts[2]).value
  {
    if s == "" then None
    else
      var parts := Split(Lower(s), ' ');
      if |parts| < 3 then None
      else
        var month := MonthOf(Prefix3(parts[1]));
        var day := ParseInt(parts[0]);
        var year := ParseInt(parts[2]);
        if day.Some? && month.Some? && year.Some? then
          Some(DateParts(year.value, month.value, day.value))
        else None
  }

  /** Every full month name is read as its month. */
  lemma MonthNamesRead(m: nat)
    requires m < 12
    ensures MonthOf(Prefix3(MonthNames[m])) == Some(m)
  {
    KeysArePrefixes(m);
    KeysRead(m);
  }

  lemma KeysArePrefixes(m: nat)
    requires m < 12
    ensures Prefix3(MonthNames[m]) == MonthKeys[m]
  {
    assert |MonthNames[m]| >= 3;
  }

  lemma KeysRead(m: nat)
    requires m < 12
    ensures MonthOf(MonthKeys[m]) == Some(m)
  {
  }

  lemma LowerDigits(s: string)
    requires AllDigits(s)
    ensures Lower(s) == s
  {
    LowerAt(s);
    assert forall i :: 0 <= i < |s| ==> Lower(s)[i] == s[i];
  }

  lemma LowerKeepsSpaceOut(s: string)
    requires ' ' !in s
    ensures ' ' !in Lower(s)
  {
    LowerAt(s);
    forall i | 0 <= i < |s| ensures Lower(s)[i] != ' ' {
      assert Lower(s)[i] == LowerChar(s[i]);
    }
  }

  /** The text `"<day> <month> <year>"` followed by `rest`. */
  function DateText(day: nat, name: string, year: nat, rest: string): string {
    NatText(day) + (" " + (name + (" " + (NatText(year) + rest))))
  }

  /** Lower-casing the date text touches only the month word and what follows the year. */
  lemma LowerDateText(day: nat, name: string, year: nat, rest: string)
    ensures Lower(DateText(day, name, year, rest))
      == NatText(day) + (" " + (Lower(name) + (" " + (NatText(year) + Lower(rest)))))
  {
    var d, y := NatText(day), NatText(year);
    LowerAppend(y, rest);
    LowerAppend(" ", y + rest);
    LowerAppend(name, " " + (y + rest));
    LowerAppend(" ", name + (" " + (y + rest)));
    LowerAppend(d, " " + (name + (" " + (y + rest))));
    LowerDigits(d);
    LowerDigits(y);
    assert Lower(" ") == " ";
  }

  /** The three pieces of a lower-cased date text. */
  lemma SplitDateText(d: string, n: string, y: string, lr: string)
    requires AllDigits(d) && AllDigits(y) && ' ' !in n
    requires lr == [] || lr[0] == ' '
    ensures var parts := Split(d + (" " + (n + (" " + (y + lr)))), ' ');
      |parts| >= 3 && parts[0] == d && parts[1] == n && parts[2] == y
  {
    DigitsLack(d, ' ');
    DigitsLack(y, ' ');
    SplitAt(d, n + (" " + (y + lr)), ' ');
    SplitAt(n, y + lr, ' ');
    if lr == [] {
      assert y + lr == y;
      SplitNone(y, ' ');
    } else {
      assert y + lr == y + ([' '] + lr[1..]);
      SplitAt(y, lr[1..], ' ');
    }
  }

  /** The text `"<day> <month> <year>"`, with the month word in any letter case and any
      further words after a space, is read back as those three numbers. */
  lemma ParseItalianDateText(day: nat, name: string, month: nat, year: nat, rest: string)
    requires ' ' !in name
    requires MonthOf(Prefix3(Lower(name))) == Some(month)
    requires rest == [] || rest[0] == ' '
    ensures ParseItalianDate(DateText(day, name, year, rest)) == Some(DateParts(year, month, day))
  {
    var d, y := NatText(day), NatText(year);
    LowerDateText(day, name, year, rest);
    LowerKeepsSpaceOut(name);
    LowerAt(rest);
    assert rest != [] ==> Lower(rest)[0] == ' ';
    SplitDateText(d, Lower(name), y, Lower(rest));
    ParseIntNatText(day, []);
    ParseIntNatText(year, []);
    assert d + [] == d && y + [] == y;
  }

  /** The first day of year `y`, counted from 1 January 1970 (proleptic Gregorian). */
  function DayFromYear(y: int): int {
    365 * (y - 1970) + (y - 1969) / 4 - (y - 1901) / 100 + (y - 1601) / 400
  }

  predicate IsLeapYear(y: int) {
    y % 4 == 0 && (y % 100 != 0 || y % 400 == 0)
  }

  function DaysInMonth(y: int, m: nat): (n: nat)
    requires m < 12
    ensures 28 <= n <= 31
  {
    if m == 1 then (if IsLeapYear(y) then 29 else 28)
    else if m == 3 || m == 5 || m == 8 || m == 10 then 30
    else 31
  }

  /** The days of year `y` before the first of month `m`. */
  function DaysBeforeMonth(y: int, m: nat): nat
    requires m <= 12
  {
    if m == 0 then 0 else DaysBeforeMonth(y, m - 1) + DaysInMonth(y, m - 1)
  }

  /** The largest distance from the epoch, in days, of a valid time value (8.64e15 ms). */
  const MaxDays: int := 100000000

  /** The full year `new Date` uses: a year from 0 to 99 means 1900 to 1999. */
  function FullYear(y: int): int {
    if 0 <= y <= 99 then 1900 + y else y
  }

  /** The day of `new Date(year, month, day)`: months past December carry into the
      year, days past the end of the month into the following months; `None` is the
      invalid date that a result beyond the time value range gives. */
  function DateDay(p: DateParts): (r: Option<int>)
    ensures r.Some? ==> -MaxDays <= r.value <= MaxDays
  {
    var t := DayNumber(p);
    if -MaxDays <= t <= MaxDays then Some(t) else None
  }

  /** The day `new Date(year, month, day)` names, before the range check. */
  function DayNumber(p: DateParts): int {
    var y := FullYear(p.year) + p.month / 12;
    DayFromYear(y) + DaysBeforeMonth(y, p.month % 12) + p.day - 1
  }

  lemma Step4(y: int)
    ensures (y - 1968) / 4 - (y - 1969) / 4 == if y % 4 == 0 then 1 else 0
  {
    assert (y - 1968) % 4 == y % 4;
  }

  lemma Step100(y: int)
    ensures (y - 1900) / 100 - (y - 1901) / 100 == if y % 100 == 0 then 1 else 0
  {
    assert (y - 1900) % 100 == y % 100;
  }

  lemma Step400(y: int)
    ensures (y - 1600) / 400 - (y - 1601) / 400 == if y % 400 == 0 then 1 else 0
  {
    assert (y - 1600) % 400 == y % 400;
  }

  /** A year has 366 days when it is a leap year and 365 otherwise. */
  lemma YearLength(y: int)
    ensures DayFromYear(y + 1) - DayFromYear(y) == if IsLeapYear(y) then 366 else 365
  {
    Step4(y);
    Step100(y);
    Step400(y);
    Divisors(y);
    var d4 := (y - 1968) / 4 - (y - 1969) / 4;
    var d100 := (y - 1900) / 100 - (y - 1901) / 100;
    var d400 := (y - 1600) / 400 - (y - 1601) / 400;
    assert DayFromYear(y + 1) - DayFromYear(y) == 365 + d4 - d100 + d400;
  }

  /** A multiple of 400 is one of 100, and a multiple of 100 is one of 4. */
  lemma Divisors(y: int)
    ensures y % 400 == 0 ==> y % 100 == 0
    ensures y % 100 == 0 ==> y % 4 == 0
  {
    if y % 400 == 0 {
      assert y / 100 == 4 * (y / 400);
    }
    if y % 100 == 0 {
      assert y / 4 == 25 * (y / 100);
    }
  }

  /** The months of a year add up to the year. */
  lemma MonthsMakeYear(y: int)
    ensures DayFromYear(y) + DaysBeforeMonth(y, 12) == DayFromYear(y + 1)
  {
    var feb := DaysInMonth(y, 1);
    assert DaysBeforeMonth(y, 1) == 31;
    assert DaysBeforeMonth(y, 2) == 31 + feb;
    assert DaysBeforeMonth(y, 3) == 62 + feb;
    assert DaysBeforeMonth(y, 4) == 92 + feb;
    assert DaysBeforeMonth(y, 5) == 123 + feb;
    assert DaysBeforeMonth(y, 6) == 153 + feb;
    assert DaysBeforeMonth(y, 7) == 184 + feb;
    assert DaysBeforeMonth(y, 8) == 215 + feb;
    assert DaysBeforeMonth(y, 9) == 245 + feb;
    assert DaysBeforeMonth(y, 10) == 276 + feb;
    assert DaysBeforeMonth(y, 11) == 306 + feb;
    assert DaysBeforeMonth(y, 12) == 337 + feb;
    YearLength(y);
  }

  lemma MonthCarry(m: int)
    ensures (m + 1) / 12 == m / 12 + (if m % 12 == 11 then 1 else 0)
    ensures (m + 1) % 12 == if m % 12 == 11 then 0 else m % 12 + 1
  {
  }

  /** The first day after month `m` of year `y`, counted from the epoch. */
  lemma NextMonthStart(y: int, m: nat)
    requires m < 12
    ensures DayFromYear(y) + DaysBeforeMonth(y, m) + DaysInMonth(y, m)
      == if m == 11 then DayFromYear(y + 1) else DayFromYear(y) + DaysBeforeMonth(y, m + 1)
  {
    if m == 11 {
      MonthsMakeYear(y);
    }
  }

  /** The day after the last of a month is the first of the next month, December
      running into January of the following year. */
  lemma MonthRollover(year: int, month: int)
    ensures var y := FullYear(year) + month / 12;
      DateDay(DateParts(year, month, DaysInMonth(y, month % 12) + 1))
        == DateDay(DateParts(year, month + 1, 1))
  {
    var y := FullYear(year) + month / 12;
    MonthCarry(month);
    if month % 12 == 11 {
      DecemberRollover(year, month, y);
    } else {
      InYearRollover(year, month, y, month % 12);
    }
  }

  lemma DecemberRollover(year: int, month: int, y: int)
    requires y == FullYear(year) + month / 12 && month % 12 == 11
    requires (month + 1) / 12 == month / 12 + 1 && (month + 1) % 12 == 0
    ensures DayNumber(DateParts(year, month, DaysInMonth(y, 11) + 1)) == DayNumber(DateParts(year, month + 1, 1))
  {
    NextMonthStart(y, 11);
  }

  lemma InYearRollover(year: int, month: int, y: int, m: nat)
    requires y == FullYear(year) + month / 12 && m == month % 12 && m < 11
    requires (month + 1) / 12 == month / 12 && (month + 1) % 12 == m + 1
    ensures DayNumber(DateParts(year, month, DaysInMonth(y, m) + 1)) == DayNumber(DateParts(year, month + 1, 1))
  {
    NextMonthStart(y, m);
  }
}
