/** Directory time stamps: from seconds since 1970 to the packed date and time of a FAT directory record, under a
    calendar in which every fourth year is a leap year. */
module FatTime {
  import opened Bytes

  const DAY: nat := 86400
  const START_OF_1980: nat := 315532800
  const MONTHS: seq<nat> := [31, 28, 31, 30, 31, 30, 31, 31, 30, 31, 30, 31]

  predicate LeapYear(year: nat) {
    year % 4 == 0
  }

  function DaysInYear(year: nat): nat {
    if LeapYear(year) then 366 else 365
  }

  /** The month table while the given year is looked up. */
  function MonthTable(year: nat): (s: seq<nat>)
    ensures |s| == 12
  {
    if LeapYear(year) then MONTHS[1 := 29] else MONTHS
  }

  datatype Stamp = Stamp(year: nat, month: nat, day: nat, hour: nat, minute: nat, second: nat)
  {
    predicate Valid() {
      && 1980 <= year < 2108 && 1 <= month <= 12 && 1 <= day <= MonthTable(year)[month - 1]
      && hour < 24 && minute < 60 && second < 60
    }

    /** Seconds since 1970. */
    function Unix(): nat
      requires 1 <= day
    {
      (DaysBeforeYear(year) + DaysBeforeMonth(MonthTable(year), month) + day - 1) * 86400
      + hour * 3600 + minute * 60 + second
    }

    function ToEvenSecond(): Stamp {
      this.(second := second / 2 * 2)
    }

    /** The stamp names second `tim` in the Gregorian calendar. */
    predicate IsGregorian(tim: nat) {
      && 1 <= month <= 12 && 1 <= day <= GregorianTable(year)[month - 1] && hour < 24 && minute < 60 && second < 60
      && (GregorianDaysBeforeYear(year) + DaysBeforeMonth(GregorianTable(year), month) + day - 1) * 86400
         + hour * 3600 + minute * 60 + second == tim
    }
  }

  function DaysBeforeYear(year: nat): nat {
    if year <= 1970 then 0 else DaysBeforeYear(year - 1) + DaysInYear(year - 1)
  }

  /** Days in the months before month `month`, the first of which is month 1. */
  function DaysBeforeMonth(table: seq<nat>, month: nat): nat {
    if month <= 1 || month > |table| + 1 then 0 else DaysBeforeMonth(table, month - 1) + table[month - 2]
  }

  // ---- The Gregorian calendar ----

  predicate GregorianLeapYear(year: nat) {
    year % 4 == 0 && (year % 100 != 0 || year % 400 == 0)
  }

  function GregorianTable(year: nat): (s: seq<nat>)
    ensures |s| == 12
  {
    if GregorianLeapYear(year) then MONTHS[1 := 29] else MONTHS
  }

  function GregorianDaysBeforeYear(year: nat): nat {
    if year <= 1970 then 0
    else GregorianDaysBeforeYear(year - 1) + if GregorianLeapYear(year - 1) then 366 else 365
  }

  lemma {:induction false} GregorianYears(year: nat)
    requires 1970 <= year < 2108
    ensures DaysBeforeYear(year) == GregorianDaysBeforeYear(year) + if year <= 2100 then 0 else 1
  {
    if year > 1970 {
      GregorianYears(year - 1);
      NextYear(year - 1);
    }
  }

  lemma NextYear(year: nat)
    requires 1970 <= year < 2107
    ensures DaysBeforeYear(year + 1) == DaysBeforeYear(year) + if LeapYear(year) then 366 else 365
    ensures GregorianDaysBeforeYear(year + 1) ==
      GregorianDaysBeforeYear(year) + if LeapYear(year) && year != 2100 then 366 else 365
    ensures LeapYear(2100)
  {
    LeapYearsAgree(year);
  }

  lemma LeapYearsAgree(year: nat)
    requires 1970 <= year < 2108
    ensures GregorianLeapYear(year) <==> LeapYear(year) && year != 2100
  {
  }

  lemma {:induction false} FourYears(k: nat)
    ensures DaysBeforeYear(1972 + 4 * k) == 730 + 1461 * k
  {
    if k > 0 {
      FourYears(k - 1);
      var y := 1972 + 4 * (k - 1);
      assert DaysBeforeYear(y + 2) == DaysBeforeYear(y) + 731;
      assert DaysBeforeYear(y + 4) == DaysBeforeYear(y) + 1461;
    } else {
      assert DaysBeforeYear(1971) == 365;
    }
  }

  lemma {:induction false} MarchOn(month: nat)
    requires 3 <= month <= 13
    ensures DaysBeforeMonth(MONTHS[1 := 29], month) == DaysBeforeMonth(MONTHS, month) + 1
  {
    if month > 3 {
      MarchOn(month - 1);
    } else {
      assert DaysBeforeMonth(MONTHS, 2) == 31 && DaysBeforeMonth(MONTHS[1 := 29], 2) == 31;
    }
  }

  /** The source's calendar is the Gregorian one until the end of February 2100, and never again while its years last:
      it has a February 29 in 2100. */
  lemma GregorianIff(s: Stamp)
    requires s.Valid()
    ensures s.IsGregorian(s.Unix()) <==> s.Unix() < 4107542400
  {
    GregorianYears(s.year);
    if s.year < 2100 {
      Before2100(s);
    } else if s.year == 2100 {
      In2100(s);
    } else {
      After2100(s);
    }
  }

  /** How many days of 1970 to 2099 there are. */
  lemma StartOf2100()
    ensures DaysBeforeYear(2100) == 47482
  {
    FourYears(32);
  }

  lemma Before2100(s: Stamp)
    requires s.Valid() && s.year < 2100
    ensures s.Unix() < 47482 * 86400 && MonthTable(s.year) == GregorianTable(s.year)
  {
    var before, table := DaysBeforeYear(s.year), MonthTable(s.year);
    LeapYearsAgree(s.year);
    DayInYear(s);
    YearsGrow(s.year + 1, 2100);
    StartOf2100();
    assert before + DaysInYear(s.year) == DaysBeforeYear(s.year + 1);
    SecondsOf(before + DaysBeforeMonth(table, s.month) + s.day - 1, 47482, s.hour, s.minute, s.second);
  }

  lemma DayInYear(s: Stamp)
    requires s.Valid()
    ensures DaysBeforeMonth(MonthTable(s.year), s.month) + s.day <= DaysInYear(s.year)
  {
    YearIsItsMonths(s.year);
    MonthsGrow(MonthTable(s.year), s.month + 1, 13);
  }

  lemma SecondsOf(days: nat, bound: nat, hour: nat, minute: nat, second: nat)
    requires days < bound && hour < 24 && minute < 60 && second < 60
    ensures days * 86400 + hour * 3600 + minute * 60 + second < bound * 86400
  {
  }

  lemma After2100(s: Stamp)
    requires s.Valid() && s.year > 2100
    ensures s.Unix() >= 47848 * 86400 && MonthTable(s.year) == GregorianTable(s.year)
  {
    StartOf2100();
    LeapYearsAgree(s.year);
    YearsGrow(2101, s.year);
  }

  lemma In2100(s: Stamp)
    requires s.Valid() && s.year == 2100 && DaysBeforeYear(2100) == GregorianDaysBeforeYear(2100)
    ensures s.IsGregorian(s.Unix()) <==> s.Unix() < 4107542400
  {
    StartOf2100();
    var t := MONTHS[1 := 29];
    assert DaysBeforeMonth(t, 1) == 0 && DaysBeforeMonth(t, 2) == 31 && DaysBeforeMonth(t, 3) == 60;
    assert DaysBeforeMonth(MONTHS, 1) == 0 && DaysBeforeMonth(MONTHS, 2) == 31;
    if s.month >= 3 {
      MarchOn(s.month);
      MonthsGrow(t, 3, s.month);
    }
  }

  lemma {:induction false} DaysBeforeYearGrows(year: nat)
    requires year >= 1970
    ensures DaysBeforeYear(year) >= 365 * (year - 1970)
  {
    if year > 1970 {
      DaysBeforeYearGrows(year - 1);
    }
  }

  lemma {:induction false} MonthsGrow(table: seq<nat>, m: nat, n: nat)
    requires 1 <= m <= n <= |table| + 1
    ensures DaysBeforeMonth(table, m) <= DaysBeforeMonth(table, n)
  {
    if m < n {
      MonthsGrow(table, m, n - 1);
    }
  }

  lemma YearIsItsMonths(year: nat)
    ensures DaysBeforeMonth(MonthTable(year), 13) == DaysInYear(year)
  {
    var t := MonthTable(year);
    assert DaysBeforeMonth(t, 5) == 92 + t[1];
    assert DaysBeforeMonth(t, 9) == 215 + t[1];
  }

  // ---- The packed form ----

  function Encode(s: Stamp): nat
    requires 1980 <= s.year
  {
    BitOr(BitOr(BitOr((s.year - 1980) * 512, s.month * 32), s.day) * 0x1_0000,
          BitOr(BitOr(s.hour * 2048, s.minute * 32), s.second / 2))
  }

  function Decode(x: nat): Stamp {
    var date, time := x / 0x1_0000, x % 0x1_0000;
    Stamp(date / 512 + 1980, date / 32 % 16, date % 32, time / 2048, time / 32 % 64, time % 32 * 2)
  }

  lemma Powers()
    ensures Pow2(5) == 32 && Pow2(9) == 512 && Pow2(11) == 2048 && Pow2(16) == 0x1_0000
  {
    assert Pow2(5) == 32;
    Pow2Add(5, 4);
    Pow2Add(5, 6);
    Pow2Add(11, 5);
  }

  function DateSum(s: Stamp): nat
    requires 1980 <= s.year
  {
    (s.year - 1980) * 512 + s.month * 32 + s.day
  }

  function TimeSum(s: Stamp): nat {
    s.hour * 2048 + s.minute * 32 + s.second / 2
  }

  lemma ShortMonths(year: nat, month: nat)
    requires 1 <= month <= 12
    ensures MonthTable(year)[month - 1] < 32
  {
  }

  lemma DateAdds(s: Stamp)
    requires s.Valid()
    ensures BitOr(BitOr((s.year - 1980) * 512, s.month * 32), s.day) == DateSum(s) < 0x1_0000
  {
    ShortMonths(s.year, s.month);
    FieldsAdd(s.year - 1980, s.month, s.day);
  }

  lemma FieldsAdd(y: nat, m: nat, d: nat)
    requires y < 128 && m < 16 && d < 32
    ensures BitOr(BitOr(y * 512, m * 32), d) == y * 512 + m * 32 + d < 0x1_0000
  {
    Powers();
    OrAdds(m * 32, y, 9);
    OrAdds(d, y * 16 + m, 5);
  }

  lemma TimeAdds(s: Stamp)
    requires s.Valid()
    ensures BitOr(BitOr(s.hour * 2048, s.minute * 32), s.second / 2) == TimeSum(s) < 0x1_0000
  {
    Powers();
    OrAdds(s.minute * 32, s.hour, 11);
    OrAdds(s.second / 2, s.hour * 64 + s.minute, 5);
  }

  /** The fields do not overlap, so packing adds them up. */
  lemma EncodeAdds(s: Stamp)
    requires s.Valid()
    ensures Encode(s) == DateSum(s) * 0x1_0000 + TimeSum(s) < TWO_32 && TimeSum(s) < 0x1_0000
  {
    DateAdds(s);
    TimeAdds(s);
    Powers();
    OrAdds(TimeSum(s), DateSum(s), 16);
  }

  lemma OrAdds(low: nat, high: nat, k: nat)
    requires low < Pow2(k)
    ensures BitOr(high * Pow2(k), low) == high * Pow2(k) + low
  {
    BitOrDisjoint(low, high, k);
    BitOrCommutes(low, high * Pow2(k));
  }

  /** Unpacking gives the stamp back, but for an odd second. */
  lemma DecodeEncode(s: Stamp)
    requires s.Valid()
    ensures Decode(Encode(s)) == s.ToEvenSecond()
  {
    EncodeAdds(s);
    ShortMonths(s.year, s.month);
    DateParts(s.year - 1980, s.month, s.day);
    TimeParts(s.hour, s.minute, s.second / 2);
    Halves(DateSum(s), TimeSum(s));
  }

  lemma DateParts(y: nat, m: nat, d: nat)
    requires m < 16 && d < 32
    ensures var date := y * 512 + m * 32 + d; date / 512 == y && date / 32 % 16 == m && date % 32 == d
  {
  }

  lemma TimeParts(h: nat, m: nat, s: nat)
    requires h < 32 && m < 64 && s < 32
    ensures var time := h * 2048 + m * 32 + s;
      time < 0x1_0000 && time / 2048 == h && time / 32 % 64 == m && time % 32 == s
  {
  }

  lemma Halves(high: nat, low: nat)
    requires low < 0x1_0000
    ensures (high * 0x1_0000 + low) / 0x1_0000 == high && (high * 0x1_0000 + low) % 0x1_0000 == low
  {
  }

  class Calendar {
    const monthDays: array<nat>

    constructor ()
      ensures monthDays[..] == MONTHS && fresh(monthDays)
    {
      monthDays := new nat[12](i requires 0 <= i < 12 => MONTHS[i]);
      new;
      assert monthDays[..] == MONTHS;
    }

    /** The packed form of the second `tim`: unpacking it gives a date of the calendar that is `tim` rounded down to an
        even second. The month table is changed during the search and put back. */
    method CmaTimeFromUnix(tim: nat) returns (r: nat)
      requires monthDays[..] == MONTHS && START_OF_1980 <= tim < TWO_32
      modifies monthDays
      ensures monthDays[..] == MONTHS
      ensures Decode(r).Valid() && Decode(r).Unix() == tim - tim % 2 && r == Encode(Decode(r)) && r < TWO_32
      ensures Decode(r).IsGregorian(tim - tim % 2) <==> tim < 4107542400
    {
      var stamp := FindStamp(tim);
      r := Encode(stamp);
      PackedTime(stamp, tim, r);
    }

    method FindStamp(tim: nat) returns (stamp: Stamp)
      requires monthDays[..] == MONTHS && START_OF_1980 <= tim < TWO_32
      modifies monthDays
      ensures monthDays[..] == MONTHS && stamp.Valid() && stamp.Unix() == tim
    {
      var day, tmp := tim / DAY, tim % DAY;
      var hour, minute, second := tmp / 3600, tmp % 3600 / 60, tmp % 3600 % 60;
      var year;
      year, day := FindYear(day);
      if LeapYear(year) {
        monthDays[1] := 29;
      }
      assert monthDays[..] == MonthTable(year);
      YearIsItsMonths(year);
      var month;
      month, day := FindMonth(MonthTable(year), day);
      monthDays[1] := 28;
      assert monthDays[..] == MONTHS;
      day := day + 1;
      return Stamp(year, month, day, hour, minute, second);
    }

    method FindYear(days: nat) returns (year: nat, day: nat)
      requires START_OF_1980 / DAY <= days < TWO_32 / DAY + 1
      ensures 1980 <= year < 2108 && day < DaysInYear(year) && DaysBeforeYear(year) + day == days
    {
      year, day := 1970, days;
      while day >= DaysInYear(year)
        invariant year >= 1970 && DaysBeforeYear(year) + day == days
        decreases day
      {
        day := day - DaysInYear(year);
        year := year + 1;
      }
      DaysBeforeYearGrows(year);
      YearsStart();
      if year < 1980 {
        YearsGrow(year + 1, 1980);
      }
    }

    method FindMonth(ghost table: seq<nat>, days: nat) returns (month: nat, day: nat)
      requires monthDays[..] == table && |table| == 12 && days < DaysBeforeMonth(table, 13)
      requires forall k | 0 <= k < 12 :: table[k] > 0
      ensures 1 <= month <= 12 && day < table[month - 1] && DaysBeforeMonth(table, month) + day == days
    {
      assert forall k | 0 <= k < 12 :: monthDays[k] == table[k];
      month, day := 1, days;
      while day >= monthDays[month - 1]
        invariant 1 <= month <= 12 && DaysBeforeMonth(table, month) + day == days
        decreases day
      {
        day := day - monthDays[month - 1];
        month := month + 1;
        assert DaysBeforeMonth(table, month) + day == days;
      }
    }
  }

  lemma YearsStart()
    ensures DaysBeforeYear(1980) == START_OF_1980 / DAY
  {
    assert DaysBeforeYear(1974) == 1461;
    assert DaysBeforeYear(1978) == 2922;
  }

  lemma {:induction false} YearsGrow(a: nat, b: nat)
    requires a <= b
    ensures DaysBeforeYear(a) <= DaysBeforeYear(b)
  {
    if a < b {
      YearsGrow(a, b - 1);
    }
  }

  lemma PackedTime(s: Stamp, tim: nat, r: nat)
    requires s.Valid() && s.Unix() == tim && r == Encode(s)
    ensures Decode(r).Valid() && Decode(r).Unix() == tim - tim % 2 && r == Encode(Decode(r)) && r < TWO_32
    ensures Decode(r).IsGregorian(tim - tim % 2) <==> tim < 4107542400
  {
    PackedStamp(s, tim);
    GregorianEven(Decode(r), tim);
  }

  lemma GregorianEven(s: Stamp, tim: nat)
    requires s.Valid() && s.Unix() == tim - tim % 2
    ensures s.IsGregorian(tim - tim % 2) <==> tim < 4107542400
  {
    EvenBelow(tim, 2053771200);
    GregorianTime(s, tim - tim % 2);
  }

  lemma EvenBelow(tim: nat, half: nat)
    ensures tim - tim % 2 < 2 * half <==> tim < 2 * half
  {
  }

  lemma GregorianTime(s: Stamp, even: nat)
    requires s.Valid() && s.Unix() == even
    ensures s.IsGregorian(even) <==> even < 4107542400
  {
    GregorianIff(s);
  }

  lemma PackedStamp(s: Stamp, tim: nat)
    requires s.Valid() && s.Unix() == tim
    ensures Decode(Encode(s)).Valid() && Decode(Encode(s)).Unix() == tim - tim % 2
    ensures Encode(s) == Encode(Decode(Encode(s))) && Encode(s) < TWO_32
  {
    var even := s.ToEvenSecond();
    DecodeEncode(s);
    EncodeAdds(s);
    EncodeAdds(even);
    assert DateSum(s) == DateSum(even) && TimeSum(s) == TimeSum(even);
    EvenDays(DaysBeforeYear(s.year) + DaysBeforeMonth(MonthTable(s.year), s.month) + s.day - 1,
             s.hour, s.minute, s.second);
  }

  lemma EvenDays(days: nat, hour: nat, minute: nat, second: nat)
    ensures (days * 86400 + hour * 3600 + minute * 60 + second) % 2 == second % 2
  {
    assert days * 86400 + hour * 3600 + minute * 60 == 2 * (days * 43200 + hour * 1800 + minute * 30);
  }
}
