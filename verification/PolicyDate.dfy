/**
 The start date of an immutability policy, src/ds/immutable_policy.cc: seconds since the epoch from a
 broken-down date by the formula of section 4.19 of the POSIX.1-2024 Base Definitions.
 */
module PolicyDate {
  import opened Blocks

  const MINUTE := 60
  const HOUR := 3600
  const DAY := 86400

  /** A broken-down UTC time; years count from 1900, days of the year from 0. */
  datatype Tm = Tm(sec: nat, min: nat, hour: nat, yday: nat, year: nat)

  predicate IsLeap(y: nat) {
    y % 4 == 0 && (y % 100 != 0 || y % 400 == 0)
  }

  function DaysIn(y: nat): nat {
    if IsLeap(y) then 366 else 365
  }

  /** The year and the day of the year that lie `days` after the first of January of year y. */
  function YearAndDay(days: nat, y: nat): (r: (nat, nat))
    ensures r.0 >= y && r.1 < DaysIn(r.0)
    decreases days
  {
    if days < DaysIn(y) then (y, days) else YearAndDay(days - DaysIn(y), y + 1)
  }

  /** The Gregorian date and time of second t after the epoch. */
  function GmTime(t: nat): (tm: Tm)
    ensures tm.sec < 60 && tm.min < 60 && tm.hour < 24 && tm.year >= 70 && tm.yday < 366
  {
    var (y, d) := YearAndDay(t / DAY, 1970);
    Tm(t % MINUTE, t % HOUR / MINUTE, t % DAY / HOUR, d, y - 1900)
  }

  /** Integer division of numbers that are not negative. */
  function Quotient(n: nat, p: nat): nat
    requires p > 0
  {
    n / p
  }

  /** The terms of the formula, in the order they are added. */
  function Terms(tm: Tm): seq<int>
    requires tm.year >= 70
  {
    [tm.sec, tm.min * MINUTE, tm.hour * HOUR, tm.yday * DAY, (tm.year - 70) * 31536000,
     Quotient(tm.year - 69, 4) * DAY, -(Quotient(tm.year - 1, 100) * DAY), Quotient(tm.year + 299, 400) * DAY]
  }

  function Total(terms: seq<int>): int {
    if terms == [] then 0 else Total(terms[..|terms| - 1]) + terms[|terms| - 1]
  }

  function ToSeconds(tm: Tm): int
    requires tm.year >= 70
  {
    Total(Terms(tm))
  }

  predicate FitsInt(x: int) {
    -0x8000_0000 <= x < 0x8000_0000
  }

  /** No term and no partial sum leaves the range of a 32-bit int. */
  ghost predicate NoOverflow(tm: Tm)
    requires tm.year >= 70
  {
    && (forall i :: 0 <= i < 8 ==> FitsInt(Terms(tm)[i]))
    && (forall i :: 0 <= i <= 8 ==> FitsInt(Total(Terms(tm)[..i])))
  }

  /** Days from the epoch to the start of year y, by counting years. */
  function DaysTo(y: nat): nat
    requires y >= 1970
  {
    if y == 1970 then 0 else DaysTo(y - 1) + DaysIn(y - 1)
  }

  lemma DivStep(n: nat, p: nat)
    requires p > 0
    ensures Quotient(n + 1, p) == Quotient(n, p) + if (n + 1) % p == 0 then 1 else 0
  {
    var q, r := n / p, n % p;
    assert n == p * q + r;
    if r + 1 == p {
      ModUnique(n + 1, q + 1, 0, p);
    } else {
      ModUnique(n + 1, q, r + 1, p);
    }
  }

  /** How the quotients of the formula grow with the year. */
  lemma QuotientsGrow(y: nat)
    requires y >= 1970
    ensures Quotient(y - 1968, 4) == Quotient(y - 1969, 4) + Ones(y, 4)
    ensures Quotient(y - 1900, 100) == Quotient(y - 1901, 100) + Ones(y, 100)
    ensures Quotient(y - 1600, 400) == Quotient(y - 1601, 400) + Ones(y, 400)
  {
    hide Quotient;
    DivStep(y - 1969, 4);
    DivStep(y - 1901, 100);
    DivStep(y - 1601, 400);
    Shifted(y, 1968, 4);
    Shifted(y, 1900, 100);
    Shifted(y, 1600, 400);
  }

  /** One for the years that p divides. */
  function Ones(y: nat, p: nat): nat
    requires p > 0
  {
    if y % p == 0 then 1 else 0
  }

  lemma Shifted(y: nat, d: nat, p: nat)
    requires d <= y && p > 0 && d % p == 0
    ensures (y - d) % p == y % p
  {
    ModAdds(d, y - d, p);
  }

  lemma LeapDay(y: nat)
    ensures DaysIn(y) == 365 + Ones(y, 4) - Ones(y, 100) + Ones(y, 400)
  {
    NestedMod(y, 100, 4);
    NestedMod(y, 4, 25);
    LeapCases(y % 4, y % 100, y % 400);
  }

  lemma LeapCases(a: nat, b: nat, c: nat)
    requires a == b % 4 && b == c % 100
    ensures c == 0 ==> b == 0
    ensures b == 0 ==> a == 0
  {
  }

  lemma EpochQuotients()
    ensures Quotient(1, 4) == Quotient(69, 100) == Quotient(369, 400) == 0
  {
  }

  /** The formula counts the same days. */
  lemma {:induction false} DaysToFormula(y: nat)
    requires y >= 1970
    ensures DaysTo(y) == 365 * (y - 1970) + Quotient(y - 1969, 4) - Quotient(y - 1901, 100) + Quotient(y - 1601, 400)
  {
    hide DaysIn, Quotient, Ones;
    if y == 1970 {
      EpochQuotients();
    } else {
      DaysToFormula(y - 1);
      QuotientsGrow(y - 1);
      LeapDay(y - 1);
    }
  }

  lemma {:induction false} YearAndDayAdds(days: nat, y: nat)
    requires y >= 1970
    ensures var r := YearAndDay(days, y); DaysTo(r.0) + r.1 == DaysTo(y) + days
    decreases days
  {
    if days >= DaysIn(y) {
      YearAndDayAdds(days - DaysIn(y), y + 1);
    }
  }

  lemma TotalOf(tm: Tm)
    requires tm.year >= 70
    ensures Total(Terms(tm)[..8]) == ToSeconds(tm)
    ensures var leaps := Quotient(tm.year - 69, 4) - Quotient(tm.year - 1, 100) + Quotient(tm.year + 299, 400);
            ToSeconds(tm) ==
              tm.sec + tm.min * MINUTE + tm.hour * HOUR + DAY * (tm.yday + 365 * (tm.year - 70) + leaps)
  {
    var ts := Terms(tm);
    assert ts[..8] == ts;
    Unrolled(ts);
  }

  lemma Unrolled(ts: seq<int>)
    requires |ts| == 8
    ensures Total(ts[..0]) == 0 && Total(ts[..1]) == ts[0] && Total(ts[..2]) == ts[0] + ts[1]
    ensures Total(ts[..3]) == ts[0] + ts[1] + ts[2]
    ensures Total(ts[..4]) == ts[0] + ts[1] + ts[2] + ts[3] && Total(ts[..5]) == Total(ts[..4]) + ts[4]
    ensures Total(ts[..6]) == Total(ts[..5]) + ts[5]
    ensures Total(ts[..7]) == Total(ts[..6]) + ts[6] && Total(ts[..8]) == Total(ts[..7]) + ts[7] && ts[..8] == ts
  {
    assert ts[..1][..0] == ts[..0] && ts[..2][..1] == ts[..1] && ts[..3][..2] == ts[..2] && ts[..4][..3] == ts[..3];
    assert ts[..5][..4] == ts[..4] && ts[..6][..5] == ts[..5] && ts[..7][..6] == ts[..6] && ts[..8][..7] == ts[..7];
  }

  lemma TimeOfDay(t: nat)
    ensures t % MINUTE + t % HOUR / MINUTE * MINUTE + t % DAY / HOUR * HOUR == t % DAY
    ensures t == t % DAY + t / DAY * DAY
  {
    NestedMod(t, MINUTE, 60);
    NestedMod(t, HOUR, 24);
  }

  lemma NestedMod(t: nat, p: nat, c: nat)
    requires p > 0 && c > 0
    ensures p * c > 0 && t % (p * c) % p == t % p
  {
    MulSteps(p, 0, c);
    var q, r := t / (p * c), t % (p * c);
    assert t == p * (c * q) + r;
    ModUnique(p * (c * q), c * q, 0, p);
    ModAdds(p * (c * q), r, p);
  }

  /** The formula gives back every second after the epoch from its Gregorian date. */
  lemma SecondsOfDate(t: nat)
    ensures ToSeconds(GmTime(t)) == t
  {
    hide Total, Terms, DaysTo, YearAndDay, ToSeconds, Quotient;
    var (y, d) := YearAndDay(t / DAY, 1970);
    YearAndDayAdds(t / DAY, 1970);
    EpochDays();
    DaysToFormula(y);
    TotalOf(GmTime(t));
    TimeOfDay(t);
  }

  lemma EpochDays()
    ensures DaysTo(1970) == 0
  {
  }

  /** The sum up to the year never exceeds t, and neither do the sums after it, before 2038. */
  lemma SumsStayBelow(t: nat)
    requires t < 0x8000_0000
    ensures NoOverflow(GmTime(t))
  {
    hide Total, ToSeconds, GmTime, Terms, Quotient;
    var tm := GmTime(t);
    SecondsOfDate(t);
    TermsOf(tm);
    TotalOf(tm);
    Unrolled(Terms(tm));
    YearBound(t);
    LeapsBound(tm.year);
    assert tm.yday < 366 && tm.hour < 24 && tm.min < 60 && tm.sec < 60;
  }

  lemma TermsOf(tm: Tm)
    requires tm.year >= 70
    ensures |Terms(tm)| == 8
    ensures Terms(tm) == [tm.sec, tm.min * MINUTE, tm.hour * HOUR, tm.yday * DAY, (tm.year - 70) * 31536000,
                          Quotient(tm.year - 69, 4) * DAY, -(Quotient(tm.year - 1, 100) * DAY),
                          Quotient(tm.year + 299, 400) * DAY]
  {
  }

  lemma LeapsBound(y: nat)
    requires 70 <= y <= 138
    ensures Quotient(y - 69, 4) <= 17 && Quotient(y - 1, 100) == Quotient(y + 299, 400) == if y <= 100 then 0 else 1
  {
  }

  lemma LeapsCount(y: nat)
    requires y >= 70
    ensures Quotient(y - 69, 4) + Quotient(y + 299, 400) >= Quotient(y - 1, 100)
  {
  }

  /** 32-bit times end in 2038. */
  lemma YearBound(t: nat)
    requires t < 0x8000_0000
    ensures 70 <= GmTime(t).year <= 138
  {
    hide Total, ToSeconds, GmTime, Terms, Quotient;
    SecondsOfDate(t);
    LeapsCount(GmTime(t).year);
    TotalOf(GmTime(t));
  }

  /** The computation stays within 32 bits exactly for the times that do. */
  lemma OverflowExactly(t: nat)
    ensures NoOverflow(GmTime(t)) <==> t < 0x8000_0000
  {
    hide Total, ToSeconds, GmTime, Terms, Quotient;
    if t < 0x8000_0000 {
      SumsStayBelow(t);
    } else {
      SecondsOfDate(t);
      TotalOf(GmTime(t));
    }
  }

  /** The last second that fits, 03:14:07 on 19 January 2038, and the one after it. */
  lemma FirstOverflow()
    ensures NoOverflow(GmTime(0x7fff_ffff)) && !NoOverflow(GmTime(0x8000_0000))
  {
    OverflowExactly(0x7fff_ffff);
    OverflowExactly(0x8000_0000);
  }

  class ImmutablePolicy {
    var start: nat
    var duration: nat

    /** A policy starts at midnight. */
    ghost predicate Valid()
      reads this
    {
      start % DAY == 0
    }

    constructor ()
      ensures Valid() && start == 0 && duration == 0
    {
      start, duration := 0, 0;
    }

    /** Sets the start to 00:00:00 of the day of t; refused on the day of the epoch. */
    method SetStartDate(t: nat) returns (ok: bool)
      requires Valid()
      modifies this`start
      ensures Valid() && (ok <==> t >= DAY)
      ensures start == if ok then t - t % DAY else old(start)
    {
      var tm := GmTime(t).(sec := 0, min := 0, hour := 0);
      MidnightOfDate(t);
      hide ToSeconds, GmTime;
      var seconds := ToSeconds(tm);
      if seconds == 0 {
        return false;
      }
      start := seconds;
      ok := true;
    }

    /** Must be at least one day; the counter has 16 bits. */
    method SetDuration(days: nat) returns (ok: bool)
      requires Valid() && days < 0x1_0000
      modifies this`duration
      ensures ok <==> days > 0
      ensures duration == if ok then days else old(duration)
    {
      ok := days > 0;
      if ok {
        duration := days;
      }
    }

    /** A policy ends at midnight, `duration` days after it starts. */
    function EndDate(): (end: nat)
      requires Valid()
      reads this
      ensures end % DAY == 0 && (end - start) / DAY == duration
    {
      start + DAY * duration
    }

    /** Setting the start to what it was set to changes nothing. */
    method SetStartDateTwice(t: nat) returns (ok: bool, again: bool)
      requires Valid()
      modifies this`start
      ensures Valid() && again == ok && (ok ==> start == t - t % DAY)
    {
      ok := SetStartDate(t);
      again := false;
      if ok {
        again := SetStartDate(start);
      }
    }
  }

  /** Clearing the time of day takes off the seconds since midnight. */
  lemma MidnightOfDate(t: nat)
    ensures ToSeconds(GmTime(t).(sec := 0, min := 0, hour := 0)) == t - t % DAY
  {
    hide Total, Terms, YearAndDay, ToSeconds, Quotient;
    SecondsOfDate(t);
    TimeOfDay(t);
    TotalOf(GmTime(t));
    TotalOf(GmTime(t).(sec := 0, min := 0, hour := 0));
  }
}
