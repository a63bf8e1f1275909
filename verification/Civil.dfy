/** Dates and timestamps of the diagnose bundle (crates/vmforge-cli/src/
    diagnose.rs, `civil_from_days` and `utc_timestamp`) against the Gregorian
    calendar counted day by day. */
module Civil {
  import LayerNames

  datatype Date = Date(year: int, month: int, day: int)

  // ---- the calendar ---------------------------------------------------------------------------

  predicate Leap(y: int) { y % 4 == 0 && (y % 100 != 0 || y % 400 == 0) }

  function MonthLength(y: int, m: int): int {
    if m == 2 then (if Leap(y) then 29 else 28)
    else if m == 4 || m == 6 || m == 9 || m == 11 then 30 else 31
  }

  predicate Valid(d: Date) { 1 <= d.month <= 12 && 1 <= d.day <= MonthLength(d.year, d.month) }

  /** The day after, in the proleptic Gregorian calendar. */
  function Succ(d: Date): Date {
    if d.day < MonthLength(d.year, d.month) then d.(day := d.day + 1)
    else if d.month < 12 then Date(d.year, d.month + 1, 1)
    else Date(d.year + 1, 1, 1)
  }

  // ---- the algorithm ---------------------------------------------------------------------------

  const ERA := 146097

  /** Days before March year `yoe` of a 400-year era. */
  function Start(yoe: int): int { 365 * yoe + yoe / 4 - yoe / 100 }

  function YearOfEra(doe: int): int {
    (doe - doe / 1460 + doe / 36524 - doe / 146096) / 365
  }

  /** Month and day from the day of a year that begins in March. */
  function FromDay(y: int, doy: int): Date {
    var mp := (5 * doy + 2) / 153;
    var d := doy - (153 * mp + 2) / 5 + 1;
    var m := if mp < 10 then mp + 3 else mp - 9;
    Date(if m <= 2 then y + 1 else y, m, d)
  }

  /** `civil_from_days`: days since 1970-01-01 to a date. */
  function FromDays(days: int): Date {
    var z := days + 719468;
    var era, doe := z / ERA, z % ERA;
    var yoe := YearOfEra(doe);
    FromDay(yoe + era * 400, doe - Start(yoe))
  }

  // ---- the year is right -----------------------------------------------------------------------

  /** One past the last day of March year `yoe` within the era. */
  function End(yoe: int): int { if yoe == 399 then ERA else Start(yoe + 1) }

  /** Whole centuries, whole four-year groups and days over, of a day of the era. */
  lemma Groups(doe: int) returns (c: int, a: int, t: int)
    requires 0 <= doe < ERA
    ensures doe == 36524 * c + 1461 * a + t
    ensures 0 <= c <= 3 && 0 <= a <= 24 && 0 <= t <= 1460 && (c < 3 && a == 24 ==> t < 1460)
  {
    c := if doe < 3 * 36524 then doe / 36524 else 3;
    var r := doe - 36524 * c;
    a, t := r / 1461, r % 1461;
  }

  /** Days over to years over. */
  function YearsOver(t: int): int { if t < 365 then 0 else if t < 730 then 1 else if t < 1095 then 2 else 3 }

  /** The quotients of the formula cancel group by group. */
  lemma YearInGroups(c: int, a: int, t: int)
    requires 0 <= c <= 3 && 0 <= a <= 24 && 0 <= t <= 1460 && (c < 3 && a == 24 ==> t < 1460)
    ensures YearOfEra(36524 * c + 1461 * a + t) == 100 * c + 4 * a + YearsOver(t)
  {
    var doe := 36524 * c + 1461 * a + t;
    var e := if 24 * c + a + t < 1460 then 0 else 1;
    assert doe / 1460 == 25 * c + a + e;
    var last := if c == 3 && a == 24 && t == 1460 then 1 else 0;
    assert doe / 36524 == c + last && doe / 146096 == last;
    assert doe - doe / 1460 + doe / 36524 - doe / 146096 == 365 * (100 * c + 4 * a) + (t - e);
    assert 365 * YearsOver(t) <= t - e < 365 * YearsOver(t) + 365;
  }

  lemma StartInGroups(c: int, a: int, s: int)
    requires 0 <= c <= 3 && 0 <= a <= 24 && 0 <= s <= 3
    ensures Start(100 * c + 4 * a + s) == 36524 * c + 1461 * a + 365 * s
    ensures End(100 * c + 4 * a + s) == 36524 * c + 1461 * a + 365 * (s + 1) + if s == 3 && (a < 24 || c == 3) then 1 else 0
  {
    var y := 100 * c + 4 * a + s;
    assert y / 4 == 25 * c + a && y / 100 == c;
    var more := if s == 3 then 1 else 0;
    var century := if s == 3 && a == 24 then 1 else 0;
    assert (y + 1) / 4 == 25 * c + a + more && (y + 1) / 100 == c + century;
  }

  /** The year found is the one the day lies in. */
  lemma YearHolds(doe: int)
    requires 0 <= doe < ERA
    ensures var y := YearOfEra(doe); 0 <= y <= 399 && Start(y) <= doe < End(y)
  {
    hide YearOfEra, Start, End;
    var c, a, t := Groups(doe);
    YearInGroups(c, a, t);
    StartInGroups(c, a, YearsOver(t));
  }

  /** March years follow one another, so the year is determined by the day. */
  lemma YearIsUnique(doe: int, yoe: int)
    requires 0 <= yoe <= 399 && Start(yoe) <= doe < End(yoe) && 0 <= doe < ERA
    ensures YearOfEra(doe) == yoe
  {
    hide YearOfEra, Start, End;
    var y := YearOfEra(doe);
    YearHolds(doe);
    if y < yoe { EndBeforeStart(y, yoe); }
    if yoe < y { EndBeforeStart(yoe, y); }
  }

  lemma EndBeforeStart(a: int, b: int)
    requires 0 <= a < b <= 399
    ensures End(a) <= Start(b)
  {
  }

  // ---- the month and day are right -------------------------------------------------------------

  /** A March year has 366 days exactly when the February it ends with does. */
  lemma YearLength(era: int, yoe: int)
    requires 0 <= yoe <= 399
    ensures End(yoe) - Start(yoe) == if Leap(yoe + era * 400 + 1) then 366 else 365
  {
    hide Start, End;
    var c, a, s := yoe / 100, yoe % 100 / 4, yoe % 4;
    assert yoe == 100 * c + 4 * a + s;
    StartInGroups(c, a, s);
    LeapInGroups(era, c, a, s);
  }

  lemma WholeEras(era: int, r: int)
    ensures (r + 400 * era) % 400 == r % 400 && (r + 400 * era) % 100 == r % 100 && (r + 400 * era) % 4 == r % 4
  {
    WholeTurns(r, era, 400);
    WholeTurns(r, 4 * era, 100);
    WholeTurns(r, 100 * era, 4);
  }

  lemma WholeTurns(r: int, k: int, d: int)
    requires d == 4 || d == 100 || d == 400
    ensures (r + d * k) % d == r % d
  {
  }

  lemma LeapInGroups(era: int, c: int, a: int, s: int)
    requires 0 <= c <= 3 && 0 <= a <= 24 && 0 <= s <= 3
    ensures Leap(100 * c + 4 * a + s + era * 400 + 1) <==> s == 3 && (a < 24 || c == 3)
  {
    var r := 100 * c + 4 * a + s + 1;
    WholeEras(era, r);
    assert r % 4 == if s == 3 then 0 else s + 1;
    assert r % 100 == if a == 24 && s == 3 then 0 else 4 * a + s + 1;
    assert r % 400 == 0 <==> r == 400;
  }

  lemma FromDayValid(y: int, doy: int)
    requires 0 <= doy <= 365 && (doy == 365 ==> Leap(y + 1))
    ensures Valid(FromDay(y, doy))
  {
    var mp := (5 * doy + 2) / 153;
    assert 0 <= mp <= 11;
  }

  /** Inside a March year, one day on is the next date. */
  lemma FromDayStep(y: int, doy: int)
    requires 0 <= doy < 365 && (doy == 364 ==> Leap(y + 1))
    ensures FromDay(y, doy + 1) == Succ(FromDay(y, doy))
  {
    var mp, mp' := (5 * doy + 2) / 153, (5 * doy + 7) / 153;
    assert 0 <= mp <= 11 && (mp' == mp || mp' == mp + 1);
  }

  /** After its last day comes the first of March. */
  lemma FromDayWraps(y: int, doy: int)
    requires doy == if Leap(y + 1) then 365 else 364
    ensures FromDay(y + 1, 0) == Succ(FromDay(y, doy))
  {
  }

  lemma NextInEra(z: int)
    ensures if z % ERA == ERA - 1 then (z + 1) / ERA == z / ERA + 1 && (z + 1) % ERA == 0
            else (z + 1) / ERA == z / ERA && (z + 1) % ERA == z % ERA + 1
  {
  }

  /** The fast conversion counts days: the next number is the next date, for
      every number, positive or negative. */
  lemma NextDayNextDate(days: int)
    ensures FromDays(days + 1) == Succ(FromDays(days))
  {
    hide YearOfEra, FromDay, Succ, Leap, Start, End;
    var z := days + 719468;
    var era, doe := z / ERA, z % ERA;
    var yoe := YearOfEra(doe);
    YearHolds(doe);
    YearLength(era, yoe);
    NextInEra(z);
    var y, doy := yoe + era * 400, doe - Start(yoe);
    if doe + 1 < End(yoe) {
      EndInEra(yoe);
      YearIsUnique(doe + 1, yoe);
      FromDayStep(y, doy);
    } else if yoe < 399 {
      YearsTouch(yoe);
      YearLength(era, yoe + 1);
      YearIsUnique(doe + 1, yoe + 1);
      FromDayWraps(y, doy);
    } else {
      LastYearEnds();
      YearIsUnique(0, 0);
      FromDayWraps(y, doy);
    }
  }

  lemma EndInEra(yoe: int)
    requires 0 <= yoe <= 399
    ensures End(yoe) <= ERA
  {
  }

  lemma YearsTouch(yoe: int)
    requires 0 <= yoe < 399
    ensures End(yoe) == Start(yoe + 1) < ERA
  {
  }

  lemma LastYearEnds()
    ensures Start(0) == 0 < End(0) && End(399) == ERA
  {
  }

  lemma FirstYear()
    ensures YearOfEra(135080) == 369 && Start(369) == 134774 && FromDay(1969, 306) == Date(1970, 1, 1)
  {
  }

  lemma EpochIsDayZero()
    ensures FromDays(0) == Date(1970, 1, 1)
  {
    hide YearOfEra, FromDay, Start;
    var z := 719468;
    assert z / ERA == 4 && z % ERA == 135080;
    FirstYear();
  }

  lemma DatesAreValid(days: int)
    ensures Valid(FromDays(days))
  {
    hide YearOfEra, FromDay, Valid, Leap, Start, End;
    var z := days + 719468;
    var era, doe := z / ERA, z % ERA;
    YearHolds(doe);
    YearLength(era, YearOfEra(doe));
    FromDayValid(YearOfEra(doe) + era * 400, doe - Start(YearOfEra(doe)));
  }

  // ---- 64-bit integers -----------------------------------------------------------------------

  const I64_MAX := 0x7FFF_FFFF_FFFF_FFFF

  predicate Fits(n: int) { -I64_MAX - 1 <= n <= I64_MAX }

  /** Everything the original computes on the way. */
  function Values(days: int): seq<int> {
    var z := days + 719468;
    var era, doe := z / ERA, z % ERA;
    var yoe := YearOfEra(doe);
    Listed(z, era, doe, doe / 1460, doe / 36524, doe / 146096, yoe, yoe / 4, yoe / 100, doe - Start(yoe), FromDays(days))
  }

  function Listed(z: int, era: int, doe: int, q: int, c: int, last: int, yoe: int, y4: int, y100: int, doy: int, d: Date): seq<int> {
    var mp := (5 * doy + 2) / 153;
    [z, era, doe, q, doe - q, c, doe - q + c, last, doe - q + c - last, yoe, era * 400, yoe + era * 400,
     365 * yoe, y4, 365 * yoe + y4, y100, 365 * yoe + y4 - y100, doy, 5 * doy, 5 * doy + 2, mp, 153 * mp, 153 * mp + 2,
     (153 * mp + 2) / 5, doy - (153 * mp + 2) / 5, mp + 3, mp - 9, d.year, d.month, d.day]
  }

  /** The original overflows in its first addition or not at all: exactly for the
      last 719468 day numbers. */
  lemma FitsExactly(days: int)
    requires Fits(days)
    ensures (forall v :: v in Values(days) ==> Fits(v)) <==> days <= I64_MAX - 719468
  {
    hide YearOfEra, Start, FromDays, Listed, Leap;
    var z := days + 719468;
    var doe := z % ERA;
    var yoe := YearOfEra(doe);
    FirstListed(z, z / ERA, doe, doe / 1460, doe / 36524, doe / 146096, yoe, yoe / 4, yoe / 100, doe - Start(yoe), FromDays(days));
    if z <= I64_MAX {
      YearHolds(doe);
      YearLength(z / ERA, yoe);
      EraBound(z);
      DateBound(days, z);
      Quotients(doe, yoe);
      ListedFit(z, z / ERA, doe, doe / 1460, doe / 36524, doe / 146096, yoe, yoe / 4, yoe / 100, doe - Start(yoe), FromDays(days));
    }
  }

  lemma FirstListed(z: int, era: int, doe: int, q: int, c: int, last: int, yoe: int, y4: int, y100: int, doy: int, d: Date)
    ensures z in Listed(z, era, doe, q, c, last, yoe, y4, y100, doy, d)
  {
    assert Listed(z, era, doe, q, c, last, yoe, y4, y100, doy, d)[0] == z;
  }

  lemma ListedFit(z: int, era: int, doe: int, q: int, c: int, last: int, yoe: int, y4: int, y100: int, doy: int, d: Date)
    requires Fits(z) && -100000000000000 <= era <= 100000000000000 && 0 <= doe < ERA && 0 <= q <= 101 && 0 <= c <= 4 && 0 <= last <= 1
    requires 0 <= yoe <= 399 && 0 <= y4 <= 99 && 0 <= y100 <= 3 && 0 <= doy <= 365
    requires 1 <= d.month <= 12 && 1 <= d.day <= 31 && -40000000000000000 <= d.year <= 40000000000000400
    ensures forall v :: v in Listed(z, era, doe, q, c, last, yoe, y4, y100, doy, d) ==> Fits(v)
  {
    assert 0 <= (5 * doy + 2) / 153 <= 11;
  }

  lemma EraBound(z: int)
    requires -I64_MAX - 1 <= z <= I64_MAX
    ensures -100000000000000 <= z / ERA <= 100000000000000
  {
  }

  lemma Quotients(doe: int, yoe: int)
    requires 0 <= doe < ERA && 0 <= yoe <= 399
    ensures 0 <= doe / 1460 <= 101 && 0 <= doe / 36524 <= 4 && 0 <= doe / 146096 <= 1 && 0 <= yoe / 4 <= 99 && 0 <= yoe / 100 <= 3
  {
  }

  lemma DateBound(days: int, z: int)
    requires z == days + 719468 && -100000000000000 <= z / ERA <= 100000000000000
    ensures var d := FromDays(days); 1 <= d.month <= 12 && 1 <= d.day <= 31 && -40000000000000000 <= d.year <= 40000000000000400
  {
    hide YearOfEra, Start, Leap;
    DatesAreValid(days);
    YearHolds(z % ERA);
  }

  // ---- counting from the epoch -------------------------------------------------------------------

  function YearDays(y: int): int { if Leap(y) then 366 else 365 }

  function DaysBeforeYear(y: int): int
    decreases y
  {
    if y <= 1970 then 0 else DaysBeforeYear(y - 1) + YearDays(y - 1)
  }

  function DaysBeforeMonth(y: int, m: int): int
    decreases m
  {
    if m <= 1 then 0 else DaysBeforeMonth(y, m - 1) + MonthLength(y, m - 1)
  }

  /** Days since 1970-01-01, by adding up year and month lengths. */
  function DayNumber(d: Date): int {
    DaysBeforeYear(d.year) + DaysBeforeMonth(d.year, d.month) + d.day - 1
  }

  lemma YearAddsUp(y: int)
    ensures DaysBeforeMonth(y, 12) + MonthLength(y, 12) == YearDays(y)
  {
    hide Leap;
    assert DaysBeforeMonth(y, 4) == 31 + MonthLength(y, 2) + 31;
    assert DaysBeforeMonth(y, 8) == DaysBeforeMonth(y, 4) + 30 + 31 + 30 + 31 by {
      assert DaysBeforeMonth(y, 6) == DaysBeforeMonth(y, 4) + 30 + 31;
    }
    assert DaysBeforeMonth(y, 12) == DaysBeforeMonth(y, 8) + 31 + 30 + 31 + 30 by {
      assert DaysBeforeMonth(y, 10) == DaysBeforeMonth(y, 8) + 31 + 30;
    }
  }

  lemma SuccCountsOne(d: Date)
    requires Valid(d) && d.year >= 1970
    ensures DayNumber(Succ(d)) == DayNumber(d) + 1
  {
    hide Leap;
    if d.day == MonthLength(d.year, d.month) && d.month == 12 { YearAddsUp(d.year); }
  }

  /** The conversion inverts the count. */
  lemma {:induction false} CountsBack(days: nat)
    ensures FromDays(days).year >= 1970 && DayNumber(FromDays(days)) == days
    decreases days
  {
    hide FromDays, Leap;
    if days == 0 {
      EpochIsDayZero();
    } else {
      CountsBack(days - 1);
      NextDayNextDate(days - 1);
      DatesAreValid(days - 1);
      SuccCountsOne(FromDays(days - 1));
    }
  }

  lemma {:induction false} YearsGrow(a: nat, b: nat)
    requires a <= b
    ensures FromDays(a).year <= FromDays(b).year
    decreases b - a
  {
    hide FromDays, Leap;
    if a < b {
      YearsGrow(a, b - 1);
      NextDayNextDate(b - 1);
    }
  }

  /** The last second of the year 9999. */
  const LAST_SECOND := 253402300799

  lemma LastYear9999()
    ensures YearOfEra(146036) == 399 && 146036 - Start(399) == 305 && FromDay(9999, 305) == Date(9999, 12, 31)
  {
  }

  lemma LastDayOf9999()
    ensures FromDays(LAST_SECOND / 86400) == Date(9999, 12, 31)
  {
    hide YearOfEra, FromDay, Start;
    var z := 2932896 + 719468;
    assert z / ERA == 24 && z % ERA == 146036;
    LastYear9999();
  }

  // ---- the timestamp ---------------------------------------------------------------------------

  function Pow10(k: nat): nat { if k == 0 then 1 else 10 * Pow10(k - 1) }

  function Pad(n: nat, width: nat): (s: string)
    ensures |s| == width && forall i :: 0 <= i < width ==> LayerNames.Digit(s[i])
  {
    if width == 0 then [] else Pad(n / 10, width - 1) + [('0' as int + n % 10) as char]
  }

  /** `{n:0width$}`: padded, and longer when it does not fit. */
  function Formatted(n: nat, width: nat): string {
    if n < Pow10(width) then Pad(n, width) else LayerNames.Dec(n)
  }

  function NumberIn(s: string): int {
    if s == [] then 0 else 10 * NumberIn(s[..|s| - 1]) + (s[|s| - 1] as int - '0' as int)
  }

  lemma {:induction false} NumberReadsBack(n: nat, width: nat)
    requires n < Pow10(width)
    ensures |Formatted(n, width)| == width && Digits(Formatted(n, width)) && NumberIn(Formatted(n, width)) == n
    decreases width
  {
    if width > 0 {
      NumberReadsBack(n / 10, width - 1);
      assert Pad(n, width)[..width - 1] == Pad(n / 10, width - 1);
    }
  }

  datatype Fields = Fields(date: Date, hour: nat, minute: nat, second: nat)

  function FieldsOf(secs: nat): Fields {
    var rem := secs % 86400;
    Fields(FromDays(secs / 86400), rem / 3600, (rem % 3600) / 60, rem % 60)
  }

  /** Three fields with marks between. */
  function Marked(a: string, x: char, b: string, y: char, c: string): string { a + [x] + b + [y] + c }

  /** `utc_timestamp`, of a given clock reading. */
  function Timestamp(secs: nat): string {
    DatesAreValid(secs / 86400);
    CountsBack(secs / 86400);
    var f := FieldsOf(secs);
    Marked(Formatted(f.date.year, 4), '-', Formatted(f.date.month, 2), '-', Formatted(f.date.day, 2)) + "T" +
    Marked(Formatted(f.hour, 2), ':', Formatted(f.minute, 2), ':', Formatted(f.second, 2)) + "Z"
  }

  predicate Digits(s: string) { forall i :: 0 <= i < |s| ==> LayerNames.Digit(s[i]) }

  /** The `date-time` of section 5.6 of RFC 3339, in UTC: digits in the fields,
      marks between them, and the ranges the fields have. */
  predicate IsDateTime(s: string) {
    && |s| == 20 && Digits(s[..4]) && Digits(s[5..7]) && Digits(s[8..10]) && Digits(s[11..13]) && Digits(s[14..16]) && Digits(s[17..19])
    && s[4] == '-' && s[7] == '-' && s[10] == 'T' && s[13] == ':' && s[16] == ':' && s[19] == 'Z'
    && Valid(Read(s).date) && Read(s).hour <= 23 && Read(s).minute <= 59 && Read(s).second <= 59
  }

  datatype RawFields = RawFields(date: Date, hour: int, minute: int, second: int)

  function Read(s: string): RawFields
    requires |s| == 20
  {
    RawFields(Date(NumberIn(s[..4]), NumberIn(s[5..7]), NumberIn(s[8..10])),
              NumberIn(s[11..13]), NumberIn(s[14..16]), NumberIn(s[17..19]))
  }

  function SecondsOf(f: RawFields): int {
    DayNumber(f.date) * 86400 + f.hour * 3600 + f.minute * 60 + f.second
  }

  lemma FieldsInRange(secs: nat)
    requires secs <= LAST_SECOND
    ensures var f := FieldsOf(secs); Valid(f.date) && 1970 <= f.date.year <= 9999 && f.hour <= 23 && f.minute <= 59 && f.second <= 59
  {
    hide FromDays, Valid;
    DatesAreValid(secs / 86400);
    CountsBack(secs / 86400);
    YearsGrow(secs / 86400, LAST_SECOND / 86400);
    LastDayOf9999();
  }

  lemma MarkedParts(a: string, x: char, b: string, y: char, c: string)
    ensures var m := Marked(a, x, b, y, c);
            && |m| == |a| + |b| + |c| + 2 && m[|a|] == x && m[|a| + 1 + |b|] == y
            && m[..|a|] == a && m[|a| + 1..|a| + 1 + |b|] == b && m[|a| + |b| + 2..] == c
  {
  }

  lemma FieldsAreRead(date: string, time: string)
    requires |date| == 10 && |time| == 8
    ensures var s := date + "T" + time + "Z";
            && |s| == 20 && s[4] == date[4] && s[7] == date[7] && s[10] == 'T' && s[13] == time[2] && s[16] == time[5] && s[19] == 'Z'
            && s[..4] == date[..4] && s[5..7] == date[5..7] && s[8..10] == date[8..]
            && s[11..13] == time[..2] && s[14..16] == time[3..5] && s[17..19] == time[6..]
  {
  }

  /** Up to the end of 9999 the timestamp is a well-formed RFC 3339 date-time
      and names the very second. */
  lemma TimestampReadsBack(secs: nat)
    requires secs <= LAST_SECOND
    ensures IsDateTime(Timestamp(secs)) && SecondsOf(Read(Timestamp(secs))) == secs
  {
    hide FromDays, Formatted, NumberIn, DayNumber, Leap, Marked, Digits;
    var f := FieldsOf(secs);
    FieldsInRange(secs);
    assert Pow10(2) == 100 && Pow10(4) == 10000;
    NumberReadsBack(f.date.year, 4);
    NumberReadsBack(f.date.month, 2);
    NumberReadsBack(f.date.day, 2);
    NumberReadsBack(f.hour, 2);
    NumberReadsBack(f.minute, 2);
    NumberReadsBack(f.second, 2);
    MarkedParts(Formatted(f.date.year, 4), '-', Formatted(f.date.month, 2), '-', Formatted(f.date.day, 2));
    MarkedParts(Formatted(f.hour, 2), ':', Formatted(f.minute, 2), ':', Formatted(f.second, 2));
    FieldsAreRead(Marked(Formatted(f.date.year, 4), '-', Formatted(f.date.month, 2), '-', Formatted(f.date.day, 2)),
                  Marked(Formatted(f.hour, 2), ':', Formatted(f.minute, 2), ':', Formatted(f.second, 2)));
    CountsBack(secs / 86400);
    DayParts(secs % 86400);
  }

  lemma DayParts(rem: nat)
    ensures rem / 3600 * 3600 + rem % 3600 / 60 * 60 + rem % 60 == rem
  {
    assert rem % 60 == rem % 3600 % 60;
  }
}
