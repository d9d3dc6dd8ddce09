/** Calendar arithmetic of `crates/pulsus-server/build.rs`: the day-count to
    civil-date conversion against a day-by-day proleptic Gregorian calendar,
    and the RFC 3339 build stamp. */
module Calendar {
  import opened Arithmetic
  import opened Decimal

  datatype Date = Date(year: int, month: int, day: int)

  // ----- the calendar itself -----

  predicate IsLeap(y: int) {
    y % 4 == 0 && (y % 100 != 0 || y % 400 == 0)
  }

  function DaysInMonth(y: int, m: int): int {
    if m == 2 then (if IsLeap(y) then 29 else 28)
    else if m == 4 || m == 6 || m == 9 || m == 11 then 30
    else 31
  }

  predicate Valid(d: Date) {
    1 <= d.month <= 12 && 1 <= d.day <= DaysInMonth(d.year, d.month)
  }

  /** Tomorrow. */
  function Next(d: Date): Date {
    if d.day < DaysInMonth(d.year, d.month) then Date(d.year, d.month, d.day + 1)
    else if d.month < 12 then Date(d.year, d.month + 1, 1)
    else Date(d.year + 1, 1, 1)
  }

  /** Yesterday. */
  function Prev(d: Date): Date {
    if d.day > 1 then Date(d.year, d.month, d.day - 1)
    else if d.month > 1 then Date(d.year, d.month - 1, DaysInMonth(d.year, d.month - 1))
    else Date(d.year - 1, 12, 31)
  }

  const EPOCH := Date(1970, 1, 1)

  /** The date `z` days after (before, when negative) 1970-01-01, one day at a time. */
  function Walk(z: int): Date
    decreases if z < 0 then -z else z
  {
    if z == 0 then EPOCH
    else if z > 0 then Next(Walk(z - 1))
    else Prev(Walk(z + 1))
  }

  predicate Before(a: Date, b: Date) {
    a.year < b.year
    || (a.year == b.year && (a.month < b.month || (a.month == b.month && a.day < b.day)))
  }

  // ----- the code -----

  function Era(z: int): int {
    TruncDiv(if z >= 0 then z else z - 146_096, 146_097)
  }

  function DayOfEra(z: int): int {
    z - Era(z) * 146_097
  }

  function YearOfEra(doe: int): int {
    (doe - doe / 1460 + doe / 36_524 - doe / 146_096) / 365
  }

  function DayOfYear(doe: int): int {
    var yoe := YearOfEra(doe);
    doe - (365 * yoe + yoe / 4 - yoe / 100)
  }

  function MonthIndex(doy: int): int {
    (5 * doy + 2) / 153
  }

  /** The tail of `civil_from_days`: day `doy` of the year starting in March `y`. */
  function FromMarch(y: int, doy: int): Date {
    var mp := MonthIndex(doy);
    var day := doy - (153 * mp + 2) / 5 + 1;
    var month := if mp < 10 then mp + 3 else mp - 9;
    Date(if month <= 2 then y + 1 else y, month, day)
  }

  /** `civil_from_days`. */
  function CivilFromDays(days: int): Date {
    var z := days + 719_468;
    var doe := DayOfEra(z);
    FromMarch(YearOfEra(doe) + Era(z) * 400, DayOfYear(doe))
  }

  // ----- counting days, independently of the code -----

  /** Days from 0000-03-01 to the March 1st of year `y`. */
  function MarchOffset(y: int): int {
    365 * y + y / 4 - y / 100 + y / 400
  }

  /** Days from March 1st to the first of the `mp`-th month after February. */
  function MonthOffset(mp: int): int {
    match mp
    case 0 => 0 case 1 => 31 case 2 => 61 case 3 => 92 case 4 => 122 case 5 => 153
    case 6 => 184 case 7 => 214 case 8 => 245 case 9 => 275 case 10 => 306 case _ => 337
  }

  /** The day count of a date since 1970-01-01. */
  function DayNumber(d: Date): int {
    var shifted := if d.month <= 2 then d.year - 1 else d.year;
    var mp := if d.month <= 2 then d.month + 9 else d.month - 3;
    MarchOffset(shifted) + MonthOffset(mp) + d.day - 1 - 719_468
  }

  lemma DivStep(y: int, m: int)
    requires m > 1
    ensures (y + 1) / m == y / m + (if (y + 1) % m == 0 then 1 else 0)
  {
    DivBetween(y + 1, m, y / m + (if y % m + 1 == m then 1 else 0));
  }

  lemma MarchYearLength(y: int)
    ensures MarchOffset(y + 1) - MarchOffset(y) == (if IsLeap(y + 1) then 366 else 365)
  {
    DivStep(y, 4);
    DivStep(y, 100);
    DivStep(y, 400);
    var k := (y + 1) / 400;
    assert (y + 1) % 400 == 0 ==> y + 1 == 4 * (100 * k) && y + 1 == 100 * (4 * k);
    assert (y + 1) % 100 == 0 ==> y + 1 == 4 * (25 * ((y + 1) / 100));
  }

  lemma NextAddsOneDay(d: Date)
    requires Valid(d)
    ensures Valid(Next(d)) && DayNumber(Next(d)) == DayNumber(d) + 1
  {
    hide MarchOffset, IsLeap;
    MarchYearLength(d.year - 1);
  }

  lemma PrevOfNext(d: Date)
    requires Valid(d)
    ensures Prev(Next(d)) == d
  {
  }

  lemma {:induction false} MarchMonotone(a: int, b: int)
    requires a <= b
    ensures MarchOffset(b) - MarchOffset(a) >= 365 * (b - a)
    decreases b - a
  {
    if a < b {
      MarchMonotone(a, b - 1);
      MarchYearLength(b - 1);
    }
  }

  /** Later dates have larger day counts. */
  lemma DayNumberMonotone(a: Date, b: Date)
    requires Valid(a) && Valid(b) && Before(a, b)
    ensures DayNumber(a) < DayNumber(b)
  {
    hide MarchOffset, IsLeap;
    var (ya, yb) := (if a.month <= 2 then a.year - 1 else a.year, if b.month <= 2 then b.year - 1 else b.year);
    if ya < yb {
      MarchMonotone(ya + 1, yb);
      MarchYearLength(ya);
    }
  }

  lemma DayNumberInjective(a: Date, b: Date)
    requires Valid(a) && Valid(b) && DayNumber(a) == DayNumber(b)
    ensures a == b
  {
    if Before(a, b) { DayNumberMonotone(a, b); }
    if Before(b, a) { DayNumberMonotone(b, a); }
  }

  // ----- the code inverts the count -----

  /** The era is the floor quotient, for either sign. */
  lemma EraIsFloor(z: int)
    ensures Era(z) == z / 146_097
    ensures 0 <= DayOfEra(z) <= 146_096
  {
  }

  /** Every day of a 400-year era has coordinates (century, quad, year, day). */
  lemma Coordinates(doe: int) returns (c: int, q: int, r: int, d: int)
    requires 0 <= doe <= 146_096
    ensures 0 <= c <= 3 && 0 <= q <= 24 && 0 <= r <= 3 && 0 <= d <= 365
    ensures d == 365 ==> r == 3 && (q < 24 || c == 3)
    ensures doe == 36_524 * c + 1461 * q + 365 * r + d
  {
    c := if doe == 146_096 then 3 else doe / 36_524;
    var inCentury := doe - 36_524 * c;
    q := inCentury / 1461;
    var inQuad := inCentury - 1461 * q;
    r := if inQuad == 1460 then 3 else inQuad / 365;
    d := inQuad - 365 * r;
  }

  /** The numerator of the year-of-era formula on those coordinates. */
  lemma Numerator(c: int, q: int, r: int, d: int)
    requires 0 <= c <= 3 && 0 <= q <= 24 && 0 <= r <= 3 && 0 <= d <= 365
    requires d == 365 ==> r == 3 && (q < 24 || c == 3)
    ensures var doe := 36_524 * c + 1461 * q + 365 * r + d;
            doe - doe / 1460 + doe / 36_524 - doe / 146_096
            == 365 * (100 * c + 4 * q + r) + d - (if 24 * c + q + 365 * r + d >= 1460 then 1 else 0)
  {
    var doe := 36_524 * c + 1461 * q + 365 * r + d;
    var last := if c == 3 && q == 24 && r == 3 && d == 365 then 1 else 0;
    var carry := if 24 * c + q + 365 * r + d >= 1460 then 1 else 0;
    DivBetween(doe, 1460, 25 * c + q + carry);
    DivBetween(doe, 36_524, c + last);
    DivBetween(doe, 146_096, last);
  }

  /** On those coordinates the year-of-era formula returns the year. */
  lemma YearOfEraAt(c: int, q: int, r: int, d: int)
    requires 0 <= c <= 3 && 0 <= q <= 24 && 0 <= r <= 3 && 0 <= d <= 365
    requires d == 365 ==> r == 3 && (q < 24 || c == 3)
    ensures var doe := 36_524 * c + 1461 * q + 365 * r + d;
            YearOfEra(doe) == 100 * c + 4 * q + r && DayOfYear(doe) == d
  {
    var yoe := 100 * c + 4 * q + r;
    var carry := if 24 * c + q + 365 * r + d >= 1460 then 1 else 0;
    Numerator(c, q, r, d);
    DivBetween(365 * yoe + d - carry, 365, yoe);
    DivBetween(yoe, 4, 25 * c + q);
    DivBetween(yoe, 100, c);
  }

  /** The range comments on `yoe`, `doy`, `mp`, `day` and `month`. */
  lemma Ranges(z: int)
    ensures var doe := DayOfEra(z);
            0 <= doe <= 146_096 && 0 <= YearOfEra(doe) <= 399 && 0 <= DayOfYear(doe) <= 365
            && 0 <= MonthIndex(DayOfYear(doe)) <= 11
    ensures var d := CivilFromDays(z - 719_468); 1 <= d.month <= 12 && 1 <= d.day <= 31
  {
    EraIsFloor(z);
    var c, q, r, d := Coordinates(DayOfEra(z));
    YearOfEraAt(c, q, r, d);
  }

  /** Within a March-based year the month formula picks the right month and day. */
  lemma MonthOfDay(doy: int)
    requires 0 <= doy <= 365
    ensures var mp := MonthIndex(doy);
            0 <= mp <= 11 && (153 * mp + 2) / 5 == MonthOffset(mp)
            && MonthOffset(mp) <= doy && (mp < 11 ==> doy < MonthOffset(mp + 1))
  {
  }

  lemma FromMarchDayNumber(y: int, doy: int)
    requires 0 <= doy <= 365 && (doy == 365 ==> IsLeap(y + 1))
    ensures Valid(FromMarch(y, doy))
    ensures DayNumber(FromMarch(y, doy)) == MarchOffset(y) + doy - 719_468
  {
    MonthOfDay(doy);
  }

  /** The date the code returns is valid and has the day count it was given. */
  lemma CivilDayNumber(z: int)
    ensures Valid(CivilFromDays(z))
    ensures DayNumber(CivilFromDays(z)) == z
  {
    hide FromMarch, YearOfEra, DayOfYear, Valid, DayNumber, MarchOffset, IsLeap, Era;
    var n := z + 719_468;
    EraIsFloor(n);
    var c, q, r, d := Coordinates(DayOfEra(n));
    YearOfEraAt(c, q, r, d);
    EraYear(Era(n), c, q, r);
    FromMarchDayNumber(100 * c + 4 * q + r + Era(n) * 400, d);
  }

  lemma EraYear(era: int, c: int, q: int, r: int)
    requires 0 <= c <= 3 && 0 <= q <= 24 && 0 <= r <= 3
    ensures var y := 100 * c + 4 * q + r + era * 400;
            MarchOffset(y) == 146_097 * era + 36_524 * c + 1461 * q + 365 * r
            && (IsLeap(y + 1) <==> r == 3 && (q < 24 || c == 3))
  {
    hide IsLeap;
    var y := 100 * c + 4 * q + r + era * 400;
    DivBetween(y, 4, 100 * era + 25 * c + q);
    DivBetween(y, 100, 4 * era + c);
    DivBetween(y, 400, era);
    EraLeap(era, c, q, r);
  }

  lemma EraLeap(era: int, c: int, q: int, r: int)
    requires 0 <= c <= 3 && 0 <= q <= 24 && 0 <= r <= 3
    ensures IsLeap(100 * c + 4 * q + r + era * 400 + 1) <==> r == 3 && (q < 24 || c == 3)
  {
    var n := 100 * c + 4 * q + r + era * 400 + 1;
    DivBetween(n, 4, 100 * era + 25 * c + q + if r == 3 then 1 else 0);
    DivBetween(n, 100, 4 * era + c + if r == 3 && q == 24 then 1 else 0);
    DivBetween(n, 400, era + if r == 3 && q == 24 && c == 3 then 1 else 0);
  }

  // ----- main results -----

  lemma EpochIsDayZero()
    ensures Valid(EPOCH) && DayNumber(EPOCH) == 0
  {
  }

  /** The code is the calendar: 1970-01-01 at zero, and each day the successor
      of the one before, in both directions. */
  lemma {:induction false} CivilIsWalk(z: int)
    ensures CivilFromDays(z) == Walk(z)
    decreases if z < 0 then -z else z
  {
    hide CivilFromDays, Next, Prev, Valid, DayNumber;
    CivilDayNumber(z);
    if z == 0 {
      EpochIsDayZero();
      DayNumberInjective(CivilFromDays(0), EPOCH);
    } else if z > 0 {
      CivilIsWalk(z - 1);
      CivilSuccessor(z - 1);
    } else {
      CivilIsWalk(z + 1);
      CivilSuccessor(z);
      PrevOfNext(CivilFromDays(z));
    }
  }

  lemma CivilSuccessor(z: int)
    ensures CivilFromDays(z + 1) == Next(CivilFromDays(z))
  {
    CivilDayNumber(z);
    CivilDayNumber(z + 1);
    NextAddsOneDay(CivilFromDays(z));
    DayNumberInjective(CivilFromDays(z + 1), Next(CivilFromDays(z)));
  }

  /** Strictly increasing, hence injective; `DayNumber` gives every valid date a
      preimage: a bijection between day counts and valid dates. */
  lemma CivilOrderIsomorphism(a: int, b: int)
    ensures a < b <==> Before(CivilFromDays(a), CivilFromDays(b))
  {
    CivilDayNumber(a);
    CivilDayNumber(b);
    if Before(CivilFromDays(a), CivilFromDays(b)) {
      DayNumberMonotone(CivilFromDays(a), CivilFromDays(b));
    } else if CivilFromDays(a) != CivilFromDays(b) {
      DayNumberMonotone(CivilFromDays(b), CivilFromDays(a));
    }
  }

  lemma CivilOnto(d: Date)
    requires Valid(d)
    ensures CivilFromDays(DayNumber(d)) == d
  {
    CivilDayNumber(DayNumber(d));
    DayNumberInjective(CivilFromDays(DayNumber(d)), d);
  }

  predicate IsI64(n: int) {
    I64_MIN <= n <= I64_MAX
  }

  /** When the first addition and, for a negative shifted count, the era
      adjustment stay inside `i64`, so does everything computed after them. */
  lemma NoOverflow(z: int)
    requires IsI64(z) && IsI64(z + 719_468)
    requires z + 719_468 < 0 ==> IsI64(z + 719_468 - 146_096)
    ensures var n := z + 719_468;
            IsI64(Era(n)) && IsI64(Era(n) * 146_097) && IsI64(Era(n) * 400) && IsI64(CivilFromDays(z).year)
  {
    EraIsFloor(z + 719_468);
    Ranges(z + 719_468);
  }

  // ----- the build stamp -----

  /** `{year:04}` of a signed year: Rust counts the sign in the width. */
  function PadYear(y: int): string {
    if y >= 0 then Pad(y, 4) else "-" + Pad(-y, 3)
  }

  function Stamp(d: Date, secsOfDay: nat): string
    requires Valid(d) && secsOfDay < 86_400
  {
    PadYear(d.year) + ("-" + (Pad(d.month, 2) + ("-" + (Pad(d.day, 2) + ClockPart(secsOfDay)))))
  }

  function ClockPart(s: nat): string
    requires s < 86_400
  {
    "T" + (Pad(s / 3600, 2) + (":" + (Pad((s / 60) % 60, 2) + (":" + (Pad(s % 60, 2) + "Z")))))
  }

  /** `built_at_rfc3339` for a clock reading of `secs` seconds since the epoch. */
  function BuiltAt(secs: nat): string {
    CivilDayNumber(secs / 86_400);
    Stamp(CivilFromDays(secs / 86_400), secs % 86_400)
  }

  lemma PadTwo(m: nat, n: nat)
    requires m < 100 && n < 100
    ensures |Pad(m, 2)| == |Pad(n, 2)| == 2
    ensures m < n ==> LexLess(Pad(m, 2), Pad(n, 2))
  {
    assert Pow10(2) == 100;
    PrintWidth(m, 2);
    PrintWidth(n, 2);
    ValuePad(m, 2);
    ValuePad(n, 2);
    if m < n { LexOfValues(Pad(m, 2), Pad(n, 2)); }
  }

  lemma PadFour(m: nat, n: nat)
    requires m < 10_000 && n < 10_000
    ensures |Pad(m, 4)| == |Pad(n, 4)| == 4
    ensures m < n ==> LexLess(Pad(m, 4), Pad(n, 4))
  {
    assert Pow10(4) == 10_000 by { assert Pow10(3) == 1000; }
    PrintWidth(m, 4);
    PrintWidth(n, 4);
    ValuePad(m, 4);
    ValuePad(n, 4);
    if m < n { LexOfValues(Pad(m, 4), Pad(n, 4)); }
  }

  /** Hours, minutes and seconds compare field by field. */
  lemma ClockFields(a: nat, b: nat)
    requires a < b < 86_400
    ensures a / 3600 < 100 && b / 3600 < 100
    ensures a / 3600 < b / 3600 || (a / 3600 == b / 3600 && ((a / 60) % 60 < (b / 60) % 60
      || ((a / 60) % 60 == (b / 60) % 60 && a % 60 < b % 60)))
  {
    assert a / 3600 == (a / 60) / 60 && b / 3600 == (b / 60) / 60;
  }

  lemma ClockPartOrder(a: nat, b: nat)
    requires a < b < 86_400
    ensures LexLess(ClockPart(a), ClockPart(b))
  {
    hide LexLess, Pad;
    ClockFields(a, b);
    var (ha, hb) := (Pad(a / 3600, 2), Pad(b / 3600, 2));
    var (ma, mb) := (Pad((a / 60) % 60, 2), Pad((b / 60) % 60, 2));
    var (sa, sb) := (Pad(a % 60, 2), Pad(b % 60, 2));
    PadTwo(a / 3600, b / 3600);
    PadTwo((a / 60) % 60, (b / 60) % 60);
    PadTwo(a % 60, b % 60);
    var (ra, rb) := (":" + (sa + "Z"), ":" + (sb + "Z"));
    var (qa, qb) := (":" + (ma + ra), ":" + (mb + rb));
    if a / 3600 < b / 3600 {
      LexField(ha, hb, qa, qb);
    } else {
      if (a / 60) % 60 < (b / 60) % 60 {
        LexField(ma, mb, ra, rb);
      } else {
        LexField(sa, sb, "Z", "Z");
        LexPrefix(":", sa + "Z", sb + "Z");
        LexPrefix(ma, ra, rb);
      }
      LexPrefix(":", ma + ra, mb + rb);
      LexPrefix(ha, qa, qb);
    }
    LexPrefix("T", ha + qa, hb + qb);
  }

  lemma StampOrder(a: Date, x: nat, b: Date, y: nat)
    requires Valid(a) && Valid(b) && x < 86_400 && y < 86_400
    requires 0 <= a.year < 10_000 && 0 <= b.year < 10_000
    requires Before(a, b) || (a == b && x < y)
    ensures LexLess(Stamp(a, x), Stamp(b, y))
  {
    hide LexLess, Pad, ClockPart;
    PadFour(a.year, b.year);
    PadTwo(a.month, b.month);
    PadTwo(a.day, b.day);
    var (ya, yb) := (PadYear(a.year), PadYear(b.year));
    var (da, db) := (Pad(a.day, 2), Pad(b.day, 2));
    var (ma, mb) := (Pad(a.month, 2), Pad(b.month, 2));
    var (ra, rb) := ("-" + (da + ClockPart(x)), "-" + (db + ClockPart(y)));
    var (qa, qb) := ("-" + (ma + ra), "-" + (mb + rb));
    if a.year < b.year {
      LexField(ya, yb, qa, qb);
    } else {
      if a.month < b.month {
        LexField(ma, mb, ra, rb);
      } else {
        if a.day < b.day {
          LexField(da, db, ClockPart(x), ClockPart(y));
        } else {
          ClockPartOrder(x, y);
          LexPrefix(da, ClockPart(x), ClockPart(y));
        }
        LexPrefix("-", da + ClockPart(x), db + ClockPart(y));
        LexPrefix(ma, ra, rb);
      }
      LexPrefix("-", ma + ra, mb + rb);
      LexPrefix(ya, qa, qb);
    }
  }

  /** 10000-01-01T00:00:00Z. */
  const YEAR_10000 := 253_402_300_800

  lemma BeforeYear10000(secs: nat)
    ensures 0 <= CivilFromDays(secs / 86_400).year
    ensures CivilFromDays(secs / 86_400).year < 10_000 <==> secs < YEAR_10000
  {
    hide CivilFromDays;
    var d := CivilFromDays(secs / 86_400);
    CivilDayNumber(secs / 86_400);
    if d.year < 0 { DayNumberMonotone(d, EPOCH); }
    var limit := Date(10_000, 1, 1);
    assert DayNumber(limit) == 2_932_897;
    if d.year < 10_000 { DayNumberMonotone(d, limit); }
    if d.year >= 10_000 && d != limit { DayNumberMonotone(limit, d); }
  }

  /** Before year 10000 the stamps sort as the instants do. */
  lemma StampsSortAsInstants(a: nat, b: nat)
    requires a < YEAR_10000 && b < YEAR_10000
    ensures a < b <==> LexLess(BuiltAt(a), BuiltAt(b))
  {
    if a < b { StampIncreases(a, b); }
    if a == b { LexIrreflexive(BuiltAt(a)); }
    if b < a { StampIncreases(b, a); LexAsymmetric(BuiltAt(b), BuiltAt(a)); }
  }

  lemma StampIncreases(a: nat, b: nat)
    requires a < b < YEAR_10000
    ensures LexLess(BuiltAt(a), BuiltAt(b))
  {
    hide CivilFromDays, Stamp, Valid, DayNumber;
    CivilDayNumber(a / 86_400);
    CivilDayNumber(b / 86_400);
    CivilOrderIsomorphism(a / 86_400, b / 86_400);
    BeforeYear10000(a);
    BeforeYear10000(b);
    StampOrder(CivilFromDays(a / 86_400), a % 86_400, CivilFromDays(b / 86_400), b % 86_400);
  }

  ghost predicate SortedUpTo(limit: nat) {
    forall a: nat, b: nat {:trigger BuiltAt(a), BuiltAt(b)} :: a < b <= limit ==> LexLess(BuiltAt(a), BuiltAt(b))
  }

  /** And year 10000 is exactly where that stops. */
  lemma SortedExactlyBeforeYear10000(limit: nat)
    ensures SortedUpTo(limit) <==> limit < YEAR_10000
  {
    hide CivilFromDays, BuiltAt;
    if limit < YEAR_10000 {
      forall a: nat, b: nat | a < b <= limit ensures LexLess(BuiltAt(a), BuiltAt(b)) { StampIncreases(a, b); }
    } else {
      Year10000SortsFirst();
    }
  }

  lemma Year10000SortsFirst()
    ensures !LexLess(BuiltAt(YEAR_10000 - 1), BuiltAt(YEAR_10000))
  {
    hide CivilFromDays, ClockPart, Pad, LexLess;
    var (eve, day) := (Date(9999, 12, 31), Date(10_000, 1, 1));
    CivilOnto(eve);
    CivilOnto(day);
    FirstDigit(9999);
    FirstDigit(10_000);
    var (a, b) := (BuiltAt(YEAR_10000 - 1), BuiltAt(YEAR_10000));
    assert a == Stamp(eve, 86_399) && b == Stamp(day, 0);
    assert a[0] == '9' && b[0] == '1';
    LexByFirst(b, a);
  }

  lemma LexByFirst(a: string, b: string)
    requires a != [] && b != [] && a[0] < b[0]
    ensures !LexLess(b, a)
  {
  }

  lemma FirstDigit(y: nat)
    requires y == 9999 || y == 10_000
    ensures Pad(y, 4)[0] == (if y == 9999 then '9' else '1')
  {
    var (a, b) := (y / 10, y / 100);
    assert Print(y) == Print(a) + [DigitChar(y % 10)];
    assert Print(a) == Print(b) + [DigitChar(a % 10)];
    assert Print(b) == Print(b / 10) + [DigitChar(b % 10)];
    if y == 10_000 {
      assert Print(b / 10) == Print(1) + [DigitChar(0)];
    }
  }
}
