/** The RFC 3339 build stamp of `crates/pulsus-server/build.rs`, read back. */
module BuildStamp {
  import opened Arithmetic
  import opened Calendar
  import opened Common
  import opened Decimal

  /** The stamp's layout: `YYYY-MM-DDThh:mm:ssZ`. */
  predicate HasLayout(s: string) {
    && |s| == 20
    && s[4] == '-' && s[7] == '-' && s[10] == 'T' && s[13] == ':' && s[16] == ':' && s[19] == 'Z'
    && AllDigits(s[0..4]) && AllDigits(s[5..7]) && AllDigits(s[8..10])
    && AllDigits(s[11..13]) && AllDigits(s[14..16]) && AllDigits(s[17..19])
  }

  function DateIn(s: string): Date
    requires HasLayout(s)
  {
    Date(Value(s[0..4]), Value(s[5..7]), Value(s[8..10]))
  }

  /** The instant a stamp names: the days of its date and the time of day, in seconds since the epoch. */
  function ReadStamp(s: string): Option<int> {
    if !HasLayout(s) then None
    else
      var (hour, minute, second) := (Value(s[11..13]), Value(s[14..16]), Value(s[17..19]));
      if Valid(DateIn(s)) && hour < 24 && minute < 60 && second < 60
      then Some(DayNumber(DateIn(s)) * 86_400 + 3600 * hour + 60 * minute + second)
      else None
  }

  // ----- fields -----

  lemma PadWidth(n: nat, w: nat)
    requires 1 <= w && n < Pow10(w)
    ensures |Pad(n, w)| == w && AllDigits(Pad(n, w)) && Value(Pad(n, w)) == n
  {
    PrintWidth(n, w);
    ValuePad(n, w);
  }

  lemma {:induction false} ValueBound(s: string)
    requires AllDigits(s)
    ensures Value(s) < Pow10(|s|)
  {
    if s != [] { ValueBound(s[..|s| - 1]); }
  }

  /** A field is the padding of its value. */
  lemma FieldIsPadded(s: string)
    requires AllDigits(s) && s != []
    ensures Pad(Value(s), |s|) == s
  {
    ValueBound(s);
    PadWidth(Value(s), |s|);
    SameValue(Pad(Value(s), |s|), s);
  }

  lemma SmallPowers()
    ensures Pow10(2) == 100 && Pow10(4) == 10_000
  {
    assert Pow10(3) == 1000;
  }

  /** The six fields between their separators. */
  function Laid(y: string, mo: string, d: string, h: string, mi: string, s: string): string {
    y + ("-" + (mo + ("-" + (d + ("T" + (h + (":" + (mi + (":" + (s + "Z"))))))))))
  }

  lemma DateOut(y: string, mo: string, d: string, rest: string)
    requires |y| == 4 && |mo| == |d| == 2
    ensures var r := y + ("-" + (mo + ("-" + (d + rest))));
      && |r| == 10 + |rest| && r[4] == '-' && r[7] == '-'
      && r[0..4] == y && r[5..7] == mo && r[8..10] == d && r[10..] == rest
  {
  }

  lemma ClockOut(h: string, mi: string, s: string)
    requires |h| == |mi| == |s| == 2
    ensures var r := "T" + (h + (":" + (mi + (":" + (s + "Z")))));
      && |r| == 10 && r[0] == 'T' && r[3] == ':' && r[6] == ':' && r[9] == 'Z'
      && r[1..3] == h && r[4..6] == mi && r[7..9] == s
  {
  }

  lemma LaidOut(y: string, mo: string, d: string, h: string, mi: string, s: string)
    requires |y| == 4 && |mo| == |d| == |h| == |mi| == |s| == 2
    ensures var r := Laid(y, mo, d, h, mi, s);
      && |r| == 20 && r[4] == '-' && r[7] == '-' && r[10] == 'T' && r[13] == ':' && r[16] == ':' && r[19] == 'Z'
      && r[0..4] == y && r[5..7] == mo && r[8..10] == d && r[11..13] == h && r[14..16] == mi && r[17..19] == s
  {
    var clock := "T" + (h + (":" + (mi + (":" + (s + "Z")))));
    var r := Laid(y, mo, d, h, mi, s);
    ClockOut(h, mi, s);
    DateOut(y, mo, d, clock);
    Later(r, clock);
  }

  /** The second half of a stamp. */
  lemma Later(r: string, clock: string)
    requires |r| == 20 && |clock| == 10 && r[10..] == clock
    ensures r[11..13] == clock[1..3] && r[14..16] == clock[4..6] && r[17..19] == clock[7..9]
    ensures r[10] == clock[0] && r[13] == clock[3] && r[16] == clock[6] && r[19] == clock[9]
  {
    assert forall i :: 0 <= i < 10 ==> r[10 + i] == clock[i];
  }

  lemma LaidParts(s: string)
    requires HasLayout(s)
    ensures s == Laid(s[0..4], s[5..7], s[8..10], s[11..13], s[14..16], s[17..19])
  {
    var clock := s[10..];
    assert clock == "T" + (s[11..13] + (":" + (s[14..16] + (":" + (s[17..19] + "Z")))));
    assert s == s[0..4] + ("-" + (s[5..7] + ("-" + (s[8..10] + clock))));
  }

  lemma StampIsLaid(d: Date, x: nat)
    requires Valid(d) && x < 86_400 && d.year >= 0
    ensures Stamp(d, x) == Laid(Pad(d.year, 4), Pad(d.month, 2), Pad(d.day, 2),
                                Pad(x / 3600, 2), Pad((x / 60) % 60, 2), Pad(x % 60, 2))
  {
    hide Pad;
  }

  // ----- the round trip -----

  /** The time of day from its fields and back. */
  lemma ClockParts(x: nat)
    requires x < 86_400
    ensures x / 3600 < 24 && 3600 * (x / 3600) + 60 * ((x / 60) % 60) + x % 60 == x
  {
    assert x / 3600 == (x / 60) / 60;
  }

  lemma ClockUnique(h: nat, m: nat, s: nat)
    requires h < 24 && m < 60 && s < 60
    ensures var x := 3600 * h + 60 * m + s; x < 86_400 && x / 3600 == h && (x / 60) % 60 == m && x % 60 == s
  {
    var x := 3600 * h + 60 * m + s;
    DivUnique(x, 60, 60 * h + m, s);
    DivUnique(x, 3600, h, 60 * m + s);
    DivUnique(60 * h + m, 60, h, m);
  }

  lemma StampReads(d: Date, x: nat)
    requires Valid(d) && x < 86_400 && 0 <= d.year < 10_000
    ensures ReadStamp(Stamp(d, x)) == Some(DayNumber(d) * 86_400 + x)
  {
    hide Stamp, Pad, DayNumber, Laid;
    SmallPowers();
    ClockParts(x);
    PadWidth(d.year, 4);
    PadWidth(d.month, 2);
    PadWidth(d.day, 2);
    PadWidth(x / 3600, 2);
    PadWidth((x / 60) % 60, 2);
    PadWidth(x % 60, 2);
    StampIsLaid(d, x);
    LaidOut(Pad(d.year, 4), Pad(d.month, 2), Pad(d.day, 2), Pad(x / 3600, 2), Pad((x / 60) % 60, 2), Pad(x % 60, 2));
  }

  /** The stamp of an instant names that instant, exactly before year 10000. */
  lemma StampReadsBackExactly(secs: nat)
    ensures ReadStamp(BuiltAt(secs)) == Some(secs) <==> secs < YEAR_10000
    ensures secs >= YEAR_10000 ==> ReadStamp(BuiltAt(secs)) == None
  {
    hide CivilFromDays, Stamp, Valid, DayNumber, ReadStamp;
    var (d, x) := (CivilFromDays(secs / 86_400), secs % 86_400);
    CivilDayNumber(secs / 86_400);
    BeforeYear10000(secs);
    if d.year < 10_000 { StampReads(d, x); } else { LongStamp(d, x); }
  }

  lemma LongStamp(d: Date, x: nat)
    requires Valid(d) && x < 86_400 && d.year >= 10_000
    ensures ReadStamp(Stamp(d, x)) == None
  {
    hide Valid, ClockPart, DayNumber;
    LongPrint(d.year);
    assert |Stamp(d, x)| >= 5 + 1 + 2 + 1 + 2 + |ClockPart(x)|;
    ClockLength(x);
  }

  lemma ClockLength(x: nat)
    requires x < 86_400
    ensures |ClockPart(x)| >= 10
  {
  }

  lemma LongPrint(y: nat)
    requires y >= 10_000
    ensures |Print(y)| >= 5
  {
    if |Print(y)| < 5 {
      ValuePrint(y);
      ValueBound(Print(y));
      ShortPower(|Print(y)|);
    }
  }

  lemma ShortPower(k: nat)
    requires k < 5
    ensures Pow10(k) <= 10_000
  {
    SmallPowers();
    assert Pow10(3) == 1000 && Pow10(1) == 10;
  }

  /** And every well-formed stamp of an instant since the epoch is the stamp of that instant. */
  lemma OnlyItsStamp(s: string, secs: nat)
    requires ReadStamp(s) == Some(secs)
    ensures BuiltAt(secs) == s
  {
    hide CivilFromDays, Stamp, Pad, DayNumber, Value, Laid;
    var d := DateIn(s);
    var (h, m, c) := (Value(s[11..13]), Value(s[14..16]), Value(s[17..19]));
    ClockUnique(h, m, c);
    var x := 3600 * h + 60 * m + c;
    DivUnique(secs, 86_400, DayNumber(d), x);
    CivilOnto(d);
    StampIsLaid(d, x);
    FieldIsPadded(s[0..4]);
    FieldIsPadded(s[5..7]);
    FieldIsPadded(s[8..10]);
    FieldIsPadded(s[11..13]);
    FieldIsPadded(s[14..16]);
    FieldIsPadded(s[17..19]);
    LaidParts(s);
  }
}
