/** Wire timestamps of `e2e/src/metrics.rs`: exact millisecond parsing against
    the two printers, and the series extraction that consumes the scanned
    tokens in document order. */
module WireTimes {
  import opened Arithmetic
  import opened Common
  import opened Decimal
  import opened WireScan

  // ----- parsing -----

  datatype TsError = Negative | BadSeconds | SubMillisecond | BadFraction | Overflow

  function FirstDot(s: string): (d: nat)
    ensures d <= |s| && (d < |s| ==> s[d] == '.')
    ensures forall i :: 0 <= i < d ==> s[i] != '.'
  {
    if s == [] || s[0] == '.' then 0 else 1 + FirstDot(s[1..])
  }

  function Seconds(raw: string): string { raw[..FirstDot(raw)] }

  function Fraction(raw: string): string {
    if FirstDot(raw) < |raw| then raw[FirstDot(raw) + 1..] else ""
  }

  /** `<digits>` or `<digits>.<up to three digits>`. */
  predicate Grammar(raw: string) {
    Seconds(raw) != "" && AllDigits(Seconds(raw)) && |Fraction(raw)| <= 3 && AllDigits(Fraction(raw))
  }

  /** The milliseconds such a token denotes. */
  function Millis(raw: string): nat
    requires Grammar(raw)
  {
    Value(Seconds(raw)) * 1000 + Value(Fraction(raw)) * Pow10(3 - |Fraction(raw)|)
  }

  /** `parse_ts_exact`. */
  method ParseTsExact(raw: string) returns (r: Result<int, TsError>)
    ensures r.Ok? <==> Grammar(raw) && Millis(raw) <= I64_MAX
    ensures r.Ok? ==> r.value == Millis(raw)
    ensures r == Err(Negative) <==> raw != "" && raw[0] == '-'
    ensures r == Err(Overflow) ==> Grammar(raw) && Millis(raw) > I64_MAX
  {
    hide Value, Pow10, FirstDot, Seconds, Fraction;
    if raw != "" && raw[0] == '-' {
      NegativeRejected(raw);
      return Err(Negative);
    }
    var secs, fracText := Seconds(raw), Fraction(raw);
    if !AllDigits(secs) || secs == "" { return Err(BadSeconds); }
    if |fracText| > 3 { return Err(SubMillisecond); }
    if !AllDigits(fracText) { return Err(BadFraction); }
    if Value(secs) > I64_MAX { return Err(Overflow); }
    var frac := fracText;
    PowZero();
    while |frac| < 3
      invariant |fracText| <= |frac| <= 3 && AllDigits(frac)
      invariant Value(frac) == Value(fracText) * Pow10(|frac| - |fracText|)
    {
      PadStep(fracText, frac);
      frac := frac + "0";
    }
    if Value(secs) * 1000 > I64_MAX || Value(secs) * 1000 + Value(frac) > I64_MAX { return Err(Overflow); }
    r := Ok(Value(secs) * 1000 + Value(frac));
  }

  lemma NegativeRejected(raw: string)
    requires raw != "" && raw[0] == '-'
    ensures !Grammar(raw)
  {
    assert Seconds(raw) != "" ==> Seconds(raw)[0] == '-';
  }

  lemma PowZero()
    ensures Pow10(0) == 1
  {
  }

  lemma PadStep(start: string, frac: string)
    requires AllDigits(start) && AllDigits(frac) && |start| <= |frac|
    requires Value(frac) == Value(start) * Pow10(|frac| - |start|)
    ensures AllDigits(frac + "0") && Value(frac + "0") == Value(start) * Pow10(|frac| + 1 - |start|)
  {
    hide Value, Pow10;
    ValueSnoc(frac, '0');
    PowStep(|frac| - |start|);
    MulTen(Value(start), Pow10(|frac| - |start|));
  }

  lemma PowStep(k: nat)
    ensures Pow10(k + 1) == 10 * Pow10(k)
  {
  }

  lemma MulTen(v: nat, p: nat)
    ensures v * (10 * p) == (v * p) * 10
  {
  }

  // ----- printing -----

  /** `ts_param`: seconds, a point, exactly three digits. */
  function TsParam(ms: int): string {
    PrintInt(ms / 1000) + ("." + Pad(ms % 1000, 3))
  }

  function TrimZeros(s: string): (t: string)
    ensures |t| <= |s| && t == s[..|t|]
  {
    if s != [] && s[|s| - 1] == '0' then TrimZeros(s[..|s| - 1]) else s
  }

  /** `prom_timestamp`: the same, with trailing zeros and a bare point dropped. */
  function PromTimestamp(ms: int): string {
    if ms % 1000 == 0 then PrintInt(ms / 1000)
    else PrintInt(ms / 1000) + ("." + TrimZeros(Pad(ms % 1000, 3)))
  }

  lemma {:induction false} FirstDotOf(s: string, rest: string)
    requires forall i :: 0 <= i < |s| ==> s[i] != '.'
    requires rest == [] || rest[0] == '.'
    ensures FirstDot(s + rest) == |s|
  {
    if s == [] {
      assert s + rest == rest;
    } else {
      FirstDotOf(s[1..], rest);
      assert (s + rest)[1..] == s[1..] + rest;
    }
  }

  lemma Parts(secs: string, frac: string)
    requires AllDigits(secs) && AllDigits(frac)
    ensures Seconds(secs + ("." + frac)) == secs && Fraction(secs + ("." + frac)) == frac
    ensures Seconds(secs) == secs && Fraction(secs) == ""
  {
    FirstDotOf(secs, "." + frac);
    FirstDotOf(secs, "");
    assert secs + "" == secs;
  }

  lemma {:induction false} TrimKeepsValue(s: string)
    requires AllDigits(s)
    ensures AllDigits(TrimZeros(s)) && Value(TrimZeros(s)) * Pow10(|s| - |TrimZeros(s)|) == Value(s)
  {
    hide Value, Pow10;
    if s != [] && s[|s| - 1] == '0' {
      var front := s[..|s| - 1];
      TrimKeepsValue(front);
      var (v, k) := (Value(TrimZeros(front)), |front| - |TrimZeros(front)|);
      PowStep(k);
      MulTen(v, Pow10(k));
      ValueSnoc(front, '0');
      assert s == front + "0";
    } else {
      PowZero();
    }
  }

  lemma PadThree(n: nat)
    requires n < 1000
    ensures |Pad(n, 3)| == 3 && Value(Pad(n, 3)) == n
  {
    assert Pow10(3) == 1000 by { assert Pow10(2) == 100; }
    PrintWidth(n, 3);
    ValuePad(n, 3);
  }

  /** Both printed forms read back as the milliseconds they were printed from. */
  lemma PrintedFormsReadBack(ms: nat)
    ensures Grammar(TsParam(ms)) && Millis(TsParam(ms)) == ms
    ensures Grammar(PromTimestamp(ms)) && Millis(PromTimestamp(ms)) == ms
  {
    hide Seconds, Fraction, FirstDot, Value, Pad, TrimZeros, Print, Pow10;
    var (secs, frac) := (Print(ms / 1000), Pad(ms % 1000, 3));
    PadThree(ms % 1000);
    ValuePrint(ms / 1000);
    TrimKeepsValue(frac);
    Parts(secs, frac);
    Parts(secs, TrimZeros(frac));
    PowZero();
    ValueNone();
    assert ms == (ms / 1000) * 1000 + ms % 1000;
  }

  /** `prom_timestamp` prints no more than it must: a point only for a fraction, and no zero at its end. */
  lemma PromTimestampIsShort(ms: nat)
    ensures var p := PromTimestamp(ms);
      && p != "" && ('.' in p <==> ms % 1000 != 0)
      && ('.' in p ==> '1' <= p[|p| - 1] <= '9')
  {
    var (secs, frac) := (Print(ms / 1000), Pad(ms % 1000, 3));
    assert forall i :: 0 <= i < |secs| ==> secs[i] != '.';
    if ms % 1000 != 0 {
      PadThree(ms % 1000);
      TrimKeepsValue(frac);
      TrimEnds(frac);
      var (t, p) := (TrimZeros(frac), PromTimestamp(ms));
      assert p[|secs|] == '.';
      if t == "" {
        ValueNone();
      } else {
        assert p[|p| - 1] == t[|t| - 1];
      }
    }
  }

  lemma {:induction false} TrimEnds(s: string)
    requires AllDigits(s)
    ensures var t := TrimZeros(s); t != "" ==> '1' <= t[|t| - 1] <= '9'
  {
    if s != [] && s[|s| - 1] == '0' { TrimEnds(s[..|s| - 1]); }
  }

  lemma ValueNone()
    ensures Value("") == 0
  {
  }

  /** The parser accepts what `ts_param` prints exactly for non-negative times. */
  lemma TsParamAccepted(ms: int)
    ensures Grammar(TsParam(ms)) <==> ms >= 0
  {
    if ms >= 0 {
      PrintedFormsReadBack(ms);
    } else {
      assert TsParam(ms)[0] == '-';
      assert Seconds(TsParam(ms)) != "" ==> Seconds(TsParam(ms))[0] == '-';
    }
  }

  lemma PrintedFormsAreNumbers(ms: nat)
    ensures IsNumber(TsParam(ms)) && IsNumber(PromTimestamp(ms))
  {
    hide Pad, TrimZeros, Print, IsNumber;
    var (secs, frac) := (Print(ms / 1000), Pad(ms % 1000, 3));
    DigitsAreNumber(secs, frac);
    DigitsAreNumber(secs, TrimZeros(frac));
  }

  lemma DigitsAreNumber(secs: string, frac: string)
    requires AllDigits(secs) && AllDigits(frac) && secs != ""
    ensures IsNumber(secs) && IsNumber(secs + ("." + frac))
  {
  }

  // ----- responses -----

  datatype Point = Point(ms: nat, text: string)

  type LabelText = seq<(string, string)>

  datatype Series = Series(metric: LabelText, points: seq<Point>)

  /** The three result types; a vector series has exactly one point. */
  datatype Response = Vector(series: seq<Series>) | Matrix(series: seq<Series>) | Scalar(point: Point)

  predicate WellTyped(r: Response) {
    match r
    case Vector(series) => forall i :: 0 <= i < |series| ==> |series[i].points| == 1 && SeriesOk(series[i])
    case Matrix(series) => forall i :: 0 <= i < |series| ==> SeriesOk(series[i])
    case Scalar(p) => PointOk(p)
  }

  predicate PointOk(p: Point) { p.ms <= I64_MAX && WellEscaped(p.text) }

  predicate SeriesOk(s: Series) {
    && (forall i :: 0 <= i < |s.metric| ==> WellEscaped(s.metric[i].0) && WellEscaped(s.metric[i].1))
    && (forall i :: 0 <= i < |s.points| ==> PointOk(s.points[i]))
  }

  // The wire form, for either timestamp printer.

  function PointJson(fmt: nat -> string, p: Point): Json {
    Arr([Num(fmt(p.ms)), Str(p.text)])
  }

  function MetricJson(metric: LabelText): Json {
    Obj(seq(|metric|, i requires 0 <= i < |metric| => Member(metric[i].0, Str(metric[i].1))))
  }

  function PointsJson(fmt: nat -> string, points: seq<Point>): seq<Json> {
    if points == [] then [] else [PointJson(fmt, points[0])] + PointsJson(fmt, points[1..])
  }

  function SeriesJson(fmt: nat -> string, s: Series, single: bool): Json {
    Obj([Member("metric", MetricJson(s.metric)),
         if single && |s.points| == 1 then Member("value", PointJson(fmt, s.points[0]))
         else Member("values", Arr(PointsJson(fmt, s.points)))])
  }

  function AllSeriesJson(fmt: nat -> string, series: seq<Series>, single: bool): seq<Json> {
    if series == [] then [] else [SeriesJson(fmt, series[0], single)] + AllSeriesJson(fmt, series[1..], single)
  }

  function ResultJson(fmt: nat -> string, r: Response): Json {
    match r
    case Vector(series) => Arr(AllSeriesJson(fmt, series, true))
    case Matrix(series) => Arr(AllSeriesJson(fmt, series, false))
    case Scalar(p) => PointJson(fmt, p)
  }

  function ResultType(r: Response): string {
    match r case Vector(_) => "vector" case Matrix(_) => "matrix" case Scalar(_) => "scalar"
  }

  function EnvelopeJson(fmt: nat -> string, r: Response): Json {
    Obj([Member("status", Str("success")),
         Member("data", Obj([Member("resultType", Str(ResultType(r))), Member("result", ResultJson(fmt, r))]))])
  }

  // The timestamp tokens, in the order the structural walk meets them.

  function PointTokens(fmt: nat -> string, points: seq<Point>): (ts: seq<string>)
    ensures |ts| == |points| && forall i :: 0 <= i < |points| ==> ts[i] == fmt(points[i].ms)
  {
    if points == [] then [] else [fmt(points[0].ms)] + PointTokens(fmt, points[1..])
  }

  function SeriesTokens(fmt: nat -> string, series: seq<Series>): seq<string> {
    if series == [] then [] else PointTokens(fmt, series[0].points) + SeriesTokens(fmt, series[1..])
  }

  function Tokens(fmt: nat -> string, r: Response): seq<string> {
    match r
    case Vector(series) => SeriesTokens(fmt, series)
    case Matrix(series) => SeriesTokens(fmt, series)
    case Scalar(p) => [fmt(p.ms)]
  }

  ghost predicate PrintsNumbers(fmt: nat -> string) {
    forall ms: nat :: IsNumber(fmt(ms))
  }

  lemma PointLeading(fmt: nat -> string, p: Point)
    requires PrintsNumbers(fmt) && PointOk(p)
    ensures WellFormed(PointJson(fmt, p)) && Leading(PointJson(fmt, p)) == [fmt(p.ms)]
  {
    var items := [Num(fmt(p.ms)), Str(p.text)];
    assert IsNumber(fmt(p.ms));
    assert WellFormed(items[0]) && WellFormed(items[1]);
    assert items[1..] == [Str(p.text)] && items[1..][1..] == [];
    assert LeadingItems(items[1..]) == [];
    assert LeadingItems(items) == [];
  }

  lemma {:induction false} MetricLeading(members: seq<Member>)
    requires forall i :: 0 <= i < |members| ==> members[i].value.Str?
    ensures LeadingMembers(members) == []
  {
    if members != [] { MetricLeading(members[1..]); }
  }

  lemma {:induction false} PointsLeading(fmt: nat -> string, points: seq<Point>)
    requires PrintsNumbers(fmt) && forall i :: 0 <= i < |points| ==> PointOk(points[i])
    ensures var items := PointsJson(fmt, points);
      && (forall i :: 0 <= i < |items| ==> WellFormed(items[i]))
      && (items != [] ==> items[0].Arr?)
      && LeadingItems(items) == PointTokens(fmt, points)
  {
    if points != [] {
      PointsLeading(fmt, points[1..]);
      PointLeading(fmt, points[0]);
      var items := PointsJson(fmt, points);
      assert items[1..] == PointsJson(fmt, points[1..]);
    }
  }

  lemma SeriesLeading(fmt: nat -> string, s: Series, single: bool)
    requires PrintsNumbers(fmt) && SeriesOk(s)
    ensures WellFormed(SeriesJson(fmt, s, single)) && Leading(SeriesJson(fmt, s, single)) == PointTokens(fmt, s.points)
  {
    var metric := MetricJson(s.metric);
    MetricLeading(metric.members);
    assert WellFormed(metric);
    PointsLeading(fmt, s.points);
    var points := PointsJson(fmt, s.points);
    var value := if single && |s.points| == 1 then PointJson(fmt, s.points[0]) else Arr(points);
    if single && |s.points| == 1 {
      PointLeading(fmt, s.points[0]);
      assert PointTokens(fmt, s.points) == [fmt(s.points[0].ms)];
    }
    assert WellFormed(value) && Leading(value) == PointTokens(fmt, s.points);
    Plain();
    TwoMembers("metric", metric, if single && |s.points| == 1 then "value" else "values", value);
  }

  lemma ObjLeading(members: seq<Member>)
    ensures Leading(Obj(members)) == LeadingMembers(members)
  {
  }

  lemma TwoMembers(k: string, a: Json, l: string, b: Json)
    requires WellEscaped(k) && WellEscaped(l) && WellFormed(a) && WellFormed(b)
    ensures WellFormed(Obj([Member(k, a), Member(l, b)]))
    ensures Leading(Obj([Member(k, a), Member(l, b)])) == Leading(a) + Leading(b)
  {
    hide WellEscaped, LeadingMembers, Leading, WellFormed;
    TwoLeading(Member(k, a), Member(l, b));
    TwoWellFormed(Member(k, a), Member(l, b));
    ObjLeading([Member(k, a), Member(l, b)]);
  }

  lemma TwoWellFormed(one: Member, two: Member)
    requires WellEscaped(one.key) && WellEscaped(two.key) && WellFormed(one.value) && WellFormed(two.value)
    ensures WellFormed(Obj([one, two]))
  {
    hide WellEscaped;
  }

  lemma TwoLeading(one: Member, two: Member)
    ensures LeadingMembers([one, two]) == Leading(one.value) + Leading(two.value)
  {
    hide Leading;
    var ms := [one, two];
    assert ms[1..] == [two] && [two][1..] == [];
    assert LeadingMembers([two]) == Leading(two.value) + LeadingMembers([]);
  }

  lemma {:induction false} AllSeriesLeading(fmt: nat -> string, series: seq<Series>, single: bool)
    requires PrintsNumbers(fmt) && forall i :: 0 <= i < |series| ==> SeriesOk(series[i])
    ensures var items := AllSeriesJson(fmt, series, single);
      && (forall i :: 0 <= i < |items| ==> WellFormed(items[i]))
      && (items != [] ==> items[0].Obj?)
      && LeadingItems(items) == SeriesTokens(fmt, series)
  {
    hide WellFormed, SeriesOk, PointTokens, Leading, PrintsNumbers;
    if series != [] {
      AllSeriesLeading(fmt, series[1..], single);
      SeriesLeading(fmt, series[0], single);
      var items := AllSeriesJson(fmt, series, single);
      assert items[0] == SeriesJson(fmt, series[0], single);
      assert items[1..] == AllSeriesJson(fmt, series[1..], single);
    }
  }

  /** The plain envelope opens its arrays with exactly the response's timestamps. */
  lemma EnvelopeLeading(fmt: nat -> string, r: Response)
    requires PrintsNumbers(fmt) && WellTyped(r)
    ensures WellFormed(EnvelopeJson(fmt, r)) && Leading(EnvelopeJson(fmt, r)) == Tokens(fmt, r)
  {
    var result := ResultJson(fmt, r);
    match r {
      case Vector(series) => AllSeriesLeading(fmt, series, true);
      case Matrix(series) => AllSeriesLeading(fmt, series, false);
      case Scalar(p) => PointLeading(fmt, p);
    }
    assert WellFormed(result) && Leading(result) == Tokens(fmt, r);
    Plain();
    TwoMembers("resultType", Str(ResultType(r)), "result", result);
    var data := Obj([Member("resultType", Str(ResultType(r))), Member("result", result)]);
    TwoMembers("status", Str("success"), "data", data);
  }

  /** A document carries a response when its array-opening numbers are the response's
      timestamps: the plain envelope does, and members that open no array with a number,
      such as warnings, do not disturb it. */
  predicate Carries(j: Json, fmt: nat -> string, r: Response) {
    WellFormed(j) && Leading(j) == Tokens(fmt, r)
  }

  lemma {:induction false} MembersAppend(a: seq<Member>, b: seq<Member>)
    ensures LeadingMembers(a + b) == LeadingMembers(a) + LeadingMembers(b)
  {
    if a == [] {
      assert a + b == b;
    } else {
      MembersAppend(a[1..], b);
      assert (a + b)[1..] == a[1..] + b && (a + b)[0] == a[0];
    }
  }

  lemma ExtraMembers(before: seq<Member>, members: seq<Member>, after: seq<Member>, fmt: nat -> string, r: Response)
    requires WellFormed(Obj(before)) && WellFormed(Obj(after)) && Leading(Obj(before)) == [] == Leading(Obj(after))
    requires Carries(Obj(members), fmt, r)
    ensures Carries(Obj(before + members + after), fmt, r)
  {
    hide LeadingMembers;
    var all := before + members + after;
    MembersAppend(before, members);
    MembersAppend(before + members, after);
    forall m | m in all ensures WellEscaped(m.key) && WellFormed(m.value) {
      assert m in before || m in members || m in after;
    }
  }

  /** The scan of a rendered response is exactly its timestamp tokens, in the
      order of its samples. */
  lemma ScanIsTokens(j: Json, fmt: nat -> string, r: Response)
    requires Carries(j, fmt, r)
    ensures Scan(Render(j), false, false) == Tokens(fmt, r)
  {
    ScanIsLeading(j);
  }

  predicate NoEscapes(s: string) {
    forall i :: 0 <= i < |s| ==> s[i] != '"' && s[i] != '\\'
  }

  lemma {:induction false} PlainText(s: string)
    requires NoEscapes(s)
    ensures WellEscaped(s)
  {
    if s != [] { PlainText(s[1..]); }
  }

  lemma Plain()
    ensures WellEscaped("resultType") && WellEscaped("result") && WellEscaped("status") && WellEscaped("data")
    ensures WellEscaped("success") && WellEscaped("vector") && WellEscaped("matrix") && WellEscaped("scalar")
    ensures WellEscaped("metric") && WellEscaped("value") && WellEscaped("values")
  {
    hide WellEscaped;
    PlainText("resultType");
    PlainText("result");
    PlainText("status");
    PlainText("data");
    PlainText("success");
    PlainText("vector");
    PlainText("matrix");
    PlainText("scalar");
    PlainText("metric");
    PlainText("value");
    PlainText("values");
  }

  // ----- extracting the series -----

  datatype Mode = Instant | Range

  datatype ExtractError = MissingType | MissingResult | OutOfTokens | BadTimestamp(ts: TsError) | BadValue | BadScalar
    | MissingValues | WrongType

  /** One element of `data.result` as the structural walk reads it: its labels, the text of
      `value[1]`, the texts of `values[..][1]`, and its own text; `None` where a part is
      missing or not a string. */
  datatype Item = Item(metric: LabelText, value: Option<string>, values: Option<seq<Option<string>>>,
                       text: Option<string>)

  /** `data` of a parsed response. */
  datatype Body = Body(resultType: Option<string>, result: Option<seq<Item>>)

  type SeriesMap = map<Labels, map<int, real>>

  type Reader = string -> Option<real>

  /** `label_key`: the label pairs as a set of bindings, later ones winning. */
  function LabelKey(metric: LabelText): Labels {
    if metric == [] then map[] else LabelKey(metric[..|metric| - 1])[metric[|metric| - 1].0 := metric[|metric| - 1].1]
  }

  const SCALAR_KEY: Labels := map["__result_type__" := "scalar"]

  // ----- what a response denotes, without looking at tokens -----

  function ValueOf(value: Reader, text: string): real {
    if value(text).Some? then value(text).value else 0.0
  }

  function PointMap(points: seq<Point>, value: Reader): map<int, real> {
    if points == [] then map[]
    else
      var last := points[|points| - 1];
      PointMap(points[..|points| - 1], value)[last.ms := ValueOf(value, last.text)]
  }

  function AddPoint(m: SeriesMap, key: Labels, ms: int, v: real): SeriesMap {
    m[key := (if key in m then m[key] else map[])[ms := v]]
  }

  /** An instant vector: samples of one label set share an entry. */
  function VectorMap(series: seq<Series>, value: Reader): SeriesMap {
    if series == [] then map[]
    else
      var (before, last) := (VectorMap(series[..|series| - 1], value), series[|series| - 1]);
      if last.points == [] then before
      else AddPoint(before, LabelKey(last.metric), last.points[0].ms, ValueOf(value, last.points[0].text))
  }

  function MatrixMap(series: seq<Series>, value: Reader): SeriesMap {
    if series == [] then map[]
    else
      var last := series[|series| - 1];
      MatrixMap(series[..|series| - 1], value)[LabelKey(last.metric) := PointMap(last.points, value)]
  }

  function Denotes(r: Response, value: Reader): SeriesMap {
    match r
    case Vector(series) => VectorMap(series, value)
    case Matrix(series) => MatrixMap(series, value)
    case Scalar(p) => map[SCALAR_KEY := map[p.ms as int := ValueOf(value, p.text)]]
  }

  // ----- pairing the walk with the tokens -----

  /** Token `k` is there and is a time `i64` milliseconds hold. */
  predicate TokenReads(tokens: seq<string>, k: nat) {
    k < |tokens| && Grammar(tokens[k]) && Millis(tokens[k]) <= I64_MAX
  }

  predicate SampleReads(tokens: seq<string>, k: nat, text: Option<string>, value: Reader) {
    TokenReads(tokens, k) && text.Some? && value(text.value).Some?
  }

  /** The sample of `text` with token `k` as its time. */
  function Stamped(tokens: seq<string>, k: nat, text: Option<string>): Point {
    Point(if TokenReads(tokens, k) then Millis(tokens[k]) else 0, if text.Some? then text.value else "")
  }

  function Texts(item: Item): seq<Option<string>> { if item.values.Some? then item.values.value else [] }

  /** How many samples precede matrix item `i`. */
  function Before(items: seq<Item>, i: nat): nat
    requires i <= |items|
  {
    if i == 0 then 0 else Before(items, i - 1) + |Texts(items[i - 1])|
  }

  function StampTexts(tokens: seq<string>, used: nat, texts: seq<Option<string>>): seq<Point> {
    seq(|texts|, j requires 0 <= j < |texts| => Stamped(tokens, used + j, texts[j]))
  }

  function StampVector(items: seq<Item>, tokens: seq<string>): seq<Series> {
    seq(|items|, i requires 0 <= i < |items| => Series(items[i].metric, [Stamped(tokens, i, items[i].value)]))
  }

  function StampMatrix(items: seq<Item>, tokens: seq<string>): seq<Series> {
    seq(|items|, i requires 0 <= i < |items| =>
      Series(items[i].metric, StampTexts(tokens, Before(items, i), Texts(items[i]))))
  }

  predicate VectorReads(items: seq<Item>, tokens: seq<string>, value: Reader) {
    forall i :: 0 <= i < |items| ==> SampleReads(tokens, i, items[i].value, value)
  }

  predicate TextsRead(tokens: seq<string>, used: nat, texts: seq<Option<string>>, value: Reader) {
    forall j :: 0 <= j < |texts| ==> SampleReads(tokens, used + j, texts[j], value)
  }

  predicate ItemReads(items: seq<Item>, i: nat, tokens: seq<string>, value: Reader)
    requires i < |items|
  {
    items[i].values.Some? && TextsRead(tokens, Before(items, i), items[i].values.value, value)
  }

  predicate MatrixReads(items: seq<Item>, tokens: seq<string>, value: Reader) {
    forall i :: 0 <= i < |items| ==> ItemReads(items, i, tokens, value)
  }

  // ----- the arms of extract_series -----

  /** `next_ts` on the token at `used`. */
  method NextTs(tokens: seq<string>, used: nat) returns (r: Result<int, ExtractError>)
    ensures r.Ok? <==> TokenReads(tokens, used)
    ensures r.Ok? ==> r.value == Millis(tokens[used])
    ensures r == Err(OutOfTokens) <==> used >= |tokens|
    ensures r.Err? ==> r.error.OutOfTokens? || r.error.BadTimestamp?
  {
    if used >= |tokens| { return Err(OutOfTokens); }
    var ts := ParseTsExact(tokens[used]);
    r := if ts.Ok? then Ok(ts.value) else Err(BadTimestamp(ts.error));
  }

  /** One timestamp and one value, in that order. */
  method NextSample(tokens: seq<string>, used: nat, text: Option<string>, value: Reader)
    returns (r: Result<(int, real), ExtractError>)
    ensures r.Ok? <==> SampleReads(tokens, used, text, value)
    ensures r.Ok? ==> text.Some? && r.value == (Stamped(tokens, used, text).ms as int, ValueOf(value, text.value))
    ensures r == Err(BadValue) <==> TokenReads(tokens, used) && !SampleReads(tokens, used, text, value)
    ensures r.Err? ==> r.error.OutOfTokens? || r.error.BadTimestamp? || r.error.BadValue?
  {
    hide Grammar, Millis;
    var ts := NextTs(tokens, used);
    if ts.Err? { return Err(ts.error); }
    if text.None? || value(text.value).None? { return Err(BadValue); }
    r := Ok((ts.value, value(text.value).value));
  }

  /** The vector arm, on any token list. */
  method ExtractVector(items: seq<Item>, tokens: seq<string>, value: Reader)
    returns (r: Result<SeriesMap, ExtractError>)
    ensures r.Ok? <==> VectorReads(items, tokens, value)
    ensures r.Ok? ==> r.value == VectorMap(StampVector(items, tokens), value)
    ensures r.Err? ==> r.error.OutOfTokens? || r.error.BadTimestamp? || r.error.BadValue?
  {
    hide SampleReads, Stamped, VectorMap, LabelKey, AddPoint, ValueOf;
    var out: SeriesMap := map[];
    ghost var all := StampVector(items, tokens);
    NothingMapped(value);
    for i := 0 to |items|
      invariant forall j :: 0 <= j < i ==> SampleReads(tokens, j, items[j].value, value)
      invariant out == VectorMap(all[..i], value)
    {
      var s := NextSample(tokens, i, items[i].value, value);
      if s.Err? { return Err(s.error); }
      assert all[..i + 1] == all[..i] + [all[i]];
      VectorSnoc(all[..i], all[i], value);
      StampedText(tokens, i, items[i].value);
      out := AddPoint(out, LabelKey(items[i].metric), s.value.0, s.value.1);
    }
    assert all[..|items|] == all;
    r := Ok(out);
  }

  lemma StampedText(tokens: seq<string>, k: nat, text: Option<string>)
    ensures text.Some? ==> Stamped(tokens, k, text).text == text.value
  {
  }

  lemma NothingMapped(value: Reader)
    ensures VectorMap([], value) == map[] && MatrixMap([], value) == map[] && PointMap([], value) == map[]
  {
  }

  lemma VectorSnoc(series: seq<Series>, s: Series, value: Reader)
    requires |s.points| == 1
    ensures VectorMap(series + [s], value)
      == AddPoint(VectorMap(series, value), LabelKey(s.metric), s.points[0].ms, ValueOf(value, s.points[0].text))
  {
    hide LabelKey, AddPoint, ValueOf;
    assert (series + [s])[..|series|] == series;
  }

  lemma MatrixSnoc(series: seq<Series>, s: Series, value: Reader)
    ensures MatrixMap(series + [s], value) == MatrixMap(series, value)[LabelKey(s.metric) := PointMap(s.points, value)]
  {
    hide LabelKey, PointMap;
    assert (series + [s])[..|series|] == series;
  }

  lemma PointSnoc(points: seq<Point>, p: Point, value: Reader)
    ensures PointMap(points + [p], value) == PointMap(points, value)[p.ms as int := ValueOf(value, p.text)]
  {
    hide ValueOf;
    assert (points + [p])[..|points|] == points;
  }

  /** The inner loop of the matrix arm, with the token iterator at `used`. */
  method ExtractPoints(texts: seq<Option<string>>, tokens: seq<string>, used: nat, value: Reader)
    returns (r: Result<map<int, real>, ExtractError>)
    ensures r.Ok? <==> TextsRead(tokens, used, texts, value)
    ensures r.Ok? ==> r.value == PointMap(StampTexts(tokens, used, texts), value)
    ensures r.Err? ==> r.error.OutOfTokens? || r.error.BadTimestamp? || r.error.BadValue?
  {
    hide SampleReads, Stamped, PointMap, ValueOf;
    var out: map<int, real> := map[];
    ghost var all := StampTexts(tokens, used, texts);
    NothingMapped(value);
    for j := 0 to |texts|
      invariant forall i :: 0 <= i < j ==> SampleReads(tokens, used + i, texts[i], value)
      invariant out == PointMap(all[..j], value)
    {
      var s := NextSample(tokens, used + j, texts[j], value);
      if s.Err? { return Err(s.error); }
      assert all[..j + 1] == all[..j] + [all[j]];
      PointSnoc(all[..j], all[j], value);
      StampedText(tokens, used + j, texts[j]);
      out := out[s.value.0 := s.value.1];
    }
    assert all[..|texts|] == all;
    r := Ok(out);
  }

  lemma MatrixBegins(items: seq<Item>, tokens: seq<string>)
    ensures Before(items, 0) == 0 && |StampMatrix(items, tokens)| == |items|
  {
  }

  /** Item `i`: the samples before it, its pairing and when it reads. */
  lemma MatrixStep(items: seq<Item>, i: nat, tokens: seq<string>, value: Reader)
    requires i < |items|
    ensures |StampMatrix(items, tokens)| == |items| && Before(items, i + 1) == Before(items, i) + |Texts(items[i])|
    ensures var (used, texts) := (Before(items, i), Texts(items[i]));
      && StampMatrix(items, tokens)[i] == Series(items[i].metric, StampTexts(tokens, used, texts))
      && (ItemReads(items, i, tokens, value) <==> items[i].values.Some? && TextsRead(tokens, used, texts, value))
  {
    hide StampTexts, TextsRead;
  }

  /** The matrix arm: the token iterator runs on across the series. */
  method ExtractMatrix(items: seq<Item>, tokens: seq<string>, value: Reader)
    returns (r: Result<SeriesMap, ExtractError>)
    ensures r.Ok? <==> MatrixReads(items, tokens, value)
    ensures r.Ok? ==> r.value == MatrixMap(StampMatrix(items, tokens), value)
    ensures r == Err(MissingValues) ==> exists i :: 0 <= i < |items| && items[i].values.None?
    ensures r.Err? ==> !r.error.WrongType? && !r.error.BadScalar? && !r.error.MissingType? && !r.error.MissingResult?
  {
    hide TextsRead, StampTexts, MatrixMap, PointMap, LabelKey, Before, ItemReads, StampMatrix;
    var out: SeriesMap := map[];
    var used := 0;
    ghost var all := StampMatrix(items, tokens);
    NothingMapped(value);
    MatrixBegins(items, tokens);
    for i := 0 to |items|
      invariant used == Before(items, i)
      invariant forall j :: 0 <= j < i ==> ItemReads(items, j, tokens, value)
      invariant out == MatrixMap(all[..i], value)
    {
      MatrixStep(items, i, tokens, value);
      if items[i].values.None? { return Err(MissingValues); }
      var texts := items[i].values.value;
      var m := ExtractPoints(texts, tokens, used, value);
      if m.Err? { return Err(m.error); }
      assert all[..i + 1] == all[..i] + [all[i]];
      MatrixSnoc(all[..i], all[i], value);
      out := out[LabelKey(items[i].metric) := m.value];
      used := used + |texts|;
    }
    assert all[..|items|] == all;
    r := Ok(out);
  }

  /** The result types a mode expects. */
  predicate Expected(mode: Mode, resultType: string) {
    if mode.Range? then resultType == "matrix" else resultType == "vector" || resultType == "scalar"
  }

  /** When the extraction succeeds. */
  predicate Reads(body: Body, tokens: seq<string>, mode: Mode, value: Reader) {
    && body.resultType.Some? && body.result.Some? && Expected(mode, body.resultType.value)
    && var items := body.result.value;
       if mode.Range? then MatrixReads(items, tokens, value)
       else if body.resultType.value == "vector" then VectorReads(items, tokens, value)
       else |items| == 2 && SampleReads(tokens, 0, items[1].text, value)
  }

  /** The response a body and its tokens stand for. */
  function Paired(body: Body, tokens: seq<string>): Response
    requires body.resultType.Some? && body.result.Some?
  {
    var items := body.result.value;
    if body.resultType.value == "matrix" then Matrix(StampMatrix(items, tokens))
    else if body.resultType.value == "vector" then Vector(StampVector(items, tokens))
    else Scalar(Stamped(tokens, 0, if |items| == 2 then items[1].text else None))
  }

  /** `extract_series`, on any parsed body and any token list. */
  method ExtractSeries(body: Body, tokens: seq<string>, mode: Mode, value: Reader)
    returns (r: Result<SeriesMap, ExtractError>)
    ensures r.Ok? <==> Reads(body, tokens, mode, value)
    ensures r.Ok? ==> r.value == Denotes(Paired(body, tokens), value)
    ensures r == Err(MissingType) <==> body.resultType.None?
    ensures r == Err(MissingResult) <==> body.resultType.Some? && body.result.None?
    ensures r == Err(WrongType) <==>
      body.resultType.Some? && body.result.Some? && !Expected(mode, body.resultType.value)
    ensures r == Err(BadScalar) <==>
      mode.Instant? && body.resultType == Some("scalar") && body.result.Some? && |body.result.value| != 2
  {
    hide VectorReads, MatrixReads, SampleReads, VectorMap, MatrixMap, StampVector, StampMatrix, Stamped, ValueOf;
    if body.resultType.None? { return Err(MissingType); }
    if body.result.None? { return Err(MissingResult); }
    var (resultType, items) := (body.resultType.value, body.result.value);
    assert "vector"[0] != "scalar"[0] && "vector"[0] != "matrix"[0] && "scalar"[0] != "matrix"[0];
    if mode.Instant? && resultType == "vector" {
      r := ExtractVector(items, tokens, value);
    } else if mode.Instant? && resultType == "scalar" {
      if |items| != 2 { return Err(BadScalar); }
      var s := NextSample(tokens, 0, items[1].text, value);
      if s.Err? { return Err(s.error); }
      StampedText(tokens, 0, items[1].text);
      r := Ok(map[SCALAR_KEY := map[s.value.0 := s.value.1]]);
    } else if mode.Range? && resultType == "matrix" {
      r := ExtractMatrix(items, tokens, value);
    } else {
      r := Err(WrongType);
    }
  }

  // ----- every sample gets its own timestamp -----

  function TextsOf(points: seq<Point>): seq<Option<string>> {
    seq(|points|, j requires 0 <= j < |points| => Some(points[j].text))
  }

  /** What the structural walk of a response's document sees. */
  function BodyOf(r: Response): Body {
    match r
    case Vector(series) =>
      Body(Some("vector"), Some(seq(|series|, i requires 0 <= i < |series| =>
        Item(series[i].metric, if series[i].points == [] then None else Some(series[i].points[0].text), None, None))))
    case Matrix(series) =>
      Body(Some("matrix"), Some(seq(|series|, i requires 0 <= i < |series| =>
        Item(series[i].metric, None, Some(TextsOf(series[i].points)), None))))
    case Scalar(p) =>
      Body(Some("scalar"), Some([Item([], None, None, None), Item([], None, None, Some(p.text))]))
  }

  ghost predicate ReadsBack(fmt: nat -> string) {
    forall ms: nat :: Grammar(fmt(ms)) && Millis(fmt(ms)) == ms
  }

  /** Both printers qualify. */
  lemma PrintersQualify()
    ensures PrintsNumbers((ms: nat) => TsParam(ms)) && ReadsBack((ms: nat) => TsParam(ms))
    ensures PrintsNumbers((ms: nat) => PromTimestamp(ms)) && ReadsBack((ms: nat) => PromTimestamp(ms))
  {
    hide TsParam, PromTimestamp, IsNumber, Grammar, Millis;
    forall ms: nat
      ensures IsNumber(TsParam(ms)) && IsNumber(PromTimestamp(ms))
      ensures Grammar(TsParam(ms)) && Millis(TsParam(ms)) == ms
      ensures Grammar(PromTimestamp(ms)) && Millis(PromTimestamp(ms)) == ms
    {
      PrintedFormsAreNumbers(ms);
      PrintedFormsReadBack(ms);
    }
  }

  lemma {:induction false} TokenAt(fmt: nat -> string, series: seq<Series>, i: nat, j: nat, used: nat)
    requires i < |series| && j < |series[i].points| && used == PointsBefore(series, i)
    ensures used + j < |SeriesTokens(fmt, series)| && SeriesTokens(fmt, series)[used + j] == fmt(series[i].points[j].ms)
  {
    if i > 0 { TokenAt(fmt, series[1..], i - 1, j, used - |series[0].points|); }
  }

  /** How many samples precede series `i`. */
  function PointsBefore(series: seq<Series>, i: nat): nat
    requires i <= |series|
  {
    if i == 0 then 0 else |series[0].points| + PointsBefore(series[1..], i - 1)
  }

  lemma {:induction false} PointsBeforeNext(series: seq<Series>, i: nat)
    requires i < |series|
    ensures PointsBefore(series, i + 1) == PointsBefore(series, i) + |series[i].points|
  {
    if i > 0 { PointsBeforeNext(series[1..], i - 1); }
  }

  /** Token `k` prints the time of `p`. */
  predicate Prints(fmt: nat -> string, tokens: seq<string>, k: nat, p: Point) {
    k < |tokens| && tokens[k] == fmt(p.ms)
  }

  lemma StampRecovers(fmt: nat -> string, tokens: seq<string>, k: nat, p: Point, value: Reader)
    requires ReadsBack(fmt) && PointOk(p) && Prints(fmt, tokens, k, p)
    ensures Stamped(tokens, k, Some(p.text)) == p
    ensures SampleReads(tokens, k, Some(p.text), value) <==> value(p.text).Some?
  {
    hide Grammar, Millis, WellEscaped;
    assert Grammar(fmt(p.ms)) && Millis(fmt(p.ms)) == p.ms;
  }

  predicate ValuesParse(points: seq<Point>, value: Reader) {
    forall i :: 0 <= i < |points| ==> value(points[i].text).Some?
  }

  /** Every sample value of the response is readable. */
  predicate AllValuesParse(r: Response, value: Reader) {
    match r
    case Scalar(p) => value(p.text).Some?
    case _ => forall i :: 0 <= i < |r.series| ==> ValuesParse(r.series[i].points, value)
  }

  lemma {:induction false} VectorBefore(series: seq<Series>, i: nat)
    requires i <= |series| && forall j :: 0 <= j < |series| ==> |series[j].points| == 1
    ensures PointsBefore(series, i) == i
  {
    if i > 0 { VectorBefore(series[1..], i - 1); }
  }

  lemma VectorPairs(fmt: nat -> string, series: seq<Series>, value: Reader)
    requires ReadsBack(fmt) && WellTyped(Vector(series))
    ensures var (items, tokens) := (BodyOf(Vector(series)).result.value, SeriesTokens(fmt, series));
      && StampVector(items, tokens) == series
      && (VectorReads(items, tokens, value) <==> AllValuesParse(Vector(series), value))
  {
    hide SeriesTokens, Stamped, SampleReads, PointsBefore, WellEscaped, ReadsBack;
    var (items, tokens) := (BodyOf(Vector(series)).result.value, SeriesTokens(fmt, series));
    forall i | 0 <= i < |series|
      ensures series[i].points == [series[i].points[0]] && items[i].value == Some(series[i].points[0].text)
      ensures Stamped(tokens, i, items[i].value) == series[i].points[0]
      ensures SampleReads(tokens, i, items[i].value, value) <==> ValuesParse(series[i].points, value)
    {
      VectorBefore(series, i);
      TokenAt(fmt, series, i, 0, i);
      assert PointOk(series[i].points[0]);
      StampRecovers(fmt, tokens, i, series[i].points[0], value);
    }
    assert StampVector(items, tokens) == series;
  }

  lemma TextsPair(fmt: nat -> string, tokens: seq<string>, used: nat, points: seq<Point>, value: Reader)
    requires ReadsBack(fmt)
    requires forall j :: 0 <= j < |points| ==> PointOk(points[j]) && Prints(fmt, tokens, used + j, points[j])
    ensures StampTexts(tokens, used, TextsOf(points)) == points
    ensures TextsRead(tokens, used, TextsOf(points), value) <==> ValuesParse(points, value)
  {
    hide Stamped, SampleReads, PointOk, Prints, ReadsBack;
    var texts := TextsOf(points);
    forall j | 0 <= j < |points|
      ensures Stamped(tokens, used + j, texts[j]) == points[j]
      ensures SampleReads(tokens, used + j, texts[j], value) <==> value(points[j].text).Some?
    {
      StampRecovers(fmt, tokens, used + j, points[j], value);
    }
  }

  lemma {:induction false} MatrixBefore(series: seq<Series>, i: nat)
    requires i <= |series|
    ensures Before(BodyOf(Matrix(series)).result.value, i) == PointsBefore(series, i)
  {
    if i > 0 {
      MatrixBefore(series, i - 1);
      PointsBeforeNext(series, i - 1);
    }
  }

  lemma MatrixItem(fmt: nat -> string, series: seq<Series>, value: Reader, i: nat)
    requires ReadsBack(fmt) && WellTyped(Matrix(series)) && i < |series|
    ensures var (items, tokens) := (BodyOf(Matrix(series)).result.value, SeriesTokens(fmt, series));
      && StampTexts(tokens, Before(items, i), Texts(items[i])) == series[i].points
      && (ItemReads(items, i, tokens, value) <==> ValuesParse(series[i].points, value))
  {
    hide SeriesTokens, PointsBefore, WellEscaped, ReadsBack, Before, TextsRead, StampTexts;
    var (tokens, points) := (SeriesTokens(fmt, series), series[i].points);
    MatrixBefore(series, i);
    var used := PointsBefore(series, i);
    assert SeriesOk(series[i]);
    forall j | 0 <= j < |points| ensures PointOk(points[j]) && Prints(fmt, tokens, used + j, points[j]) {
      TokenAt(fmt, series, i, j, used);
    }
    TextsPair(fmt, tokens, used, points, value);
  }

  lemma MatrixPairs(fmt: nat -> string, series: seq<Series>, value: Reader)
    requires ReadsBack(fmt) && WellTyped(Matrix(series))
    ensures var (items, tokens) := (BodyOf(Matrix(series)).result.value, SeriesTokens(fmt, series));
      && StampMatrix(items, tokens) == series
      && (MatrixReads(items, tokens, value) <==> AllValuesParse(Matrix(series), value))
  {
    hide SeriesTokens, ReadsBack, Before, ItemReads, StampTexts, ValuesParse, SeriesOk, TextsOf;
    var (items, tokens) := (BodyOf(Matrix(series)).result.value, SeriesTokens(fmt, series));
    forall i | 0 <= i < |series|
      ensures StampTexts(tokens, Before(items, i), Texts(items[i])) == series[i].points
      ensures ItemReads(items, i, tokens, value) <==> ValuesParse(series[i].points, value)
    {
      MatrixItem(fmt, series, value, i);
    }
    assert StampMatrix(items, tokens) == series;
  }

  /** On the tokens scanned from any document that carries a response, every sample is
      stored under its own timestamp, whatever its labels and values contain, and the
      extraction fails exactly on an unreadable value or an unexpected result type. */
  lemma OwnTimestamps(j: Json, fmt: nat -> string, r: Response, mode: Mode, value: Reader)
    requires WellTyped(r) && ReadsBack(fmt) && Carries(j, fmt, r)
    ensures var tokens := Scan(Render(j), false, false);
      && Paired(BodyOf(r), tokens) == r
      && (Reads(BodyOf(r), tokens, mode, value) <==> Expected(mode, ResultType(r)) && AllValuesParse(r, value))
  {
    hide Render, Scan, Leading, SeriesTokens, StampVector, StampMatrix, VectorReads, MatrixReads, ReadsBack, Grammar,
         Millis, WellFormed, Stamped, SampleReads;
    ScanIsTokens(j, fmt, r);
    assert "vector"[0] != "scalar"[0] && "vector"[0] != "matrix"[0] && "scalar"[0] != "matrix"[0];
    match r {
      case Vector(series) => VectorPairs(fmt, series, value);
      case Matrix(series) => MatrixPairs(fmt, series, value);
      case Scalar(p) => StampRecovers(fmt, [fmt(p.ms)], 0, p, value);
    }
  }

  // ----- what the extracted map holds -----

  /** `i` is the last pair that names `k`. */
  predicate LastNamed(metric: LabelText, i: nat, k: string) {
    i < |metric| && metric[i].0 == k && forall b :: i < b < |metric| ==> metric[b].0 != k
  }

  /** A label key binds the names that occur, each to the last value given for it. */
  lemma {:induction false} LabelKeyExact(metric: LabelText, k: string)
    ensures k in LabelKey(metric) <==> exists i: nat :: LastNamed(metric, i, k)
    ensures forall i: nat :: LastNamed(metric, i, k) ==> k in LabelKey(metric) && LabelKey(metric)[k] == metric[i].1
  {
    if metric != [] {
      var (n: nat, front) := (|metric| - 1, metric[..|metric| - 1]);
      LabelKeyExact(front, k);
      assert metric[n].0 == k ==> LastNamed(metric, n, k);
      forall i: nat | i < n && metric[n].0 != k ensures LastNamed(metric, i, k) <==> LastNamed(front, i, k) {}
    }
  }

  /** `j` is the last point at `ms`. */
  predicate LastAt(points: seq<Point>, j: nat, ms: int) {
    j < |points| && points[j].ms == ms && forall b :: j < b < |points| ==> points[b].ms != ms
  }

  lemma {:induction false} PointLookup(points: seq<Point>, value: Reader, ms: int)
    ensures ms in PointMap(points, value) <==> exists j: nat :: LastAt(points, j, ms)
    ensures forall j: nat :: LastAt(points, j, ms) ==>
      ms in PointMap(points, value) && PointMap(points, value)[ms] == ValueOf(value, points[j].text)
  {
    hide ValueOf;
    if points != [] {
      var (n: nat, front) := (|points| - 1, points[..|points| - 1]);
      PointLookup(front, value, ms);
      assert points[n].ms == ms ==> LastAt(points, n, ms);
      forall j: nat | j < n && points[n].ms != ms ensures LastAt(points, j, ms) <==> LastAt(front, j, ms) {}
    }
  }

  /** `i` is the last series with that label key. */
  predicate LastKeyed(series: seq<Series>, i: nat, key: Labels) {
    && i < |series| && LabelKey(series[i].metric) == key
    && forall b :: i < b < |series| ==> LabelKey(series[b].metric) != key
  }

  lemma {:induction false} SeriesLookup(series: seq<Series>, value: Reader, key: Labels)
    ensures key in MatrixMap(series, value) <==> exists i: nat :: LastKeyed(series, i, key)
    ensures forall i: nat :: LastKeyed(series, i, key) ==>
      key in MatrixMap(series, value) && MatrixMap(series, value)[key] == PointMap(series[i].points, value)
  {
    hide LabelKey, PointMap, MatrixMap, LastKeyed;
    if series == [] {
      NothingMapped(value);
      NoneKeyed(key);
    } else {
      var (n: nat, front) := (|series| - 1, series[..|series| - 1]);
      assert series == front + [series[n]];
      MatrixSnoc(front, series[n], value);
      SeriesLookup(front, value, key);
      KeyedSnoc(series, key);
      if LabelKey(series[n].metric) == key {
        assert LastKeyed(series, n, key);
      } else if i: nat :| LastKeyed(front, i, key) {
        assert LastKeyed(series, i, key);
      }
    }
  }

  lemma NoneKeyed(key: Labels)
    ensures forall i: nat :: !LastKeyed([], i, key)
  {
  }

  lemma KeyedSnoc(series: seq<Series>, key: Labels)
    requires series != []
    ensures var (n: nat, front) := (|series| - 1, series[..|series| - 1]);
      && (LabelKey(series[n].metric) == key ==> forall i: nat :: LastKeyed(series, i, key) <==> i == n)
      && (LabelKey(series[n].metric) != key ==>
            forall i: nat :: LastKeyed(series, i, key) <==> LastKeyed(front, i, key))
      && forall i: nat :: LastKeyed(front, i, key) ==> i < n && front[i] == series[i]
  {
    hide LabelKey;
  }

  predicate HasSample(m: SeriesMap, key: Labels, ms: int) { key in m && ms in m[key] }

  /** A matrix has a sample exactly where the last series of a key has a point, and there its
      last one: with distinct keys and times, every point at its own timestamp. */
  lemma MatrixLookup(series: seq<Series>, value: Reader, key: Labels, ms: int)
    ensures var m := MatrixMap(series, value);
      && (HasSample(m, key, ms) <==>
           exists i: nat, j: nat :: LastKeyed(series, i, key) && LastAt(series[i].points, j, ms))
      && forall i: nat, j: nat :: LastKeyed(series, i, key) && LastAt(series[i].points, j, ms) ==>
           HasSample(m, key, ms) && m[key][ms] == ValueOf(value, series[i].points[j].text)
  {
    hide LabelKey, MatrixMap, PointMap, LastKeyed, LastAt, ValueOf;
    SeriesLookup(series, value, key);
    forall i: nat | LastKeyed(series, i, key)
      ensures i < |series|
      ensures ms in PointMap(series[i].points, value) <==> exists j: nat :: LastAt(series[i].points, j, ms)
      ensures forall j: nat :: LastAt(series[i].points, j, ms) ==>
        j < |series[i].points| && ms in PointMap(series[i].points, value)
        && PointMap(series[i].points, value)[ms] == ValueOf(value, series[i].points[j].text)
    {
      LastInRange(series, i, key, ms);
      PointLookup(series[i].points, value, ms);
    }
  }

  lemma LastInRange(series: seq<Series>, i: nat, key: Labels, ms: int)
    requires LastKeyed(series, i, key)
    ensures i < |series| && forall j: nat :: LastAt(series[i].points, j, ms) ==> j < |series[i].points|
  {
  }

  /** Vector element `i` is a sample of `key` at `ms`. */
  predicate SampleOf(series: seq<Series>, i: nat, key: Labels, ms: int) {
    i < |series| && series[i].points != [] && LabelKey(series[i].metric) == key && series[i].points[0].ms == ms
  }

  predicate LastSampleOf(series: seq<Series>, i: nat, key: Labels, ms: int) {
    SampleOf(series, i, key, ms) && forall b: nat :: i < b < |series| ==> !SampleOf(series, b, key, ms)
  }

  /** A vector has a sample exactly where one of its elements is, holding the last such value. */
  lemma {:induction false} VectorLookup(series: seq<Series>, value: Reader, key: Labels, ms: int)
    ensures HasSample(VectorMap(series, value), key, ms) <==> exists i: nat :: LastSampleOf(series, i, key, ms)
    ensures forall i: nat :: LastSampleOf(series, i, key, ms) ==>
      HasSample(VectorMap(series, value), key, ms)
      && VectorMap(series, value)[key][ms] == ValueOf(value, series[i].points[0].text)
  {
    hide LabelKey, ValueOf;
    if series != [] {
      var (n: nat, front) := (|series| - 1, series[..|series| - 1]);
      VectorLookup(front, value, key, ms);
      assert SampleOf(series, n, key, ms) ==> LastSampleOf(series, n, key, ms);
      forall i: nat ensures i != n ==> (SampleOf(series, i, key, ms) <==> SampleOf(front, i, key, ms)) {}
      if !SampleOf(series, n, key, ms) {
        forall i: nat ensures LastSampleOf(series, i, key, ms) <==> LastSampleOf(front, i, key, ms) {
          SampleFront(series, key, ms);
        }
      }
    }
  }

  lemma SampleFront(series: seq<Series>, key: Labels, ms: int)
    requires series != [] && !SampleOf(series, |series| - 1, key, ms)
    ensures forall i: nat :: SampleOf(series, i, key, ms) <==> SampleOf(series[..|series| - 1], i, key, ms)
  {
    hide LabelKey;
  }

  /** A scalar is never taken for a vector, unless an element has the scalar's own synthetic label. */
  lemma ScalarIsNoVector(p: Point, series: seq<Series>, value: Reader)
    requires Denotes(Scalar(p), value) == Denotes(Vector(series), value)
    ensures exists i :: 0 <= i < |series| && LabelKey(series[i].metric) == map["__result_type__" := "scalar"]
  {
    hide LabelKey, VectorMap;
    var m := Denotes(Scalar(p), value);
    VectorLookup(series, value, SCALAR_KEY, p.ms);
    assert HasSample(m, SCALAR_KEY, p.ms);
  }
}
