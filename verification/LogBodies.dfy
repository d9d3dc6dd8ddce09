/** The regular log records of `e2e/src/logs_corpus.rs`: their typed features,
    the bodies rendered from them, and the two oracles for the logfmt and plain
    cases, one over the features and one over the body text. */
module LogBodies {
  import opened Arithmetic
  import opened Common
  import opened Decimal
  import opened Logfmt

  const SVC_JSON := "svc-json"
  const SVC_LOGFMT := "svc-logfmt"
  const SVC_PLAIN := "svc-plain"

  datatype Record = Record(service: string, tsNs: int, body: string, verb: string, status: int, path: string,
                           level: string, tookMs: int, sizeKb: int, msgIdx: nat)

  // ----- features of the record index -----

  function ServiceOf(i: nat): string {
    if i % 3 == 0 then SVC_JSON else if i % 3 == 1 then SVC_LOGFMT else SVC_PLAIN
  }

  function VerbOf(i: nat): string {
    if (i / 3) % 3 == 0 then "GET" else if (i / 3) % 3 == 1 then "PUT" else "DELETE"
  }

  function StatusOf(i: nat): int {
    if (i / 3) % 4 == 0 then 500 else if (i / 3) % 4 == 1 then 503 else 200
  }

  function PathOf(i: nat): string { if (i / 3) % 2 == 0 then "/api/items" else "/api/users" }

  function LevelOf(i: nat): string { if (i / 3) % 3 == 0 then "error" else "info" }

  function TookMsOf(i: nat): int { 100 + (i / 3) % 5 * 100 }

  function SizeKbOf(i: nat): int { 1 + (i / 3) % 10 }

  /** The fields of the logfmt body. */
  function LogfmtFields(r: Record): seq<Field> {
    [Field("level", r.level, false), Field("took", PrintInt(r.tookMs) + "ms", false),
     Field("size", PrintInt(r.sizeKb) + "kb", false), Field("msg", "op " + Print(r.msgIdx), true)]
  }

  /** `render_body`. */
  function RenderBody(r: Record): string {
    if r.service == SVC_JSON then
      "{\"method\":\"" + r.verb + "\",\"status\":" + PrintInt(r.status) + ",\"took_ms\":" + PrintInt(r.tookMs)
      + ",\"req\":{\"path\":\"" + r.path + "\"}}"
    else if r.service == SVC_LOGFMT then
      ("level=" + r.level) + " " + ("took=" + (PrintInt(r.tookMs) + "ms")) + " "
      + ("size=" + (PrintInt(r.sizeKb) + "kb")) + " " + ("msg=" + ("\"" + ("op " + Print(r.msgIdx)) + "\""))
    else
      r.verb + " " + r.path + " " + PrintInt(r.status) + " " + PrintInt(r.tookMs) + "ms"
  }

  /** Record `i` of the regular part of `generate`. */
  function RecordAt(baseNs: int, stepNs: int, i: nat): Record {
    var r := Record(ServiceOf(i), baseNs + stepNs * i, "", VerbOf(i), StatusOf(i), PathOf(i), LevelOf(i),
                    TookMsOf(i), SizeKbOf(i), i);
    r.(body := RenderBody(r))
  }

  // ----- the oracle over the features -----

  datatype Case = LogfmtStringFilter | LabelFormatRename | NumericDurationFilter | NumericBytesFilter
    | RegexpExtractFilter | PatternExtractFilter | FetchUntilLimitPaged | JsonStringFilter | JsonLabelFilterRegex
    | NumericNumberFilter | LineFormatRewrite

  /** The cases over logfmt and plain bodies. */
  predicate ReadsText(c: Case) {
    !c.FetchUntilLimitPaged? && !c.JsonStringFilter? && !c.JsonLabelFilterRegex? && !c.NumericNumberFilter?
    && !c.LineFormatRewrite?
  }

  function JsonLabels(r: Record): Labels {
    map["method" := r.verb, "status" := PrintInt(r.status), "took_ms" := PrintInt(r.tookMs), "req_path" := r.path]
  }

  function LogfmtLabels(r: Record): Labels {
    map["level" := r.level, "took" := PrintInt(r.tookMs) + "ms", "size" := PrintInt(r.sizeKb) + "kb",
        "msg" := "op " + Print(r.msgIdx)]
  }

  function PlainLabels(r: Record): Labels {
    map["method" := r.verb, "path" := r.path, "status" := PrintInt(r.status)]
  }

  function When(cond: bool, labels: Labels, line: string): Option<(Labels, string)> {
    if cond then Some((labels, line)) else None
  }

  /** `case_projection` on the modelled cases. */
  function CaseProjection(c: Case, r: Record): Option<(Labels, string)> {
    match c
    case LogfmtStringFilter => When(r.service == SVC_LOGFMT && r.level == "error", LogfmtLabels(r), r.body)
    case LabelFormatRename =>
      When(r.service == SVC_LOGFMT && r.level == "error", (LogfmtLabels(r) - {"level"})["lvl" := r.level], r.body)
    case NumericDurationFilter => When(r.service == SVC_LOGFMT && r.tookMs > 250, LogfmtLabels(r), r.body)
    case NumericBytesFilter => When(r.service == SVC_LOGFMT && r.sizeKb * 1000 > 5_000, LogfmtLabels(r), r.body)
    case RegexpExtractFilter => When(r.service == SVC_PLAIN && r.status == 503, PlainLabels(r), r.body)
    case PatternExtractFilter =>
      When(r.service == SVC_PLAIN && r.verb == "PUT", PlainLabels(r)["took" := PrintInt(r.tookMs) + "ms"], r.body)
    case FetchUntilLimitPaged =>
      When(r.service == SVC_JSON && r.status == 503 && r.tookMs == 500, JsonLabels(r), r.body)
    case JsonStringFilter => When(r.service == SVC_JSON && r.status == 500, JsonLabels(r), r.body)
    case JsonLabelFilterRegex =>
      When(r.service == SVC_JSON && (r.verb == "GET" || r.verb == "DELETE"), JsonLabels(r), r.body)
    case NumericNumberFilter => When(r.service == SVC_JSON && r.status >= 500, JsonLabels(r), r.body)
    case LineFormatRewrite => When(r.service == SVC_JSON && r.status == 500, JsonLabels(r), r.verb + " " + r.path)
  }

  // ----- the oracle over the body text -----

  /** `str::parse::<f64>` on plain digits. */
  function ParseNumber(s: string): Option<real> {
    if s != "" && AllDigits(s) then Some(Value(s) as real) else None
  }

  /** The number before `unit` in field `key`. */
  function Quantity(labels: Labels, key: string, unit: string): Option<real> {
    if key !in labels || StripSuffix(labels[key], unit).None? then None
    else ParseNumber(StripSuffix(labels[key], unit).value)
  }

  /** `naive_matches` on the logfmt and plain cases, reading only service and body. */
  predicate NaiveMatches(c: Case, service: string, body: string)
    requires ReadsText(c)
  {
    var labels := Collect(Pairs(body));
    var plain := PlainFields(body);
    match c
    case LogfmtStringFilter | LabelFormatRename =>
      service == SVC_LOGFMT && "level" in labels && labels["level"] == "error"
    case NumericDurationFilter =>
      var ms := Quantity(labels, "took", "ms");
      service == SVC_LOGFMT && ms.Some? && ms.value / 1000.0 > 0.25
    case NumericBytesFilter =>
      var kb := Quantity(labels, "size", "kb");
      service == SVC_LOGFMT && kb.Some? && kb.value * 1000.0 > 5_000.0
    case RegexpExtractFilter => service == SVC_PLAIN && plain.Some? && plain.value.status == 503
    case PatternExtractFilter => service == SVC_PLAIN && plain.Some? && plain.value.verb == "PUT"
  }

  // ----- agreement -----

  /** What rendering needs to be readable: bare words, and numbers an `i64` holds. */
  predicate Readable(r: Record) {
    && ' ' !in r.level && (r.level == "" || r.level[0] != '"') && ' ' !in r.verb && ' ' !in r.path
    && 0 <= r.tookMs <= I64_MAX && 0 <= r.sizeKb <= I64_MAX && I64_MIN <= r.status <= I64_MAX
    && r.body == RenderBody(r)
  }

  lemma FourFields(f: seq<Field>)
    requires |f| == 4
    ensures PrintLine(f) == PrintField(f[0]) + " " + PrintField(f[1]) + " " + PrintField(f[2]) + " " + PrintField(f[3])
  {
    hide PrintField;
    var g := f[1..];
    var h := g[1..];
    assert PrintLine(h[1..]) == PrintField(f[3]);
    assert PrintLine(h) == PrintField(f[2]) + " " + PrintField(f[3]);
    assert PrintLine(g) == PrintField(f[1]) + " " + PrintLine(h);
    assert PrintLine(f) == PrintField(f[0]) + " " + PrintLine(g);
  }

  lemma LogfmtBodyPrints(r: Record)
    requires r.service == SVC_LOGFMT
    ensures RenderBody(r) == PrintLine(LogfmtFields(r))
  {
    hide PrintLine, PrintInt, Print;
    var f := LogfmtFields(r);
    FourFields(f);
    assert "level" + "=" == "level=" && "took" + "=" == "took=" && "size" + "=" == "size=" && "msg" + "=" == "msg=";
    assert PrintField(f[0]) == "level=" + f[0].value && PrintField(f[1]) == "took=" + f[1].value;
    assert PrintField(f[2]) == "size=" + f[2].value && PrintField(f[3]) == "msg=" + ("\"" + f[3].value + "\"");
  }

  lemma DigitsNoSpace(n: nat, suffix: string)
    requires ' ' !in suffix
    ensures ' ' !in Print(n) + suffix && (Print(n) + suffix)[0] != '"' && '"' !in Print(n)
  {
    var d := Print(n);
    assert forall i :: 0 <= i < |d| ==> IsDigit(d[i]);
  }

  lemma KeysReadable(r: Record)
    ensures var f := LogfmtFields(r);
      KeyOk(f[0]) && KeyOk(f[1]) && KeyOk(f[2]) && KeyOk(f[3]) && DistinctKeys(f)
  {
    hide PrintInt, Print;
    assert "took"[0] != "size"[0];
  }

  lemma ValuesReadable(r: Record)
    requires Readable(r)
    ensures var f := LogfmtFields(r); ValueOk(f[0]) && ValueOk(f[1]) && ValueOk(f[2]) && ValueOk(f[3])
  {
    hide RenderBody, Print;
    DigitsNoSpace(r.tookMs, "ms");
    DigitsNoSpace(r.sizeKb, "kb");
    DigitsNoSpace(r.msgIdx, "");
  }

  lemma FieldsReadable(r: Record)
    requires Readable(r)
    ensures AllOk(LogfmtFields(r)) && DistinctKeys(LogfmtFields(r))
  {
    hide KeyOk, ValueOk, DistinctKeys, Readable, PrintInt, Print;
    KeysReadable(r);
    ValuesReadable(r);
  }

  /** The text reader recovers the labels the feature oracle states for a logfmt body. */
  lemma LogfmtLabelsRead(r: Record)
    requires Readable(r) && r.service == SVC_LOGFMT
    ensures Collect(Pairs(r.body)) == LogfmtLabels(r)
  {
    hide Collect, Pairs, PrintLine, RenderBody;
    var f := LogfmtFields(r);
    LogfmtBodyPrints(r);
    FieldsReadable(r);
    LogfmtRoundTrip(f);
    var m := Collect(Pairs(r.body));
    assert "took"[0] != "size"[0];
    assert f[0].key in m && f[1].key in m && f[2].key in m && f[3].key in m;
  }

  /** The text reader recovers the features of a plain body. */
  lemma PlainFieldsRead(r: Record)
    requires Readable(r) && r.service == SVC_PLAIN
    ensures PlainFields(r.body) == Some(Plain(r.verb, r.path, r.status, r.tookMs))
  {
    var p := Plain(r.verb, r.path, r.status, r.tookMs);
    assert r.body == PlainBody(p);
    PlainRoundTrip(p);
  }

  lemma QuantityRead(labels: Labels, key: string, n: nat, unit: string)
    requires key in labels && labels[key] == Print(n) + unit
    ensures Quantity(labels, key, unit) == Some(n as real)
  {
    StripAppended(Print(n), unit);
    ValuePrint(n);
  }

  /** The two oracles keep the same readable records. */
  lemma OraclesAgree(c: Case, r: Record)
    requires Readable(r) && ReadsText(c)
    ensures NaiveMatches(c, r.service, r.body) <==> CaseProjection(c, r).Some?
  {
    hide Collect, Pairs, PlainFields, RenderBody, Quantity;
    if r.service == SVC_LOGFMT {
      LogfmtLabelsRead(r);
      var labels := LogfmtLabels(r);
      assert "took"[0] != "size"[0];
      QuantityRead(labels, "took", r.tookMs, "ms");
      QuantityRead(labels, "size", r.sizeKb, "kb");
    } else if r.service == SVC_PLAIN {
      PlainFieldsRead(r);
    }
  }

  /** Every label but `level` and `lvl` is as read, and `level` is now called `lvl`. */
  ghost predicate Renamed(read: Labels, labels: Labels) {
    && "level" !in labels && "lvl" in labels && "level" in read && labels["lvl"] == read["level"]
    && forall k :: k != "level" && k != "lvl" ==>
         (k in labels <==> k in read) && (k in labels ==> labels[k] == read[k])
  }

  /** The labels a case projects are what the body text says: read as logfmt, or the words the
      text is made of. */
  ghost predicate Projects(c: Case, labels: Labels, body: string) {
    match c
    case LogfmtStringFilter | NumericDurationFilter | NumericBytesFilter => labels == Collect(Pairs(body))
    case LabelFormatRename => Renamed(Collect(Pairs(body)), labels)
    case RegexpExtractFilter =>
      && labels.Keys == {"method", "path", "status"}
      && labels["method"] + " " + labels["path"] + " " + labels["status"] + " " <= body
    case PatternExtractFilter =>
      && labels.Keys == {"method", "path", "status", "took"}
      && body == labels["method"] + " " + labels["path"] + " " + labels["status"] + " " + labels["took"]
    case _ =>
      && labels.Keys == {"method", "status", "took_ms", "req_path"}
      && body == "{\"method\":\"" + labels["method"] + "\",\"status\":" + labels["status"] + ",\"took_ms\":"
                 + labels["took_ms"] + ",\"req\":{\"path\":\"" + labels["req_path"] + "\"}}"
  }

  lemma ProjectedLabels(c: Case, r: Record)
    requires Readable(r) && CaseProjection(c, r).Some?
    ensures var (labels, line) := CaseProjection(c, r).value;
      && Projects(c, labels, r.body)
      && line == if c.LineFormatRewrite? then labels["method"] + " " + labels["req_path"] else r.body
  {
    hide Collect, Pairs, PrintInt, Print, RenderBody, Projects, LogfmtLabels, PlainLabels, JsonLabels;
    if r.service == SVC_LOGFMT {
      ProjectedLogfmt(c, r);
    } else if r.service == SVC_PLAIN {
      ProjectedPlain(c, r);
    } else {
      ProjectedJson(c, r);
    }
  }

  lemma ProjectedLogfmt(c: Case, r: Record)
    requires Readable(r) && CaseProjection(c, r).Some? && r.service == SVC_LOGFMT
    ensures !c.LineFormatRewrite? && Projects(c, CaseProjection(c, r).value.0, r.body)
  {
    hide Collect, Pairs, PrintInt, Print, RenderBody;
    LogfmtLabelsRead(r);
    assert SVC_LOGFMT != SVC_JSON && SVC_LOGFMT != SVC_PLAIN;
  }

  lemma ProjectedPlain(c: Case, r: Record)
    requires Readable(r) && CaseProjection(c, r).Some? && r.service == SVC_PLAIN
    ensures !c.LineFormatRewrite? && Projects(c, CaseProjection(c, r).value.0, r.body)
  {
    hide Collect, Pairs, PrintInt, Print, RenderBody;
    PlainWords(r);
    assert "method"[0] != "status"[0];
    assert SVC_PLAIN != SVC_JSON && SVC_LOGFMT != SVC_PLAIN;
  }

  lemma ProjectedJson(c: Case, r: Record)
    requires Readable(r) && CaseProjection(c, r).Some? && r.service == SVC_JSON
    ensures var (labels, line) := CaseProjection(c, r).value;
      Projects(c, labels, r.body) && labels["method"] == r.verb && labels["req_path"] == r.path
  {
    hide Collect, Pairs, PrintInt, Print, RenderBody;
    JsonWords(r);
    assert "method"[0] != "status"[0];
    assert SVC_PLAIN != SVC_JSON && SVC_LOGFMT != SVC_JSON;
  }

  lemma PlainWords(r: Record)
    requires Readable(r) && r.service == SVC_PLAIN
    ensures var start := r.verb + " " + r.path + " " + PrintInt(r.status) + " ";
      start <= r.body && r.body == start + (PrintInt(r.tookMs) + "ms")
  {
    hide PrintInt, Print;
    var start := r.verb + " " + r.path + " " + PrintInt(r.status) + " ";
    assert r.body == start + PrintInt(r.tookMs) + "ms";
  }

  lemma JsonWords(r: Record)
    requires Readable(r) && r.service == SVC_JSON
    ensures r.body == "{\"method\":\"" + r.verb + "\",\"status\":" + PrintInt(r.status) + ",\"took_ms\":"
                      + PrintInt(r.tookMs) + ",\"req\":{\"path\":\"" + r.path + "\"}}"
  {
    hide PrintInt, Print;
  }

  lemma BodyNotRead(r: Record, body: string)
    ensures RenderBody(r.(body := body)) == RenderBody(r)
  {
  }

  lemma RegularReadable(baseNs: int, stepNs: int, i: nat)
    ensures Readable(RecordAt(baseNs, stepNs, i))
  {
    hide RenderBody;
    var r := Record(ServiceOf(i), baseNs + stepNs * i, "", VerbOf(i), StatusOf(i), PathOf(i), LevelOf(i),
                    TookMsOf(i), SizeKbOf(i), i);
    BodyNotRead(r, RenderBody(r));
  }

  /** Which indices each case keeps: a residue of the index, and one of its position in the service. */
  lemma KeptExactly(c: Case, baseNs: int, stepNs: int, i: nat)
    ensures var j := i / 3;
      CaseProjection(c, RecordAt(baseNs, stepNs, i)).Some? <==> match c {
        case LogfmtStringFilter => i % 3 == 1 && j % 3 == 0
        case LabelFormatRename => i % 3 == 1 && j % 3 == 0
        case NumericDurationFilter => i % 3 == 1 && j % 5 >= 2
        case NumericBytesFilter => i % 3 == 1 && j % 10 >= 5
        case RegexpExtractFilter => i % 3 == 2 && j % 4 == 1
        case PatternExtractFilter => i % 3 == 2 && j % 3 == 1
        case FetchUntilLimitPaged => i % 3 == 0 && j % 4 == 1 && j % 5 == 4
        case JsonStringFilter => i % 3 == 0 && j % 4 == 0
        case JsonLabelFilterRegex => i % 3 == 0 && j % 3 != 1
        case NumericNumberFilter => i % 3 == 0 && j % 4 <= 1
        case LineFormatRewrite => i % 3 == 0 && j % 4 == 0
      }
  {
    hide RenderBody, JsonLabels, LogfmtLabels, PlainLabels;
    assert SVC_JSON[4] != SVC_LOGFMT[4] && SVC_JSON[4] != SVC_PLAIN[4] && SVC_LOGFMT[4] != SVC_PLAIN[4];
    assert "error"[0] != "info"[0] && "GET"[0] != "PUT"[0] && "DELETE"[0] != "PUT"[0];
  }

  /** For every regular record index: the oracles agree, and the features the feature oracle
      labels with are those read from the text. */
  lemma RegularOraclesAgree(c: Case, baseNs: int, stepNs: int, i: nat)
    requires ReadsText(c)
    ensures var r := RecordAt(baseNs, stepNs, i);
      && (NaiveMatches(c, r.service, r.body) <==> CaseProjection(c, r).Some?)
      && (r.service == SVC_LOGFMT ==> Collect(Pairs(r.body)) == LogfmtLabels(r))
      && (r.service == SVC_PLAIN ==> PlainFields(r.body) == Some(Plain(r.verb, r.path, r.status, r.tookMs)))
  {
    hide Collect, Pairs, PlainFields, NaiveMatches, CaseProjection, Readable;
    var r := RecordAt(baseNs, stepNs, i);
    RegularReadable(baseNs, stepNs, i);
    OraclesAgree(c, r);
    if r.service == SVC_LOGFMT { LogfmtLabelsRead(r); }
    if r.service == SVC_PLAIN { PlainFieldsRead(r); }
  }
}
