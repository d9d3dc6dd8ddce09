/** The two body readers of `e2e/src/logs_corpus.rs`, `body_logfmt` and
    `plain_fields`, and the texts they invert. */
module Logfmt {
  import opened Arithmetic
  import opened Common
  import opened Decimal

  // ----- string primitives -----

  /** The Unicode `White_Space` property, which `trim_start` strips. */
  predicate IsWhitespace(c: char) {
    var n := c as int;
    || 9 <= n <= 13 || n == 0x20 || n == 0x85 || n == 0xa0 || n == 0x1680 || 0x2000 <= n <= 0x200a
    || n == 0x2028 || n == 0x2029 || n == 0x202f || n == 0x205f || n == 0x3000
  }

  /** Where `c` first occurs, or the length. */
  function Find(s: string, c: char): (i: nat)
    ensures i <= |s| && c !in s[..i] && (i < |s| ==> s[i] == c)
  {
    if s == [] || s[0] == c then 0
    else
      var i := 1 + Find(s[1..], c);
      assert s[..i] == [s[0]] + s[1..][..i - 1];
      i
  }

  function TrimStart(s: string): (t: string)
    ensures |t| <= |s| && (t == "" || !IsWhitespace(t[0]))
  {
    if s == [] || !IsWhitespace(s[0]) then s else TrimStart(s[1..])
  }

  lemma {:induction false} FindIn(a: string, c: char, b: string)
    requires c !in a
    ensures Find(a + [c] + b, c) == |a|
  {
    if a != [] {
      assert (a + [c] + b)[1..] == a[1..] + [c] + b;
      assert c !in a[1..];
      FindIn(a[1..], c, b);
    }
  }

  lemma {:induction false} FindAbsent(a: string, c: char)
    requires c !in a
    ensures Find(a, c) == |a|
  {
    if a != [] { FindAbsent(a[1..], c); }
  }

  // ----- reading logfmt -----

  /** The value at the start of `rest`, and what follows it. */
  function ReadValue(rest: string): (r: (string, string))
    ensures |r.1| <= |rest|
  {
    if rest != "" && rest[0] == '"' then
      var q := rest[1..];
      var end := Find(q, '"');
      (q[..end], q[if end + 1 < |q| then end + 1 else |q|..])
    else
      var end := Find(rest, ' ');
      (rest[..end], rest[end..])
  }

  /** The key-value pairs of a logfmt line, in order. */
  function Pairs(line: string): seq<(string, string)>
    decreases |line|
  {
    var t := TrimStart(line);
    var eq := Find(t, '=');
    if eq == |t| then []
    else
      var (value, rest) := ReadValue(t[eq + 1..]);
      [(t[..eq], value)] + Pairs(rest)
  }

  /** Later pairs overwrite earlier ones. */
  function Collect(pairs: seq<(string, string)>): Labels {
    if pairs == [] then map[]
    else Collect(pairs[..|pairs| - 1])[pairs[|pairs| - 1].0 := pairs[|pairs| - 1].1]
  }

  lemma PairsNone()
    ensures Pairs("") == []
  {
    assert TrimStart("") == "";
  }

  lemma CollectNone()
    ensures Collect([]) == map[]
  {
  }

  lemma PairsEnd(line: string)
    requires Find(TrimStart(line), '=') == |TrimStart(line)|
    ensures Pairs(line) == [] && Pairs(TrimStart(line)) == []
  {
    hide Find;
    var t := TrimStart(line);
    assert TrimStart(t) == t;
  }

  lemma PairsStep(line: string)
    requires Find(TrimStart(line), '=') < |TrimStart(line)|
    ensures var t := TrimStart(line); var eq := Find(t, '='); var (value, rest) := ReadValue(t[eq + 1..]);
      Pairs(line) == [(t[..eq], value)] + Pairs(rest)
  {
  }

  lemma CollectSnoc(pairs: seq<(string, string)>, key: string, value: string)
    ensures Collect(pairs + [(key, value)]) == Collect(pairs)[key := value]
  {
    assert (pairs + [(key, value)])[..|pairs|] == pairs;
  }

  /** `body_logfmt`: the loop ends because every pair shortens the rest. */
  method BodyLogfmt(body: string) returns (out: Labels)
    ensures out == Collect(Pairs(body))
  {
    hide Pairs, Find, TrimStart, Collect;
    assert Collect([]) == map[] by { CollectNone(); }
    out := map[];
    var rest := body;
    ghost var done := [];
    while rest != ""
      invariant out == Collect(done) && Pairs(body) == done + Pairs(rest)
      decreases |rest|
    {
      ghost var before := rest;
      rest := TrimStart(rest);
      var eq := Find(rest, '=');
      if eq == |rest| {
        PairsEnd(before);
        break;
      }
      var key := rest[..eq];
      rest := rest[eq + 1..];
      ghost var after := rest;
      var value;
      if rest != "" && rest[0] == '"' {
        var q := rest[1..];
        var end := Find(q, '"');
        value := q[..end];
        rest := q[if end + 1 < |q| then end + 1 else |q|..];
      } else {
        var end := Find(rest, ' ');
        value := rest[..end];
        rest := rest[end..];
      }
      assert (value, rest) == ReadValue(after);
      out := out[key := value];
      PairsStep(before);
      CollectSnoc(done, key, value);
      assert done + ([(key, value)] + Pairs(rest)) == (done + [(key, value)]) + Pairs(rest);
      done := done + [(key, value)];
    }
    assert rest == "" ==> Pairs(rest) == [] by { PairsNone(); }
    assert done + [] == done;
  }

  // ----- printing logfmt -----

  datatype Field = Field(key: string, value: string, quoted: bool)

  function ValueText(f: Field): string {
    if f.quoted then "\"" + f.value + "\"" else f.value
  }

  function PrintField(f: Field): string { f.key + "=" + ValueText(f) }

  function PrintLine(fields: seq<Field>): string {
    if fields == [] then ""
    else if |fields| == 1 then PrintField(fields[0])
    else PrintField(fields[0]) + " " + PrintLine(fields[1..])
  }

  function KeyValues(fields: seq<Field>): seq<(string, string)> {
    seq(|fields|, i requires 0 <= i < |fields| => (fields[i].key, fields[i].value))
  }

  predicate KeyOk(f: Field) {
    '=' !in f.key && (f.key == "" || !IsWhitespace(f.key[0]))
  }

  /** Quoted values hold no quote; bare ones hold no space and do not begin with a quote. */
  predicate ValueOk(f: Field) {
    if f.quoted then '"' !in f.value else ' ' !in f.value && (f.value == "" || f.value[0] != '"')
  }

  /** What follows a field: nothing, or a space and the rest. */
  predicate Separated(tail: string) { tail == "" || tail[0] == ' ' }

  lemma SameTrim(a: string, b: string)
    requires TrimStart(a) == TrimStart(b)
    ensures Pairs(a) == Pairs(b)
  {
    hide Find, ReadValue, TrimStart;
  }

  lemma SpaceSkipped(s: string)
    ensures Pairs(" " + s) == Pairs(s)
  {
    assert (" " + s)[1..] == s;
    assert TrimStart(" " + s) == TrimStart(s);
    SameTrim(" " + s, s);
  }

  lemma TrimNothing(f: Field, after: string)
    requires KeyOk(f)
    ensures TrimStart(f.key + "=" + after) == f.key + "=" + after
  {
    var t := f.key + "=" + after;
    assert t[0] == if f.key == "" then '=' else f.key[0];
  }

  lemma KeyReads(f: Field, after: string)
    requires KeyOk(f)
    ensures Pairs(f.key + "=" + after) == [(f.key, ReadValue(after).0)] + Pairs(ReadValue(after).1)
  {
    var t := f.key + "=" + after;
    TrimNothing(f, after);
    FindIn(f.key, '=', after);
    assert t[..|f.key|] == f.key && t[|f.key| + 1..] == after;
  }

  lemma ValueReads(f: Field, tail: string)
    requires ValueOk(f) && Separated(tail)
    ensures ReadValue(ValueText(f) + tail) == (f.value, tail)
  {
    var rest := ValueText(f) + tail;
    if f.quoted {
      var q := rest[1..];
      assert q == f.value + "\"" + tail;
      FindIn(f.value, '"', tail);
      assert q[..|f.value|] == f.value && q[|f.value| + 1..] == tail;
    } else {
      if tail == "" {
        assert rest == f.value;
        FindAbsent(f.value, ' ');
      } else {
        assert rest == f.value + [' '] + tail[1..];
        FindIn(f.value, ' ', tail[1..]);
      }
      assert rest[..|f.value|] == f.value && rest[|f.value|..] == tail;
    }
  }

  /** A value that breaks the rule is never read back. */
  lemma BadValueLost(f: Field, tail: string)
    requires !ValueOk(f)
    ensures ReadValue(ValueText(f) + tail).0 != f.value
  {
    var rest := ValueText(f) + tail;
    var v := ReadValue(rest).0;
    if f.quoted {
      assert '"' !in v;
    } else if f.value != "" && f.value[0] == '"' {
      assert rest[0] == '"';
      assert '"' !in v && '"' in f.value;
    } else {
      assert f.value != "" && rest[0] == f.value[0];
      assert ' ' !in v;
    }
  }

  /** The tail printed after the first field. */
  function Tail(fields: seq<Field>): string
    requires fields != []
  {
    if |fields| == 1 then "" else " " + PrintLine(fields[1..])
  }

  lemma PrintSplits(fields: seq<Field>)
    requires fields != []
    ensures PrintLine(fields) == fields[0].key + "=" + (ValueText(fields[0]) + Tail(fields))
    ensures Separated(Tail(fields))
    ensures Pairs(Tail(fields)) == Pairs(PrintLine(fields[1..]))
  {
    if |fields| > 1 { SpaceSkipped(PrintLine(fields[1..])); }
  }

  /** Every pair read has a key without '=' and without leading whitespace. */
  lemma FirstKeyOk(line: string)
    ensures Pairs(line) == [] || KeyOk(Field(Pairs(line)[0].0, "", false))
  {
    var t := TrimStart(line);
    var eq := Find(t, '=');
    assert eq > 0 ==> t[..eq][0] == t[0];
  }

  predicate AllOk(fields: seq<Field>) {
    forall i :: 0 <= i < |fields| ==> KeyOk(fields[i]) && ValueOk(fields[i])
  }

  /** One field is read back, and leaves the rest to be read, exactly when it is well formed. */
  lemma FirstFieldExactly(fields: seq<Field>)
    requires fields != []
    ensures Pairs(PrintLine(fields)) == KeyValues(fields) <==>
      KeyOk(fields[0]) && ValueOk(fields[0]) && Pairs(PrintLine(fields[1..])) == KeyValues(fields[1..])
  {
    hide PrintLine, Tail, ValueText, Find, ReadValue;
    var f := fields[0];
    var kv := KeyValues(fields);
    PrintSplits(fields);
    assert kv[0] == (f.key, f.value) && kv == [kv[0]] + KeyValues(fields[1..]);
    if !KeyOk(f) {
      FirstKeyOk(PrintLine(fields));
    } else {
      KeyReads(f, ValueText(f) + Tail(fields));
      if !ValueOk(f) {
        BadValueLost(f, Tail(fields));
      } else {
        ValueReads(f, Tail(fields));
        ConsEqual(kv[0], Pairs(PrintLine(fields[1..])), KeyValues(fields[1..]));
      }
    }
  }

  lemma AllOkCons(fields: seq<Field>)
    requires fields != []
    ensures AllOk(fields) <==> KeyOk(fields[0]) && ValueOk(fields[0]) && AllOk(fields[1..])
  {
    assert forall i :: 1 <= i < |fields| ==> fields[i] == fields[1..][i - 1];
  }

  /** Reading inverts printing exactly for the well-formed field lists. */
  lemma {:induction false} RoundTripExactly(fields: seq<Field>)
    ensures Pairs(PrintLine(fields)) == KeyValues(fields) <==> AllOk(fields)
  {
    if fields != [] {
      hide KeyOk, ValueOk, KeyValues;
      FirstFieldExactly(fields);
      AllOkCons(fields);
      RoundTripExactly(fields[1..]);
    }
  }

  lemma ConsEqual<T>(x: T, a: seq<T>, b: seq<T>)
    ensures [x] + a == [x] + b <==> a == b
  {
    assert ([x] + a)[1..] == a && ([x] + b)[1..] == b;
  }

  predicate DistinctKeys(fields: seq<Field>) {
    forall i, j :: 0 <= i < j < |fields| ==> fields[i].key != fields[j].key
  }

  /** `m` maps every field's key to its value and has no other key. */
  predicate Holds(m: Labels, fields: seq<Field>) {
    && (forall i :: 0 <= i < |fields| ==> fields[i].key in m && m[fields[i].key] == fields[i].value)
    && (forall k :: k in m ==> exists i :: 0 <= i < |fields| && fields[i].key == k)
  }

  lemma HoldsSnoc(m: Labels, fields: seq<Field>, f: Field)
    requires Holds(m, fields) && DistinctKeys(fields + [f])
    ensures Holds(m[f.key := f.value], fields + [f])
  {
    var (more, next) := (fields + [f], m[f.key := f.value]);
    assert more[|fields|] == f;
    forall i | 0 <= i < |more| ensures more[i].key in next && next[more[i].key] == more[i].value {
      if i < |fields| { assert more[i] == fields[i] && more[i].key != more[|fields|].key; }
    }
    forall k | k in next ensures exists i :: 0 <= i < |more| && more[i].key == k {
      if k != f.key {
        var i :| 0 <= i < |fields| && fields[i].key == k;
        assert more[i].key == k;
      } else {
        assert more[|fields|].key == k;
      }
    }
  }

  /** With distinct keys the collected map holds exactly the fields. */
  lemma {:induction false} CollectFields(fields: seq<Field>)
    requires DistinctKeys(fields)
    ensures Holds(Collect(KeyValues(fields)), fields)
  {
    if fields == [] {
      CollectNone();
      assert KeyValues(fields) == [];
    } else {
      hide Holds, Collect;
      var (front, f) := (fields[..|fields| - 1], fields[|fields| - 1]);
      CollectFields(front);
      assert KeyValues(fields) == KeyValues(front) + [(f.key, f.value)];
      CollectSnoc(KeyValues(front), f.key, f.value);
      assert fields == front + [f];
      HoldsSnoc(Collect(KeyValues(front)), front, f);
    }
  }

  /** `body_logfmt` inverts the printed line on distinct well-formed fields. */
  lemma LogfmtRoundTrip(fields: seq<Field>)
    requires AllOk(fields) && DistinctKeys(fields)
    ensures Holds(Collect(Pairs(PrintLine(fields))), fields)
  {
    hide Holds, Collect, Pairs, PrintLine;
    RoundTripExactly(fields);
    CollectFields(fields);
  }

  // ----- splitting on spaces -----

  function Split(s: string): (parts: seq<string>)
    ensures parts != []
    decreases |s|
  {
    var i := Find(s, ' ');
    if i == |s| then [s] else [s[..i]] + Split(s[i + 1..])
  }

  function Join(parts: seq<string>): string
    requires parts != []
  {
    if |parts| == 1 then parts[0] else parts[0] + " " + Join(parts[1..])
  }

  predicate SpaceFree(parts: seq<string>) {
    forall i :: 0 <= i < |parts| ==> ' ' !in parts[i]
  }

  lemma {:induction false} SplitJoin(parts: seq<string>)
    requires parts != [] && SpaceFree(parts)
    ensures Split(Join(parts)) == parts
  {
    var s := Join(parts);
    if |parts| == 1 {
      FindAbsent(s, ' ');
    } else {
      var rest := Join(parts[1..]);
      assert s == parts[0] + [' '] + rest;
      FindIn(parts[0], ' ', rest);
      assert s[..|parts[0]|] == parts[0] && s[|parts[0]| + 1..] == rest;
      SplitJoin(parts[1..]);
    }
  }

  lemma SplitStep(s: string)
    requires Find(s, ' ') < |s|
    ensures var i := Find(s, ' '); Split(s) == [s[..i]] + Split(s[i + 1..])
  {
    hide Find;
  }

  lemma CutAt(s: string, i: nat)
    requires i < |s| && s[i] == ' '
    ensures s == s[..i] + " " + s[i + 1..]
  {
  }

  /** Splitting loses nothing: the parts are space-free and join back. */
  lemma {:induction false} JoinSplit(s: string)
    ensures SpaceFree(Split(s)) && Join(Split(s)) == s
    decreases |s|
  {
    var i := Find(s, ' ');
    if i == |s| {
      assert s[..i] == s;
    } else {
      hide Find, Split;
      SplitStep(s);
      CutAt(s, i);
      JoinSplit(s[i + 1..]);
      JoinCons(s[..i], Split(s[i + 1..]));
    }
  }

  lemma JoinCons(part: string, parts: seq<string>)
    requires ' ' !in part && parts != [] && SpaceFree(parts)
    ensures SpaceFree([part] + parts) && Join([part] + parts) == part + " " + Join(parts)
  {
    assert ([part] + parts)[1..] == parts;
  }

  // ----- reading numbers -----

  /** `str::parse::<i64>`: an optional sign, at least one digit, in range. */
  function ParseI64(s: string): Option<int> {
    var negative := s != "" && s[0] == '-';
    var digits := if s != "" && (s[0] == '-' || s[0] == '+') then s[1..] else s;
    if digits == "" || !AllDigits(digits) then None
    else
      var n := if negative then -(Value(digits) as int) else Value(digits);
      if I64_MIN <= n <= I64_MAX then Some(n) else None
  }

  lemma ParseDigits(digits: string)
    requires digits != "" && AllDigits(digits)
    ensures Value(digits) <= I64_MAX ==> ParseI64(digits) == Some(Value(digits))
    ensures -(Value(digits) as int) >= I64_MIN ==> ParseI64("-" + digits) == Some(-(Value(digits) as int))
  {
    assert IsDigit(digits[0]);
    assert ("-" + digits)[1..] == digits;
  }

  lemma ParsePrint(n: int)
    requires I64_MIN <= n <= I64_MAX
    ensures ParseI64(PrintInt(n)) == Some(n)
  {
    hide ParseI64, Value;
    var m := if n < 0 then -n else n;
    ValuePrint(m);
    ParseDigits(Print(m));
  }

  lemma PrintSpaceFree(n: int)
    ensures ' ' !in PrintInt(n)
  {
    var d := Print(if n < 0 then -n else n);
    assert ' ' !in d by { assert forall i :: 0 <= i < |d| ==> IsDigit(d[i]); }
  }

  function StripSuffix(s: string, suffix: string): Option<string> {
    if |suffix| <= |s| && s[|s| - |suffix|..] == suffix then Some(s[..|s| - |suffix|]) else None
  }

  lemma StripAppended(s: string, suffix: string)
    ensures StripSuffix(s + suffix, suffix) == Some(s)
  {
    assert (s + suffix)[|s|..] == suffix && (s + suffix)[..|s|] == s;
  }

  // ----- the plain body -----

  datatype Plain = Plain(verb: string, path: string, status: int, took: int)

  /** `plain_fields`. */
  function PlainFields(body: string): Option<Plain> {
    var parts := Split(body);
    if |parts| != 4 then None
    else if ParseI64(parts[2]).None? then None
    else
      var took := StripSuffix(parts[3], "ms");
      if took.None? || ParseI64(took.value).None? then None
      else Some(Plain(parts[0], parts[1], ParseI64(parts[2]).value, ParseI64(took.value).value))
  }

  function PlainBody(p: Plain): string {
    p.verb + " " + p.path + " " + PrintInt(p.status) + " " + (PrintInt(p.took) + "ms")
  }

  function PlainParts(p: Plain): seq<string> {
    [p.verb, p.path, PrintInt(p.status), PrintInt(p.took) + "ms"]
  }

  lemma PlainBodyJoins(p: Plain)
    ensures PlainBody(p) == Join(PlainParts(p))
  {
    var parts := PlainParts(p);
    assert parts[1..][1..][1..] == [parts[3]];
    assert Join(parts[1..][1..]) == parts[2] + " " + parts[3];
    assert Join(parts[1..]) == parts[1] + " " + (parts[2] + " " + parts[3]);
  }

  /** The plain reader inverts the plain rendering exactly when method and path hold no space. */
  lemma PlainRoundTrip(p: Plain)
    requires I64_MIN <= p.status <= I64_MAX && I64_MIN <= p.took <= I64_MAX
    ensures PlainFields(PlainBody(p)) == Some(p) <==> ' ' !in p.verb && ' ' !in p.path
  {
    var parts := PlainParts(p);
    if ' ' !in p.verb && ' ' !in p.path {
      PlainBodyJoins(p);
      PrintSpaceFree(p.status);
      PrintSpaceFree(p.took);
      SplitJoin(parts);
      ParsePrint(p.status);
      ParsePrint(p.took);
      StripAppended(PrintInt(p.took), "ms");
    } else {
      JoinSplit(PlainBody(p));
    }
  }
}
