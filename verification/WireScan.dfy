/** `extract_raw_timestamps` of `e2e/src/metrics.rs`: the string-aware scan for
    bare numbers after an opening bracket, against a printer for compact JSON. */
module WireScan {

  // ----- the scan -----

  predicate NumChar(c: char) {
    '0' <= c <= '9' || c == '.' || c == '-' || c == '+' || c == 'e' || c == 'E'
  }

  /** The length of the longest prefix of number characters. */
  function NumPrefix(s: string): (n: nat)
    ensures n <= |s|
  {
    if s != [] && NumChar(s[0]) then 1 + NumPrefix(s[1..]) else 0
  }

  /** The number that opens a text, if it opens with one. */
  function Opening(s: string): seq<string> {
    var n := NumPrefix(s);
    if n > 0 then [s[..n]] else []
  }

  /** The tokens found in the rest of a document, from a given scanner state. */
  function Scan(s: string, inString: bool, escaped: bool): seq<string> {
    if s == [] then []
    else if inString then
      if escaped then Scan(s[1..], true, false)
      else if s[0] == '\\' then Scan(s[1..], true, true)
      else Scan(s[1..], s[0] != '"', false)
    else if s[0] == '[' then
      Opening(s[1..]) + Scan(s[1..], false, false)
    else Scan(s[1..], s[0] == '"', false)
  }

  /** One character of the scan at position `i`. */
  lemma ScanAt(body: string, i: nat, inString: bool, escaped: bool)
    requires i < |body|
    ensures var (b, rest) := (body[i], body[i + 1..]);
      Scan(body[i..], inString, escaped) ==
      if inString && escaped then Scan(rest, true, false)
      else if inString && b == '\\' then Scan(rest, true, true)
      else if inString then Scan(rest, b != '"', false)
      else if b == '[' then Opening(rest) + Scan(rest, false, false)
      else Scan(rest, b == '"', false)
  {
    hide Opening;
    assert body[i..][0] == body[i] && body[i..][1..] == body[i + 1..];
  }

  /** The inner loop: where the number characters from `start` end. */
  method NumberEnd(body: string, start: nat) returns (j: nat)
    requires start <= |body|
    ensures start <= j <= |body| && j == start + NumPrefix(body[start..])
  {
    j := start;
    while j < |body| && NumChar(body[j])
      invariant start <= j <= |body| && NumPrefix(body[start..]) == (j - start) + NumPrefix(body[j..])
    {
      assert body[j..][0] == body[j] && body[j..][1..] == body[j + 1..];
      j := j + 1;
    }
    assert j < |body| ==> body[j..][0] == body[j];
  }

  /** `extract_raw_timestamps`. */
  method ExtractRawTimestamps(body: string) returns (out: seq<string>)
    ensures out == Scan(body, false, false)
  {
    hide Scan, NumPrefix;
    out := [];
    var inString, escaped, i := false, false, 0;
    assert body[0..] == body;
    while i < |body|
      invariant 0 <= i <= |body| && (!inString ==> !escaped)
      invariant out + Scan(body[i..], inString, escaped) == Scan(body, false, false)
    {
      var b := body[i];
      ScanAt(body, i, inString, escaped);
      if inString {
        if escaped {
          escaped := false;
        } else if b == '\\' {
          escaped := true;
        } else if b == '"' {
          inString := false;
        }
      } else if b == '"' {
        inString := true;
      } else if b == '[' {
        var j := NumberEnd(body, i + 1);
        ghost var (found, rest) := (Opening(body[i + 1..]), Scan(body[i + 1..], false, false));
        assert out + (found + rest) == (out + found) + rest;
        assert body[i + 1..][..j - i - 1] == body[i + 1..j];
        if j > i + 1 { out := out + [body[i + 1..j]]; }
      }
      i := i + 1;
    }
    assert body[i..] == [] && out + [] == out;
    ScanNothing();
  }

  lemma ScanNothing()
    ensures forall inString, escaped :: Scan([], inString, escaped) == []
  {
  }

  // ----- compact JSON -----

  datatype Json = Str(text: string) | Num(token: string) | Word(word: string) | Arr(items: seq<Json>)
    | Obj(members: seq<Member>)

  datatype Member = Member(key: string, value: Json)

  /** The inside of a JSON string: no bare quote, every backslash escapes the
      character after it (section 7 of RFC 8259). */
  predicate WellEscaped(s: string) {
    if s == [] then true
    else if s[0] == '\\' then |s| >= 2 && WellEscaped(s[2..])
    else s[0] != '"' && WellEscaped(s[1..])
  }

  predicate IsNumber(token: string) {
    token != [] && forall i :: 0 <= i < |token| ==> NumChar(token[i])
  }

  predicate Digits(s: string) {
    s != [] && forall i :: 0 <= i < |s| ==> '0' <= s[i] <= '9'
  }

  /** The number grammar of section 6 of RFC 8259, leading zeros aside. */
  ghost predicate IsJsonNumber(s: string) {
    exists whole: string, frac: string, exp: string ::
      IsWhole(whole) && IsFraction(frac) && IsExponent(exp) && s == whole + frac + exp
  }

  predicate IsWhole(s: string) { Digits(s) || (s != [] && s[0] == '-' && Digits(s[1..])) }

  predicate IsFraction(s: string) { s == "" || (s[0] == '.' && Digits(s[1..])) }

  predicate IsExponent(s: string) {
    s == "" || ((s[0] == 'e' || s[0] == 'E')
                && (Digits(s[1..]) || (|s| > 1 && (s[1] == '+' || s[1] == '-') && Digits(s[2..]))))
  }

  /** The scanner's character class holds every JSON number whole, and nothing that can follow one. */
  lemma NumbersAreTokens(s: string)
    ensures IsJsonNumber(s) ==> IsNumber(s)
    ensures !NumChar(',') && !NumChar(']') && !NumChar('}') && !NumChar(' ') && !NumChar('"') && !NumChar('[')
  {
    if IsJsonNumber(s) {
      var whole: string, frac: string, exp: string :|
        IsWhole(whole) && IsFraction(frac) && IsExponent(exp) && s == whole + frac + exp;
      NumberParts(whole, frac, exp);
    }
  }

  lemma NumberParts(whole: string, frac: string, exp: string)
    requires IsWhole(whole) && IsFraction(frac) && IsExponent(exp)
    ensures IsNumber(whole + frac + exp)
  {
    assert forall i :: 0 < i < |whole| ==> whole[i] == whole[1..][i - 1];
    assert forall i :: 0 < i < |frac| ==> frac[i] == frac[1..][i - 1];
    assert forall i :: 0 < i < |exp| ==> exp[i] == exp[1..][i - 1];
    assert forall i :: 1 < i < |exp| ==> exp[i] == exp[2..][i - 2];
  }

  predicate IsWord(word: string) {
    word == "true" || word == "false" || word == "null"
  }

  predicate WellFormed(j: Json) {
    match j
    case Str(text) => WellEscaped(text)
    case Num(token) => IsNumber(token)
    case Word(word) => IsWord(word)
    case Arr(items) => forall i :: 0 <= i < |items| ==> WellFormed(items[i])
    case Obj(members) => forall i :: 0 <= i < |members| ==> WellEscaped(members[i].key) && WellFormed(members[i].value)
  }

  function Quote(s: string): string { "\"" + (s + "\"") }

  function Render(j: Json): string {
    match j
    case Str(text) => Quote(text)
    case Num(token) => token
    case Word(word) => word
    case Arr(items) => "[" + (RenderItems(items) + "]")
    case Obj(members) => "{" + (RenderMembers(members) + "}")
  }

  function RenderItems(items: seq<Json>): string {
    if items == [] then ""
    else if |items| == 1 then Render(items[0])
    else Render(items[0]) + ("," + RenderItems(items[1..]))
  }

  function RenderMembers(members: seq<Member>): string {
    if members == [] then ""
    else
      Quote(members[0].key) + (":" + (Render(members[0].value)
        + (if |members| == 1 then "" else "," + RenderMembers(members[1..]))))
  }

  /** The numbers that open an array, in document order. */
  function Leading(j: Json): seq<string> {
    match j
    case Arr(items) => FirstNumber(items) + LeadingItems(items)
    case Obj(members) => LeadingMembers(members)
    case _ => []
  }

  function LeadingItems(items: seq<Json>): seq<string> {
    if items == [] then [] else Leading(items[0]) + LeadingItems(items[1..])
  }

  function LeadingMembers(members: seq<Member>): seq<string> {
    if members == [] then [] else Leading(members[0].value) + LeadingMembers(members[1..])
  }

  // ----- the scan finds exactly the leading numbers -----

  lemma ScanStep(c: char, rest: string)
    requires c != '[' && c != '"'
    ensures Scan([c] + rest, false, false) == Scan(rest, false, false)
  {
    assert ([c] + rest)[1..] == rest;
  }

  lemma {:induction false} ScanPlain(s: string, rest: string)
    requires forall i :: 0 <= i < |s| ==> s[i] != '[' && s[i] != '"'
    ensures Scan(s + rest, false, false) == Scan(rest, false, false)
  {
    if s == [] {
      assert s + rest == rest;
    } else {
      ScanPlain(s[1..], rest);
      ScanStep(s[0], s[1..] + rest);
      assert s + rest == [s[0]] + (s[1..] + rest);
    }
  }

  /** One character inside a string. */
  lemma InsideStep(c: char, rest: string, escaped: bool)
    ensures Scan([c] + rest, true, escaped)
         == if escaped then Scan(rest, true, false) else Scan(rest, c != '"', c == '\\')
  {
    assert ([c] + rest)[1..] == rest;
  }

  lemma {:induction false} ScanInside(s: string, rest: string)
    requires WellEscaped(s)
    ensures Scan(s + ("\"" + rest), true, false) == Scan(rest, false, false)
  {
    hide Scan;
    var end := "\"" + rest;
    if s == [] {
      InsideStep('"', rest, false);
      assert s + end == ['"'] + rest;
    } else if s[0] == '\\' {
      ScanInside(s[2..], rest);
      InsideStep(s[0], [s[1]] + (s[2..] + end), false);
      InsideStep(s[1], s[2..] + end, true);
      assert s + end == [s[0]] + ([s[1]] + (s[2..] + end));
    } else {
      ScanInside(s[1..], rest);
      InsideStep(s[0], s[1..] + end, false);
      assert s + end == [s[0]] + (s[1..] + end);
    }
  }

  /** Nothing inside a string is ever taken for a timestamp. */
  lemma ScanQuoted(s: string, rest: string)
    requires WellEscaped(s)
    ensures Scan(Quote(s) + rest, false, false) == Scan(rest, false, false)
  {
    ScanInside(s, rest);
    var whole := Quote(s) + rest;
    assert whole[0] == '"' && whole[1..] == s + ("\"" + rest);
  }

  lemma {:induction false} NumPrefixOf(token: string, rest: string)
    requires forall i :: 0 <= i < |token| ==> NumChar(token[i])
    requires rest != [] && !NumChar(rest[0])
    ensures NumPrefix(token + rest) == |token|
  {
    if token == [] {
      assert token + rest == rest;
    } else {
      NumPrefixOf(token[1..], rest);
      assert (token + rest)[1..] == token[1..] + rest;
    }
  }

  function FirstNumber(items: seq<Json>): seq<string> {
    if items != [] && items[0].Num? then [items[0].token] else []
  }

  /** What follows an opening bracket: the first item's number, or no number at all. */
  lemma FirstItem(items: seq<Json>, rest: string)
    requires forall i :: 0 <= i < |items| ==> WellFormed(items[i])
    ensures Opening(RenderItems(items) + ("]" + rest)) == FirstNumber(items)
  {
    hide Opening, NumChar, RenderItems;
    if items == [] {
      RenderNone(rest);
      NothingOpens("]", rest);
    } else {
      var after := AfterFirst(items, rest);
      AfterFirstFacts(items, rest);
      assert WellFormed(items[0]);
      if items[0].Num? {
        NumberOpens(items[0].token, after);
      } else {
        FirstChar(items[0]);
        NothingOpens(Render(items[0]), after);
      }
    }
  }

  lemma RenderNone(rest: string)
    ensures RenderItems([]) + ("]" + rest) == "]" + rest && !NumChar(']')
  {
  }

  function AfterFirst(items: seq<Json>, rest: string): string
    requires items != []
  {
    if |items| == 1 then "]" + rest else "," + (RenderItems(items[1..]) + ("]" + rest))
  }

  lemma AfterFirstFacts(items: seq<Json>, rest: string)
    requires items != []
    ensures RenderItems(items) + ("]" + rest) == Render(items[0]) + AfterFirst(items, rest)
    ensures AfterFirst(items, rest) != [] && !NumChar(AfterFirst(items, rest)[0])
  {
    hide Render;
    if |items| > 1 { Regroup(Render(items[0]), ",", RenderItems(items[1..]), "]" + rest); }
  }

  lemma NumberOpens(token: string, after: string)
    requires IsNumber(token) && after != [] && !NumChar(after[0])
    ensures Opening(token + after) == [token]
  {
    NumPrefixOf(token, after);
    assert (token + after)[..|token|] == token;
  }

  lemma NothingOpens(text: string, after: string)
    requires text != [] && !NumChar(text[0])
    ensures Opening(text + after) == []
  {
    assert (text + after)[0] == text[0];
  }

  lemma FirstChar(j: Json)
    requires WellFormed(j) && !j.Num?
    ensures Render(j) != [] && !NumChar(Render(j)[0])
  {
  }

  /** Scanning a rendered value yields its leading numbers and goes on behind it. */
  lemma {:induction false} ScanRendered(j: Json, rest: string)
    requires WellFormed(j)
    ensures Scan(Render(j) + rest, false, false) == Leading(j) + Scan(rest, false, false)
    decreases j, 1
  {
    hide Scan;
    match j
    case Str(text) => ScanQuoted(text, rest);
    case Num(token) => ScanPlain(token, rest);
    case Word(word) => ScanPlain(word, rest);
    case Arr(items) =>
      ScanItems(items, "]" + rest);
      ScanArray(items, rest);
    case Obj(members) =>
      ScanMembers(members, "}" + rest);
      ScanObject(members, rest);
  }

  lemma Regroup(a: string, b: string, c: string, d: string)
    ensures (a + (b + c)) + d == a + (b + (c + d))
  {
  }

  lemma ScanArray(items: seq<Json>, rest: string)
    requires forall i :: 0 <= i < |items| ==> WellFormed(items[i])
    requires Scan(RenderItems(items) + ("]" + rest), false, false)
          == LeadingItems(items) + Scan("]" + rest, false, false)
    ensures Scan(Render(Arr(items)) + rest, false, false) == Leading(Arr(items)) + Scan(rest, false, false)
  {
    hide RenderItems, LeadingItems, Opening, WellFormed, Scan;
    var inner := RenderItems(items) + ("]" + rest);
    ScanStep(']', rest);
    FirstItem(items, rest);
    Regroup("[", RenderItems(items), "]", rest);
    ScanBracket(inner);
    assert FirstNumber(items) + (LeadingItems(items) + Scan(rest, false, false))
        == (FirstNumber(items) + LeadingItems(items)) + Scan(rest, false, false);
  }

  lemma ScanBracket(inner: string)
    ensures Scan("[" + inner, false, false) == Opening(inner) + Scan(inner, false, false)
  {
    var whole := "[" + inner;
    assert whole[0] == '[' && whole[1..] == inner;
  }

  lemma ScanObject(members: seq<Member>, rest: string)
    requires Scan(RenderMembers(members) + ("}" + rest), false, false)
          == LeadingMembers(members) + Scan("}" + rest, false, false)
    ensures Scan(Render(Obj(members)) + rest, false, false) == Leading(Obj(members)) + Scan(rest, false, false)
  {
    hide RenderMembers, LeadingMembers, Scan;
    ScanStep('}', rest);
    ScanStep('{', RenderMembers(members) + ("}" + rest));
    Regroup("{", RenderMembers(members), "}", rest);
  }

  /** What the items after the first render to. */
  function ItemsTail(items: seq<Json>): string
    requires items != []
  {
    if |items| == 1 then "" else "," + RenderItems(items[1..])
  }

  lemma ItemsCons(items: seq<Json>, rest: string)
    requires items != []
    ensures RenderItems(items) + rest == Render(items[0]) + (ItemsTail(items) + rest)
    ensures LeadingItems(items) == Leading(items[0]) + LeadingItems(items[1..])
  {
    hide Render, Leading;
  }

  lemma NoItems(rest: string)
    ensures RenderItems([]) + rest == rest && LeadingItems([]) == []
  {
  }

  lemma {:induction false} ScanItems(items: seq<Json>, rest: string)
    requires forall i :: 0 <= i < |items| ==> WellFormed(items[i])
    ensures Scan(RenderItems(items) + rest, false, false) == LeadingItems(items) + Scan(rest, false, false)
    decreases items, 0
  {
    hide Scan, Render, RenderItems, Leading, LeadingItems, WellFormed;
    NoItems(rest);
    if items == [] {
      assert [] + Scan(rest, false, false) == Scan(rest, false, false);
    } else {
      var tail := RenderItems(items[1..]) + rest;
      ItemsCons(items, rest);
      ScanRendered(items[0], ItemsTail(items) + rest);
      ScanItems(items[1..], rest);
      if |items| == 1 {
        assert items[1..] == [] && ItemsTail(items) + rest == rest;
      } else {
        ScanStep(',', tail);
        assert ItemsTail(items) + rest == "," + tail;
      }
      var (a, b, d) := (Leading(items[0]), LeadingItems(items[1..]), Scan(rest, false, false));
      assert a + (b + d) == (a + b) + d;
    }
  }

  lemma {:induction false} ScanMembers(members: seq<Member>, rest: string)
    requires forall i :: 0 <= i < |members| ==> WellEscaped(members[i].key) && WellFormed(members[i].value)
    ensures Scan(RenderMembers(members) + rest, false, false) == LeadingMembers(members) + Scan(rest, false, false)
    decreases members, 0
  {
    hide Scan, Quote, WellEscaped, WellFormed;
    if members == [] {
      assert RenderMembers(members) + rest == rest;
    } else {
      var m := members[0];
      var more := if |members| == 1 then "" else "," + RenderMembers(members[1..]);
      if |members| == 1 {
        assert more + rest == rest && LeadingMembers(members[1..]) == [];
      } else {
        ScanMembers(members[1..], rest);
        ScanStep(',', RenderMembers(members[1..]) + rest);
        assert more + rest == "," + (RenderMembers(members[1..]) + rest);
      }
      ScanRendered(m.value, more + rest);
      ScanMember(m, more, rest);
      assert RenderMembers(members) == Quote(m.key) + (":" + (Render(m.value) + more));
    }
  }

  lemma ScanMember(m: Member, more: string, rest: string)
    requires WellEscaped(m.key)
    ensures Scan((Quote(m.key) + (":" + (Render(m.value) + more))) + rest, false, false)
      == Scan(Render(m.value) + (more + rest), false, false)
  {
    hide Scan, Render, Quote, WellEscaped;
    var value := Render(m.value);
    ScanStep(':', value + (more + rest));
    ScanQuoted(m.key, ":" + (value + (more + rest)));
    Regroup(Quote(m.key), ":", value + more, rest);
    assert (value + more) + rest == value + (more + rest);
  }

  /** On every compact JSON document, with any escaped strings, the scan returns
      exactly the numbers that open an array, in document order. */
  lemma ScanIsLeading(j: Json)
    requires WellFormed(j)
    ensures Scan(Render(j), false, false) == Leading(j)
  {
    ScanRendered(j, "");
    assert Render(j) + "" == Render(j);
  }
}
