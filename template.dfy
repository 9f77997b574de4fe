/** The template-tag resolver of `src/utils/Utils.ts`: `replaceTags` finds every
    `{{ … }}` on a single line, `replaceTag` resolves one of them against the
    media record, and `traverseMetaData` walks a dotted path. Every failure is
    an inline marker in the output; nothing is thrown. */
module Template {

  import opened Wrappers
  import opened JsText
  import opened Values

  // ---------------------------------------------------------------------------
  // diagnostic markers
  // ---------------------------------------------------------------------------

  const ObjectUndefinedMarker := "{{ INVALID TEMPLATE TAG - object undefined }}"
  const ListNotArrayMarker := "{{ INVALID TEMPLATE TAG - operator LIST is only applicable on an array }}"
  const EnumNotArrayMarker := "{{ INVALID TEMPLATE TAG - operator ENUM is only applicable on an array }}"
  const InvalidTagMarker := "{{ INVALID TEMPLATE TAG }}"

  function UnknownOperatorMarker(op: string): string
  {
    "{{ INVALID TEMPLATE TAG - unknown operator " + op + " }}"
  }

  // ---------------------------------------------------------------------------
  // the tokenizer: the regular expression /{{.*?}}/g
  // ---------------------------------------------------------------------------

  /** A `}}` starts at position `j`. */
  predicate IsClose(s: string, j: int)
  {
    0 <= j && j + 2 <= |s| && s[j] == '}' && s[j + 1] == '}'
  }

  /** A `}}` starts at `j` and no line terminator lies in `s[k..j]`: the lazy
      `.*?` can stretch from `k` to `j`. */
  predicate ClosesAt(s: string, k: nat, j: nat)
  {
    k <= j && IsClose(s, j) && forall m :: k <= m < j ==> !IsLineTerminator(s[m])
  }

  /** A smallest match: `{{`, then no line terminator, then `}}`, with no earlier
      `}}` after the opening braces. */
  predicate IsTag(raw: string)
  {
    |raw| >= 4 && raw[0] == '{' && raw[1] == '{' && ClosesAt(raw, 2, |raw| - 2)
    && forall j :: 2 <= j < |raw| - 2 ==> !IsClose(raw, j)
  }

  /** Where the lazy `.*?}}` that starts at `k` ends, if it can end at all. */
  function CloseFrom(s: string, k: nat): (r: Option<nat>)
    requires k <= |s|
    ensures r.Some? ==> (k + 2 <= r.value <= |s| && ClosesAt(s, k, r.value - 2)
                         && forall j :: k <= j < r.value - 2 ==> !IsClose(s, j))
    ensures r.None? ==> forall j :: !ClosesAt(s, k, j)
    decreases |s| - k
  {
    if IsClose(s, k) then Some(k + 2)
    else if k < |s| && !IsLineTerminator(s[k]) then
      var r := CloseFrom(s, k + 1);
      assert forall j :: ClosesAt(s, k, j) ==> j == k || ClosesAt(s, k + 1, j);
      r
    else
      None
  }

  /** The end of the match of /{{.*?}}/ that starts at the front of `s`, if any. */
  function TagEnd(s: string): (r: Option<nat>)
    ensures r.Some? ==> 4 <= r.value <= |s| && IsTag(s[..r.value])
    ensures r.None? ==> forall e :: 0 <= e <= |s| ==> !IsTag(s[..e])
  {
    if |s| >= 2 && s[0] == '{' && s[1] == '{' then
      var r := CloseFrom(s, 2);
      if r.Some? then
        assert forall j :: 2 <= j < r.value - 2 ==> IsClose(s[..r.value], j) == IsClose(s, j);
        r
      else
        assert forall e :: 4 <= e <= |s| && IsTag(s[..e]) ==> ClosesAt(s, 2, e - 2);
        r
    else
      None
  }

  /** The match at the front is the only tag that is a prefix: a prefix of `s`
      is a tag exactly when `TagEnd` ends there. */
  lemma TagEndUnique(s: string, e: nat)
    requires e <= |s|
    ensures TagEnd(s) == Some(e) <==> IsTag(s[..e])
  {
    if IsTag(s[..e]) {
      var e' := TagEnd(s).value;
      if e' < e {
        assert IsClose(s[..e], e' - 2);
      } else if e' > e {
        assert IsClose(s[..e], e - 2);
        assert IsClose(s[..e'], e - 2);
      }
    }
  }

  datatype Token = Lit(c: char) | Tag(raw: string)

  /** The template cut into tags and the characters between them, scanning
      left to right as a global regular-expression replace does: at each
      position the smallest match is taken, and scanning resumes after it. */
  function Tokenize(s: string): (ts: seq<Token>)
    ensures forall i :: 0 <= i < |ts| && ts[i].Tag? ==> IsTag(ts[i].raw)
    decreases |s|
  {
    if s == [] then []
    else
      match TagEnd(s)
      case Some(e) => [Tag(s[..e])] + Tokenize(s[e..])
      case None => [Lit(s[0])] + Tokenize(s[1..])
  }

  /** The text a token stands for. */
  function TokenText(t: Token): string
  {
    match t
    case Lit(c) => [c]
    case Tag(raw) => raw
  }

  function Flatten(ts: seq<Token>): string
  {
    if ts == [] then "" else TokenText(ts[0]) + Flatten(ts[1..])
  }

  lemma FlattenCons(t: Token, ts: seq<Token>)
    ensures Flatten([t] + ts) == TokenText(t) + Flatten(ts)
  {
    assert ([t] + ts)[1..] == ts;
  }

  /** Cutting loses nothing: the pieces put back together are the template. */
  lemma {:induction false} FlattenTokenize(s: string)
    ensures Flatten(Tokenize(s)) == s
    decreases |s|, 1
  {
    if s != [] {
      match TagEnd(s)
      case Some(e) =>
        assert Tokenize(s) == [Tag(s[..e])] + Tokenize(s[e..]);
        FlattenAfterCut(s, e, Tag(s[..e]));
      case None =>
        assert Tokenize(s) == [Lit(s[0])] + Tokenize(s[1..]);
        FlattenAfterCut(s, 1, Lit(s[0]));
    }
  }

  lemma {:induction false} FlattenAfterCut(s: string, e: nat, t: Token)
    requires 0 < e <= |s| && TokenText(t) == s[..e]
    requires Tokenize(s) == [t] + Tokenize(s[e..])
    ensures Flatten(Tokenize(s)) == s
    decreases |s|, 0
  {
    var rest := s[e..];
    FlattenTokenize(rest);
    calc {
      Flatten(Tokenize(s));
      Flatten([t] + Tokenize(rest));
      { FlattenCons(t, Tokenize(rest)); }
      s[..e] + Flatten(Tokenize(rest));
      s[..e] + rest;
      s;
    }
  }

  // ---------------------------------------------------------------------------
  // traverseMetaData
  // ---------------------------------------------------------------------------

  /** The value a dotted path reaches, one property per segment; once it is
      `undefined` it stays `undefined`. */
  function Walk(path: seq<string>, o: Value): Value
  {
    if path == [] then o
    else if o == Undefined then Undefined
    else Walk(path[1..], Lookup(o, path[0]))
  }

  /** Walking a concatenated path walks the first part, then the second. */
  lemma {:induction false} WalkAppend(p: seq<string>, q: seq<string>, o: Value)
    ensures Walk(p + q, o) == Walk(q, Walk(p, o))
  {
    if p == [] {
      assert p + q == q;
    } else if o == Undefined {
      UndefinedStays(q);
      if q != [] {
        assert (p + q)[1..] == p[1..] + q;
      }
    } else {
      assert (p + q)[1..] == p[1..] + q;
      WalkAppend(p[1..], q, Lookup(o, p[0]));
    }
  }

  lemma {:induction false} UndefinedStays(path: seq<string>)
    ensures Walk(path, Undefined) == Undefined
  {
  }

  /** If some prefix of the path already reaches `undefined` (a segment is
      missing), the whole walk is `undefined`. */
  lemma MissingSegment(path: seq<string>, o: Value, k: nat)
    requires k <= |path|
    requires Walk(path[..k], o) == Undefined
    ensures Walk(path, o) == Undefined
  {
    WalkAppend(path[..k], path[k..], o);
    assert path[..k] + path[k..] == path;
    UndefinedStays(path[k..]);
  }

  /** `traverseMetaData`: the loop that reassigns `o` once per path segment. */
  method TraverseMetaData(path: seq<string>, record: map<string, Value>) returns (o: Value)
    ensures o == Walk(path, Object(record))
  {
    o := Object(record);
    for i := 0 to |path|
      invariant Walk(path[i..], o) == Walk(path, Object(record))
    {
      assert path[i..][1..] == path[i + 1..];
      if o != Undefined {
        o := Lookup(o, path[i]);
      }
    }
    assert path[|path|..] == [];
  }

  // ---------------------------------------------------------------------------
  // replaceTag
  // ---------------------------------------------------------------------------

  /** The match without its two opening and two closing braces, as the two
      `substring` calls cut it (a match always has at least four characters). */
  function TagBody(raw: string): string
  {
    if |raw| >= 4 then raw[2..|raw| - 2] else ""
  }

  /** The markdown list lines of `LIST`, one per element. */
  function Bullets(items: seq<string>): (lines: seq<string>)
    ensures |lines| == |items|
    ensures forall i :: 0 <= i < |items| ==> lines[i] == "- " + items[i]
  {
    if items == [] then [] else ["- " + items[0]] + Bullets(items[1..])
  }

  /** `LIST`: the list lines joined by line breaks. */
  function ListText(items: seq<string>): string
  {
    Join(Bullets(items), "\n")
  }

  /** `ENUM`: the elements separated by a comma and a space. */
  function EnumText(items: seq<string>): string
  {
    Join(items, ", ")
  }

  /** The operator form: the path is walked first, then the operator applied. */
  function ApplyOperator(op: string, v: Value): string
  {
    if v == Undefined then ObjectUndefinedMarker
    else if op == "LIST" then (if v.StrList? then ListText(v.items) else ListNotArrayMarker)
    else if op == "ENUM" then (if v.StrList? then EnumText(v.items) else EnumNotArrayMarker)
    else UnknownOperatorMarker(op)
  }

  /** `replaceTag`: the text that replaces one match. The body is trimmed once
      and split on every `:`; neither the operator nor the path is trimmed again. */
  function ReplaceTag(raw: string, record: map<string, Value>): string
  {
    var parts := Split(Trim(TagBody(raw)), ':');
    if |parts| == 1 then
      var v := Walk(Split(parts[0], '.'), Object(record));
      if v == Undefined then ObjectUndefinedMarker else ToText(v)
    else if |parts| == 2 then
      ApplyOperator(parts[0], Walk(Split(parts[1], '.'), Object(record)))
    else
      InvalidTagMarker
  }

  /** A body without `:` is a plain dotted path: the tag becomes the text of
      the value the path reaches, or the "object undefined" marker. */
  lemma PlainTag(raw: string, record: map<string, Value>)
    requires ':' !in Trim(TagBody(raw))
    ensures var v := Walk(Split(Trim(TagBody(raw)), '.'), Object(record));
      ReplaceTag(raw, record) == if v == Undefined then ObjectUndefinedMarker else ToText(v)
  {
    SplitNoSeparator(Trim(TagBody(raw)), ':');
  }

  /** A body `op:path` with exactly one `:` walks `path` and applies `op`:
      "object undefined" when the path reaches nothing, whatever the operator;
      the operator's own marker when `LIST` or `ENUM` meets a non-list; the
      rendered list otherwise; and an echo of any other operator name. */
  lemma OperatorTag(raw: string, record: map<string, Value>, op: string, path: string)
    requires Trim(TagBody(raw)) == op + ":" + path
    requires ':' !in op && ':' !in path
    ensures var v := Walk(Split(path, '.'), Object(record));
      var r := ReplaceTag(raw, record);
      (v == Undefined ==> r == ObjectUndefinedMarker)
      && (v != Undefined && op == "LIST" ==> r == if v.StrList? then ListText(v.items) else ListNotArrayMarker)
      && (v != Undefined && op == "ENUM" ==> r == if v.StrList? then EnumText(v.items) else EnumNotArrayMarker)
      && (v != Undefined && op != "LIST" && op != "ENUM" ==> r == UnknownOperatorMarker(op))
  {
    SplitJoin([op, path], ':');
    assert Join([op, path], [':']) == op + ":" + path by {
      assert Join([op, path][1..], [':']) == path;
    }
  }

  /** A body with two or more `:` is malformed. */
  lemma MalformedTag(raw: string, record: map<string, Value>)
    requires Count(Trim(TagBody(raw)), ':') >= 2
    ensures ReplaceTag(raw, record) == InvalidTagMarker
  {
    SplitShape(Trim(TagBody(raw)), ':');
  }

  /** `LIST` output read back line by line is the elements, each after "- ",
      when no element holds a line break. */
  lemma ListLines(items: seq<string>)
    requires |items| >= 1
    requires forall i :: 0 <= i < |items| ==> '\n' !in items[i]
    ensures Split(ListText(items), '\n') == Bullets(items)
  {
    var lines := Bullets(items);
    forall i | 0 <= i < |lines| ensures '\n' !in lines[i] {
      assert lines[i] == "- " + items[i];
    }
    SplitJoin(lines, '\n');
  }

  // ---------------------------------------------------------------------------
  // replaceTags
  // ---------------------------------------------------------------------------

  function RenderToken(t: Token, record: map<string, Value>): string
  {
    match t
    case Lit(c) => [c]
    case Tag(raw) => ReplaceTag(raw, record)
  }

  function Render(ts: seq<Token>, record: map<string, Value>): string
  {
    if ts == [] then "" else RenderToken(ts[0], record) + Render(ts[1..], record)
  }

  /** `replaceTags`: every match is replaced by what `replaceTag` makes of it,
      and the text put in is not scanned again. */
  function ReplaceTags(template: string, record: map<string, Value>): string
  {
    Render(Tokenize(template), record)
  }

  /** A template in which no tag starts anywhere comes back unchanged. */
  lemma {:induction false} NoTagsUnchanged(template: string, record: map<string, Value>)
    requires forall i :: 0 <= i < |template| ==> TagEnd(template[i..]).None?
    ensures ReplaceTags(template, record) == template
    decreases |template|
  {
    if template != [] {
      assert template[0..] == template;
      var rest := template[1..];
      forall i | 0 <= i < |rest| ensures TagEnd(rest[i..]).None? {
        assert rest[i..] == template[i + 1..];
      }
      NoTagsUnchanged(rest, record);
      assert [template[0]] + rest == template;
    }
  }

  /** A character at which no match starts, a `{` included, is copied
      through and the scan resumes right after it. */
  lemma PlainHead(s: string, record: map<string, Value>)
    requires s != [] && TagEnd(s).None?
    ensures ReplaceTags(s, record) == [s[0]] + ReplaceTags(s[1..], record)
  {
    var ts := Tokenize(s[1..]);
    assert Tokenize(s) == [Lit(s[0])] + ts;
    assert ([Lit(s[0])] + ts)[1..] == ts;
  }

  /** Text that holds no `{` is copied through, and the rest is resolved on
      its own: no tag can start inside such text. */
  lemma {:induction false} PlainPrefix(a: string, b: string, record: map<string, Value>)
    requires '{' !in a
    ensures ReplaceTags(a + b, record) == a + ReplaceTags(b, record)
    decreases |a|
  {
    if a != [] {
      var s := a + b;
      assert s[0] == a[0] && s[1..] == a[1..] + b;
      assert TagEnd(s).None?;
      PlainHead(s, record);
      PlainPrefix(a[1..], b, record);
      assert [a[0]] + (a[1..] + ReplaceTags(b, record)) == a + ReplaceTags(b, record);
    } else {
      assert a + b == b;
    }
  }

  lemma HeadTailAppend(a: string, r: string)
    requires a != []
    ensures [a[0]] + (a[1..] + r) == a + r
  {
    assert [a[0]] + a[1..] == a;
  }

  /** No match of `{{.*?}}` starts at position `i` of `s`. */
  predicate NoMatchAt(s: string, i: nat)
    requires i <= |s|
  {
    TagEnd(s[i..]).None?
  }

  lemma NoMatchShift(a: string, b: string, i: nat)
    requires a != [] && i < |a| - 1 && NoMatchAt(a + b, i + 1)
    ensures NoMatchAt(a[1..] + b, i)
  {
    assert (a[1..] + b)[i..] == (a + b)[i + 1..];
  }

  /** Text at none of whose positions a match starts is copied through, and
      the rest is resolved on its own. This covers a `{{` whose `}}` lies
      beyond a line terminator or is missing: the lazy match fails there and
      the braces stay as they are. */
  lemma {:induction false} UnmatchedPrefix(a: string, b: string, record: map<string, Value>)
    requires forall i :: 0 <= i < |a| ==> NoMatchAt(a + b, i)
    ensures ReplaceTags(a + b, record) == a + ReplaceTags(b, record)
    decreases |a|
  {
    if a != [] {
      var s := a + b;
      assert NoMatchAt(s, 0);
      assert s[0..] == s;
      assert s[0] == a[0] && s[1..] == a[1..] + b;
      PlainHead(s, record);
      forall i | 0 <= i < |a[1..]|
        ensures NoMatchAt(a[1..] + b, i)
      {
        NoMatchShift(a, b, i);
      }
      UnmatchedPrefix(a[1..], b, record);
      HeadTailAppend(a, ReplaceTags(b, record));
    } else {
      assert a + b == b;
    }
  }

  /** A tag at the front is replaced by resolving that tag alone, and the text
      after it is resolved on its own; what the tag turns into never joins the
      scan. */
  lemma TagPrefix(raw: string, b: string, record: map<string, Value>)
    requires IsTag(raw)
    ensures ReplaceTags(raw + b, record) == ReplaceTag(raw, record) + ReplaceTags(b, record)
  {
    var s := raw + b;
    assert s[..|raw|] == raw;
    TagEndUnique(s, |raw|);
    assert s[|raw|..] == b;
  }

  // ---------------------------------------------------------------------------
  // worked cases
  // ---------------------------------------------------------------------------

  /** The tags below are written with one space inside each brace pair; the
      trimmed body is what lies between those spaces. */
  lemma SpacedBody(x: string)
    requires x != [] && !IsJsWhitespace(x[0]) && !IsJsWhitespace(x[|x| - 1])
    ensures Trim(TagBody("{{ " + x + " }}")) == x
  {
    var raw := "{{ " + x + " }}";
    assert TagBody(raw) == " " + x + " ";
    assert (" " + x + " ")[1..] == x + " ";
    assert TrimStart(x + " ") == x + " ";
    assert (x + " ")[..|x|] == x;
    assert TrimEnd(x) == x;
  }

  /** A tag written `{{ path }}`, the path not starting or ending in white space
      and holding no `:`, resolves that path. */
  lemma SpacedPlainTag(path: string, record: map<string, Value>)
    requires path != [] && ':' !in path
    requires !IsJsWhitespace(path[0]) && !IsJsWhitespace(path[|path| - 1])
    ensures var v := Walk(Split(path, '.'), Object(record));
      ReplaceTag("{{ " + path + " }}", record) == if v == Undefined then ObjectUndefinedMarker else ToText(v)
  {
    SpacedBody(path);
    BodyPlainTag("{{ " + path + " }}", path, record);
  }

  lemma BodyPlainTag(raw: string, body: string, record: map<string, Value>)
    requires Trim(TagBody(raw)) == body && ':' !in body
    ensures var v := Walk(Split(body, '.'), Object(record));
      ReplaceTag(raw, record) == if v == Undefined then ObjectUndefinedMarker else ToText(v)
  {
    PlainTag(raw, record);
  }

  /** A tag written `{{ op:path }}`, with no white space at the outer ends and
      one `:`, applies `op` to what `path` reaches. */
  lemma SpacedOperatorTag(op: string, path: string, record: map<string, Value>)
    requires op != [] && path != [] && ':' !in op && ':' !in path
    requires !IsJsWhitespace(op[0]) && !IsJsWhitespace(path[|path| - 1])
    ensures ReplaceTag("{{ " + (op + ":" + path) + " }}", record)
      == ApplyOperator(op, Walk(Split(path, '.'), Object(record)))
  {
    OuterEnds(op, ":", path);
    SpacedBody(op + ":" + path);
    BodyOperatorTag("{{ " + (op + ":" + path) + " }}", op, path, record);
  }

  lemma BodyOperatorTag(raw: string, op: string, path: string, record: map<string, Value>)
    requires Trim(TagBody(raw)) == op + ":" + path && ':' !in op && ':' !in path
    ensures ReplaceTag(raw, record) == ApplyOperator(op, Walk(Split(path, '.'), Object(record)))
  {
    OperatorTag(raw, record, op, path);
  }

  /** A one-segment path reaches the record's own property. */
  lemma OneSegmentWalk(key: string, record: map<string, Value>)
    requires '.' !in key
    ensures Walk(Split(key, '.'), Object(record)) == if key in record then record[key] else Undefined
  {
    SplitNoSeparator(key, '.');
    assert Walk([key], Object(record)) == Walk([], Lookup(Object(record), key));
  }

  /** A template that is one tag `{{ key }}` for a one-segment path renders as
      the text of the record's property, or the "object undefined" marker. */
  lemma WrittenPlainTemplate(template: string, key: string, record: map<string, Value>)
    requires template == "{{ " + key + " }}" && IsTag(template)
    requires key != [] && ':' !in key && '.' !in key
    requires !IsJsWhitespace(key[0]) && !IsJsWhitespace(key[|key| - 1])
    ensures ReplaceTags(template, record)
      == if key in record && record[key] != Undefined then ToText(record[key]) else ObjectUndefinedMarker
  {
    TagPrefix(template, "", record);
    assert template + "" == template;
    SpacedPlainTag(key, record);
    OneSegmentWalk(key, record);
  }

  /** A value that itself looks like a tag is put in as it is, not resolved. */
  lemma SubstitutedTextNotRescanned(template: string, record: map<string, Value>)
    requires template == "{{ a }}"
    requires record == map["a" := Str("{{ b }}"), "b" := Str("x")]
    ensures ReplaceTags(template, record) == "{{ b }}"
  {
    assert IsTag(template);
    WrittenPlainTemplate(template, "a", record);
  }

  /** A one-segment operator tag written `{{ op:key }}` applies `op` to the
      record's property `key`. */
  lemma WrittenOperatorTag(raw: string, op: string, key: string, record: map<string, Value>)
    requires raw == "{{ " + (op + ":" + key) + " }}"
    requires op != [] && key != [] && ':' !in op && ':' !in key && '.' !in key
    requires !IsJsWhitespace(op[0]) && !IsJsWhitespace(key[|key| - 1])
    ensures ReplaceTag(raw, record) == ApplyOperator(op, if key in record then record[key] else Undefined)
  {
    SpacedOperatorTag(op, key, record);
    OneSegmentWalk(key, record);
  }

  /** The operator is not trimmed again: in `{{ LIST :genres }}` the operator
      is "LIST ", which is not "LIST". */
  lemma OperatorNotTrimmed(raw: string, record: map<string, Value>)
    requires raw == "{{ LIST :genres }}"
    requires "genres" in record && record["genres"] != Undefined
    ensures ReplaceTag(raw, record) == UnknownOperatorMarker("LIST ")
  {
    WrittenOperatorTag(raw, "LIST ", "genres", record);
  }

  /** `{{ LIST:genres }}` renders a markdown list of the array. */
  lemma ListOperatorRenders(raw: string, record: map<string, Value>)
    requires raw == "{{ LIST:genres }}"
    requires "genres" in record && record["genres"] == StrList(["Rock", "Jazz"])
    ensures ReplaceTag(raw, record) == "- Rock\n- Jazz"
  {
    WrittenOperatorTag(raw, "LIST", "genres", record);
    RockJazzTexts();
  }

  /** `{{ ENUM:genres }}` renders the array as a comma-separated list. */
  lemma EnumOperatorRenders(raw: string, record: map<string, Value>)
    requires raw == "{{ ENUM:genres }}"
    requires "genres" in record && record["genres"] == StrList(["Rock", "Jazz"])
    ensures ReplaceTag(raw, record) == "Rock, Jazz"
  {
    WrittenOperatorTag(raw, "ENUM", "genres", record);
    RockJazzTexts();
  }

  /** `{{ ENUM:title }}` on a string is the ENUM marker, not a generic one. */
  lemma EnumOnStringMarker(raw: string, record: map<string, Value>)
    requires raw == "{{ ENUM:title }}"
    requires "title" in record && record["title"].Str?
    ensures ReplaceTag(raw, record) == EnumNotArrayMarker
  {
    WrittenOperatorTag(raw, "ENUM", "title", record);
  }

  lemma RockJazzTexts()
    ensures ListText(["Rock", "Jazz"]) == "- Rock\n- Jazz"
    ensures EnumText(["Rock", "Jazz"]) == "Rock, Jazz"
  {
    var items := ["Rock", "Jazz"];
    var b := Bullets(items);
    assert b[0] == "- " + "Rock" == "- Rock";
    assert b[1] == "- " + "Jazz" == "- Jazz";
    assert b == ["- Rock", "- Jazz"];
    assert Join(["- Rock", "- Jazz"], "\n") == "- Rock" + "\n" + Join(["- Jazz"], "\n");
    assert Join(items, ", ") == "Rock" + ", " + Join(["Jazz"], ", ");
  }
}
