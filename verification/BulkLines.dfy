/** Which lines of a bulk body make which operation, and what is said of those that make none. */
module BulkLines {
  import opened Options
  import opened Bulk

  // Fields

  /** The value of the first field of that name, or that there is none. */
  ghost predicate Says(fields: seq<(string, Json)>, name: string, value: Option<Json>) {
    match value
    case None => forall i :: 0 <= i < |fields| ==> fields[i].0 != name
    case Some(v) =>
      exists i :: 0 <= i < |fields| && fields[i] == (name, v) && forall j :: 0 <= j < i ==> fields[j].0 != name
  }

  lemma {:induction false} FieldMeans(fields: seq<(string, Json)>, name: string)
    ensures Says(fields, name, Field(fields, name))
  {
    if fields != [] {
      if fields[0].0 == name {
        assert fields[0] == (name, fields[0].1);
      } else {
        var rest := fields[1..];
        FieldMeans(rest, name);
        if Field(rest, name).Some? {
          var i :| 0 <= i < |rest| && rest[i] == (name, Field(rest, name).value)
            && forall j :: 0 <= j < i ==> rest[j].0 != name;
          assert fields[i + 1] == (name, Field(rest, name).value);
          forall j | 0 <= j < i + 1 ensures fields[j].0 != name {
            assert j > 0 ==> fields[j] == rest[j - 1];
          }
        }
      }
    }
  }

  lemma SaysOnce(fields: seq<(string, Json)>, name: string, a: Option<Json>, b: Option<Json>)
    requires Says(fields, name, a) && Says(fields, name, b)
    ensures a == b
  {
  }

  lemma FieldIs(fields: seq<(string, Json)>, name: string, value: Option<Json>)
    ensures Field(fields, name) == value <==> Says(fields, name, value)
  {
    hide Says, Field;
    FieldMeans(fields, name);
    if Says(fields, name, value) {
      SaysOnce(fields, name, value, Field(fields, name));
    }
  }

  // Metadata

  function AsJson(name: Option<string>): Option<Json> {
    match name case None => None case Some(s) => Some(Str(s))
  }

  /** The value is an object whose `_index` and `_id` are these strings, or absent. */
  ghost predicate ReadsAs(value: Json, m: Metadata) {
    && value.Object? && Says(value.fields, "_index", AsJson(m.index)) && Says(value.fields, "_id", AsJson(m.id))
  }

  /** Names a client may give. */
  predicate GoodNames(env: Env, m: Metadata) {
    && (m.index.Some? ==> m.index.value != "" && env.validIndexName(m.index.value))
    && (m.id.Some? ==> m.id.value != "")
  }

  lemma MetadataMeans(env: Env, value: Json, line: nat, m: Metadata)
    ensures ParseMetadata(env, value, line) == Right(m) <==> (ReadsAs(value, m) && GoodNames(env, m))
  {
    hide Says, Field;
    if value.Object? {
      FieldIs(value.fields, "_index", AsJson(m.index));
      FieldIs(value.fields, "_id", AsJson(m.id));
    }
  }

  // Operations

  /** The line is an object with this one field. */
  predicate ActionIs(env: Env, text: string, name: string, value: Json) {
    env.json(text) == Some(Object([(name, value)]))
  }

  /** The lines say the operation: an action line of its name with its metadata and, for a
      write, its source on the line after. */
  ghost predicate Say(env: Env, lines: seq<string>, op: Operation)
    requires lines != []
  {
    && (exists value :: ActionIs(env, lines[0], ActionName(op), value) && ReadsAs(value, op.metadata))
    && (op.Write? ==> |lines| > 1 && env.json(lines[1]) == Some(op.source))
  }

  lemma RecognisedMeans(env: Env, text: string, line: nat, name: string, m: Metadata)
    ensures ParseActionLine(env, text, line) == Recognised(name, m)
      <==> exists value :: ActionIs(env, text, name, value) && ReadsAs(value, m) && GoodNames(env, m)
  {
    hide ReadsAs, GoodNames, ParseMetadata;
    var json := env.json(text);
    if json.Some? && json.value.Object? && |json.value.fields| == 1 {
      var field := json.value.fields[0];
      assert json.value.fields == [(field.0, field.1)];
      MetadataMeans(env, field.1, line, m);
      assert ActionIs(env, text, field.0, field.1);
    }
  }

  /** An item is an operation exactly if the operation is acceptable and the lines say it. */
  lemma ParsedMeans(env: Env, lines: seq<string>, before: nat, op: Operation)
    requires lines != []
    ensures Head(env, lines, before) == Parsed(op) <==> (Acceptable(env, op) && Say(env, lines, op))
  {
    hide ParseActionLine, ReadsAs, ActionIs;
    var line := before + 1;
    RecognisedMeans(env, lines[0], line, ActionName(op), op.metadata);
    if ParseActionLine(env, lines[0], line).Recognised? {
      var name := ParseActionLine(env, lines[0], line).name;
      NamedMeans(name);
      var m := ParseActionLine(env, lines[0], line).metadata;
      RecognisedMeans(env, lines[0], line, name, m);
    }
    assert Acceptable(env, op) <==> GoodNames(env, op.metadata) && (op.Write? ==> op.source.Object?);
  }

  lemma NamedMeans(name: string)
    ensures name == "index" <==> Named(name) == Some(Index)
    ensures name == "create" <==> Named(name) == Some(Create)
    ensures name == "update" <==> Named(name) == Some(Update)
    ensures name == "delete" ==> Named(name) == None
  {
  }

  // Failures

  const NO_NAMES := Metadata(None, None)

  /** A line that is not an object of one field fails alone, without names. */
  lemma LostLines(env: Env, lines: seq<string>, before: nat)
    requires lines != []
    ensures env.json(lines[0]).None? ==> Head(env, lines, before) == Failed(NO_NAMES, InvalidActionJson(before + 1))
    ensures env.json(lines[0]).Some? && !env.json(lines[0]).value.Object? ==>
      Head(env, lines, before) == Failed(NO_NAMES, InvalidAction(before + 1, "action line must be a JSON object"))
    ensures env.json(lines[0]).Some? && env.json(lines[0]).value.Object? && |env.json(lines[0]).value.fields| != 1 ==>
      Head(env, lines, before)
        == Failed(NO_NAMES, InvalidAction(before + 1, "action line must contain exactly one action"))
  {
  }

  /** What is wrong with a name, the first of the two fields first. */
  ghost predicate BadName(env: Env, fields: seq<(string, Json)>, reason: string) {
    exists index, id :: Says(fields, "_index", index) && Says(fields, "_id", id) && BadNames(env, index, id, reason)
  }

  predicate BadNames(env: Env, index: Option<Json>, id: Option<Json>, reason: string) {
    BadIndex(env, index, reason) || (GoodIndex(env, index) && BadId(id, reason))
  }

  predicate GoodIndex(env: Env, index: Option<Json>) {
    index.Some? ==> index.value.Str? && index.value.chars != "" && env.validIndexName(index.value.chars)
  }

  predicate BadIndex(env: Env, index: Option<Json>, reason: string) {
    && index.Some?
    && if !index.value.Str? then reason == "_index metadata must be a string"
       else if index.value.chars == "" then reason == "_index metadata must not be empty"
       else !env.validIndexName(index.value.chars) && reason == "_index metadata must be a valid index name"
  }

  predicate BadId(id: Option<Json>, reason: string) {
    && id.Some?
    && if !id.value.Str? then reason == "_id metadata must be a string"
       else id.value.chars == "" && reason == "_id metadata must not be empty"
  }

  /** Metadata that is not an object, or has a bad name, fails without names whatever the action. */
  lemma MetadataFailures(env: Env, lines: seq<string>, before: nat, name: string, value: Json, reason: string)
    requires lines != [] && ActionIs(env, lines[0], name, value)
    ensures Head(env, lines, before) == Failed(NO_NAMES, InvalidAction(before + 1, reason)) <==>
      if value.Object? then BadName(env, value.fields, reason) else reason == "action metadata must be a JSON object"
  {
    hide Says, Field;
    if value.Object? {
      var index, id := Field(value.fields, "_index"), Field(value.fields, "_id");
      FieldIs(value.fields, "_index", index);
      FieldIs(value.fields, "_id", id);
      forall i | Says(value.fields, "_index", i) ensures i == index { FieldIs(value.fields, "_index", i); }
      forall i | Says(value.fields, "_id", i) ensures i == id { FieldIs(value.fields, "_id", i); }
      assert BadName(env, value.fields, reason) <==> BadNames(env, index, id, reason);
      NameFailures(env, index, id, before + 1, reason);
    }
  }

  lemma NameFailures(env: Env, index: Option<Json>, id: Option<Json>, line: nat, reason: string)
    ensures BadNames(env, index, id, reason) <==>
      || OptionalString(env, index, line, "_index") == Wrong(InvalidAction(line, reason))
      || (OptionalString(env, index, line, "_index").Right?
          && OptionalString(env, id, line, "_id") == Wrong(InvalidAction(line, reason)))
  {
    hide OptionalString, BadIndex, GoodIndex, BadId;
    IndexFailures(env, index, line, reason);
    IdFailures(env, id, line, reason);
  }

  lemma IndexFailures(env: Env, index: Option<Json>, line: nat, reason: string)
    ensures BadIndex(env, index, reason)
      <==> OptionalString(env, index, line, "_index") == Wrong(InvalidAction(line, reason))
    ensures GoodIndex(env, index) <==> OptionalString(env, index, line, "_index").Right?
  {
  }

  lemma IdFailures(env: Env, id: Option<Json>, line: nat, reason: string)
    ensures BadId(id, reason) <==> OptionalString(env, id, line, "_id") == Wrong(InvalidAction(line, reason))
  {
    assert "_id" != "_index";
  }

  function Word(action: Action): string {
    match action case Index => "index" case Create => "create" case Update => "update"
  }

  /** An action line with good names fails with those names: a name that is none of the four is
      unknown; a write without a source line, or with one that is no object, is missing it. */
  lemma ActionFailures(env: Env, lines: seq<string>, before: nat, name: string, value: Json, m: Metadata,
                       action: Action)
    requires lines != [] && ActionIs(env, lines[0], name, value) && ReadsAs(value, m) && GoodNames(env, m)
    ensures name !in ["index", "create", "update", "delete"] ==>
      Head(env, lines, before) == Failed(m, UnknownAction(before + 1, name))
    ensures name == Word(action) && |lines| == 1 ==>
      Head(env, lines, before) == Failed(m, MissingSource(before + 1, action))
    ensures name == Word(action) && |lines| > 1 && env.json(lines[1]).None? ==>
      Head(env, lines, before) == Failed(m, InvalidSourceJson(before + 2, action))
    ensures name == Word(action) && |lines| > 1 && env.json(lines[1]).Some? && !env.json(lines[1]).value.Object? ==>
      Head(env, lines, before) == Failed(m, SourceNotObject(before + 2, action))
  {
    hide ParseActionLine, ReadsAs, ActionIs, GoodNames;
    RecognisedMeans(env, lines[0], before + 1, name, m);
    NamedMeans(name);
  }

  /** An item takes the next line too exactly if its action line names a write, whatever its
      metadata, and there is a next line. */
  lemma SpanMeans(env: Env, lines: seq<string>)
    requires lines != []
    ensures Span(env, lines) == 2 <==>
      |lines| > 1 && exists action, value :: ActionIs(env, lines[0], Word(action), value)
  {
    hide ParseMetadata;
    var json := env.json(lines[0]);
    if json.Some? && json.value.Object? && |json.value.fields| == 1 {
      var field := json.value.fields[0];
      assert json.value.fields == [(field.0, field.1)];
      NamedMeans(field.0);
      if Named(field.0).Some? {
        assert ActionIs(env, lines[0], Word(Named(field.0).value), field.1);
      }
    }
  }

  // Lines

  /** A line ends at a newline, which takes one carriage return before it along; the last line
      needs no newline, and keeps its carriage return then. */
  lemma LineLaws(text: string, rest: string)
    requires '\n' !in text
    ensures Lines("") == []
    ensures text != "" ==> Lines(text) == [text]
    ensures Lines(text + "\r\n" + rest) == [text] + Lines(rest)
    ensures (text == "" || text[|text| - 1] != '\r') ==> Lines(text + "\n" + rest) == [text] + Lines(rest)
  {
    hide Lines, FirstNewline;
    NoLines();
    if text != "" {
      NoNewline(text);
    }
    Returned(text, rest);
    if text == "" || text[|text| - 1] != '\r' {
      FirstLine(text, rest);
    }
  }

  lemma {:induction false} NoNewlineIn(text: string)
    requires '\n' !in text
    ensures FirstNewline(text) == |text|
  {
    if text != "" {
      NoNewlineIn(text[1..]);
    }
  }

  lemma NoNewline(text: string)
    requires '\n' !in text && text != ""
    ensures Lines(text) == [text]
  {
    hide FirstNewline;
    NoNewlineIn(text);
  }

  lemma Returned(text: string, rest: string)
    requires '\n' !in text
    ensures Lines(text + "\r\n" + rest) == [text] + Lines(rest)
  {
    hide FirstNewline, Lines;
    var line := text + "\r";
    var s := line + "\n" + rest;
    assert text + "\r\n" + rest == s;
    NewlineAfter(line, rest);
    LinesStep(s);
    assert s[..|line|] == line && s[|line| + 1..] == rest && line[..|text|] == text;
  }
}
