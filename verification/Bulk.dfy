/** The bulk endpoint: the line-by-line parser that resynchronises after a bad item, and the
    slot-by-slot application of what it parsed. */
module Bulk {
  import opened Sequences
  import opened Options

  /** Parsed JSON; the fields of an object have distinct names. */
  datatype Json =
    | Null
    | Bool(flag: bool)
    | Number(text: string)
    | Str(chars: string)
    | Array(items: seq<Json>)
    | Object(fields: seq<(string, Json)>)

  /** The library's JSON reader and the index-name rule. */
  datatype Env = Env(json: string -> Option<Json>, validIndexName: string -> bool)

  datatype Action = Index | Create | Update

  datatype ParseError =
    | InvalidActionJson(line: nat)
    | InvalidSourceJson(line: nat, action: Action)
    | InvalidAction(line: nat, reason: string)
    | UnknownAction(line: nat, name: string)
    | MissingSource(line: nat, action: Action)
    | SourceNotObject(line: nat, action: Action)

  datatype Metadata = Metadata(index: Option<string>, id: Option<string>)

  datatype Operation = Write(action: Action, metadata: Metadata, source: Json) | Delete(metadata: Metadata)

  /** One item per action, in body order. */
  datatype Item = Parsed(operation: Operation) | Failed(metadata: Metadata, error: ParseError)

  // Lines

  function FirstNewline(s: string): (n: nat)
    ensures n <= |s|
    ensures n < |s| ==> s[n] == '\n'
  {
    if s == "" || s[0] == '\n' then 0 else 1 + FirstNewline(s[1..])
  }

  function StripReturn(s: string): string {
    if s != "" && s[|s| - 1] == '\r' then s[..|s| - 1] else s
  }

  /** The library's `lines`: split after every newline, drop the line ending. */
  function Lines(s: string): seq<string> {
    if s == "" then []
    else
      var n := FirstNewline(s);
      if n == |s| then [s] else [StripReturn(s[..n])] + Lines(s[n + 1..])
  }

  lemma {:induction false} FirstNewlineConcat(a: string, b: string)
    requires FirstNewline(a) < |a|
    ensures FirstNewline(a + b) == FirstNewline(a)
  {
    if a[0] != '\n' {
      assert (a + b)[1..] == a[1..] + b;
      FirstNewlineConcat(a[1..], b);
    }
  }

  lemma {:induction false} NewlineFound(a: string)
    requires a != "" && a[|a| - 1] == '\n'
    ensures FirstNewline(a) < |a|
  {
    if a[0] != '\n' {
      NewlineFound(a[1..]);
    }
  }

  lemma SplitConcat(a: string, b: string, n: nat)
    requires n < |a|
    ensures (a + b)[..n] == a[..n] && (a + b)[n + 1..] == a[n + 1..] + b
    ensures a[n + 1..] == "" || a[n + 1..][|a[n + 1..]| - 1] == a[|a| - 1]
  {
  }

  lemma LinesStep(s: string)
    requires FirstNewline(s) < |s|
    ensures Lines(s) == [StripReturn(s[..FirstNewline(s)])] + Lines(s[FirstNewline(s) + 1..])
  {
    hide StripReturn, FirstNewline;
  }

  lemma NoLines()
    ensures Lines("") == []
  {
  }

  /** Bodies that end a line can be put one after the other. */
  lemma {:induction false} LinesConcat(a: string, b: string)
    requires a == "" || a[|a| - 1] == '\n'
    ensures Lines(a + b) == Lines(a) + Lines(b)
    decreases |a|
  {
    hide FirstNewline, StripReturn, Lines;
    if a == "" {
      assert a + b == b;
      NoLines();
    } else {
      NewlineFound(a);
      FirstNewlineConcat(a, b);
      var n := FirstNewline(a);
      LinesStep(a);
      LinesStep(a + b);
      SplitConcat(a, b, n);
      LinesConcat(a[n + 1..], b);
      Reassociate([StripReturn(a[..n])], Lines(a[n + 1..]), Lines(b));
    }
  }

  // One action line

  datatype Outcome<+T> = Right(value: T) | Wrong(error: ParseError)

  function Field(fields: seq<(string, Json)>, name: string): Option<Json> {
    if fields == [] then None else if fields[0].0 == name then Some(fields[0].1) else Field(fields[1..], name)
  }

  function EmptyReason(name: string): string {
    if name == "_index" then "_index metadata must not be empty"
    else if name == "_id" then "_id metadata must not be empty"
    else "metadata field must not be empty"
  }

  function TypeReason(name: string): string {
    if name == "_index" then "_index metadata must be a string"
    else if name == "_id" then "_id metadata must be a string"
    else "metadata field must be a string"
  }

  function OptionalString(env: Env, value: Option<Json>, line: nat, name: string): Outcome<Option<string>> {
    match value
    case None => Right(None)
    case Some(Str(s)) =>
      if s == "" then Wrong(InvalidAction(line, EmptyReason(name)))
      else if name == "_index" && !env.validIndexName(s)
      then Wrong(InvalidAction(line, "_index metadata must be a valid index name"))
      else Right(Some(s))
    case Some(_) => Wrong(InvalidAction(line, TypeReason(name)))
  }

  function ParseMetadata(env: Env, value: Json, line: nat): Outcome<Metadata> {
    if !value.Object? then Wrong(InvalidAction(line, "action metadata must be a JSON object"))
    else
      match OptionalString(env, Field(value.fields, "_index"), line, "_index")
      case Wrong(e) => Wrong(e)
      case Right(index) =>
        match OptionalString(env, Field(value.fields, "_id"), line, "_id")
        case Wrong(e) => Wrong(e)
        case Right(id) => Right(Metadata(index, id))
  }

  /** An action line: the action name when it could be recovered, and its metadata. */
  datatype ActionLine =
    | Recognised(name: string, metadata: Metadata)
    | Recovered(name: string, error: ParseError)
    | Lost(error: ParseError)

  function ParseActionLine(env: Env, text: string, line: nat): ActionLine {
    match env.json(text)
    case None => Lost(InvalidActionJson(line))
    case Some(value) =>
      if !value.Object? then Lost(InvalidAction(line, "action line must be a JSON object"))
      else if |value.fields| != 1 then Lost(InvalidAction(line, "action line must contain exactly one action"))
      else
        match ParseMetadata(env, value.fields[0].1, line)
        case Right(metadata) => Recognised(value.fields[0].0, metadata)
        case Wrong(e) => Recovered(value.fields[0].0, e)
  }

  /** The actions that take a source line. */
  function Named(name: string): Option<Action> {
    if name == "index" then Some(Index)
    else if name == "create" then Some(Create)
    else if name == "update" then Some(Update)
    else None
  }

  function ParseSource(env: Env, text: string, line: nat, action: Action): Outcome<Json> {
    match env.json(text)
    case None => Wrong(InvalidSourceJson(line, action))
    case Some(source) => if !source.Object? then Wrong(SourceNotObject(line, action)) else Right(source)
  }

  // The grammar of a body

  /** The action line calls for a source line after it. */
  predicate WantsSource(env: Env, text: string) {
    match ParseActionLine(env, text, 0)
    case Recognised(name, _) => Named(name).Some?
    case Recovered(name, _) => Named(name).Some?
    case Lost(_) => false
  }

  function Span(env: Env, lines: seq<string>): (n: nat)
    requires lines != []
    ensures 1 <= n <= 2 && n <= |lines|
  {
    if WantsSource(env, lines[0]) && |lines| > 1 then 2 else 1
  }

  /** The item at the head of the lines, when `before` lines precede them in the body. */
  function Head(env: Env, lines: seq<string>, before: nat): Item
    requires lines != []
  {
    var line := before + 1;
    match ParseActionLine(env, lines[0], line)
    case Recognised(name, metadata) => (
      match Named(name)
      case Some(action) =>
        if |lines| == 1 then Failed(metadata, MissingSource(line, action))
        else
          (match ParseSource(env, lines[1], line + 1, action)
          case Right(source) => Parsed(Write(action, metadata, source))
          case Wrong(e) => Failed(metadata, e))
      case None =>
        if name == "delete" then Parsed(Delete(metadata)) else Failed(metadata, UnknownAction(line, name)))
    case Recovered(_, e) => Failed(Metadata(None, None), e)
    case Lost(e) => Failed(Metadata(None, None), e)
  }

  /** The items of a body. */
  function Items(env: Env, lines: seq<string>, before: nat): seq<Item> {
    if lines == [] then []
    else
      var n := Span(env, lines);
      [Head(env, lines, before)] + Items(env, lines[n..], before + n)
  }

  /** The parser's loop over a line iterator. */
  method ParseBulkLines(env: Env, lines: seq<string>) returns (items: seq<Item>)
    ensures items == Items(env, lines, 0)
  {
    hide ParseActionLine, ParseSource;
    items := [];
    var next := 0;
    while next < |lines|
      invariant next <= |lines|
      invariant items + Items(env, lines[next..], next) == Items(env, lines, 0)
    {
      ghost var rest, before := lines[next..], next;
      var text := lines[next];
      next := next + 1;
      var line := next;
      var item;
      LineNumberIrrelevant(env, text, line, 0);
      match ParseActionLine(env, text, line) {
        case Recognised(name, metadata) =>
          if name == "index" || name == "create" || name == "update" {
            var action := if name == "index" then Index else if name == "create" then Create else Update;
            if next == |lines| {
              item := Failed(metadata, MissingSource(line, action));
            } else {
              var source := lines[next];
              next := next + 1;
              match ParseSource(env, source, next, action) {
                case Right(value) => item := Parsed(Write(action, metadata, value));
                case Wrong(e) => item := Failed(metadata, e);
              }
            }
          } else if name == "delete" {
            item := Parsed(Delete(metadata));
          } else {
            item := Failed(metadata, UnknownAction(line, name));
          }
        case Recovered(name, e) =>
          if name == "index" || name == "create" || name == "update" {
            next := if next < |lines| then next + 1 else next;
          }
          item := Failed(Metadata(None, None), e);
        case Lost(e) =>
          item := Failed(Metadata(None, None), e);
      }
      assert item == Head(env, rest, before);
      assert next == before + Span(env, rest) && lines[next..] == rest[Span(env, rest)..];
      Reassociate(items, [item], Items(env, lines[next..], next));
      items := items + [item];
    }
    assert lines[next..] == [];
  }

  // Line numbers

  function ShiftError(e: ParseError, k: nat): ParseError {
    match e
    case InvalidActionJson(l) => InvalidActionJson(l + k)
    case InvalidSourceJson(l, a) => InvalidSourceJson(l + k, a)
    case InvalidAction(l, r) => InvalidAction(l + k, r)
    case UnknownAction(l, n) => UnknownAction(l + k, n)
    case MissingSource(l, a) => MissingSource(l + k, a)
    case SourceNotObject(l, a) => SourceNotObject(l + k, a)
  }

  function ShiftLine(a: ActionLine, k: nat): ActionLine {
    match a
    case Recognised(_, _) => a
    case Recovered(name, e) => Recovered(name, ShiftError(e, k))
    case Lost(e) => Lost(ShiftError(e, k))
  }

  function Shift(item: Item, k: nat): Item {
    match item
    case Parsed(_) => item
    case Failed(metadata, e) => Failed(metadata, ShiftError(e, k))
  }

  function ShiftAll(items: seq<Item>, k: nat): seq<Item> {
    if items == [] then [] else [Shift(items[0], k)] + ShiftAll(items[1..], k)
  }

  lemma MetadataShift(env: Env, value: Json, line: nat, k: nat)
    ensures ParseMetadata(env, value, line + k) ==
      match ParseMetadata(env, value, line) case Right(m) => Right(m) case Wrong(e) => Wrong(ShiftError(e, k))
  {
    hide Field;
  }

  /** The line number of an action line only shows in its errors. */
  lemma LineNumberIrrelevant(env: Env, text: string, line: nat, k: nat)
    ensures ParseActionLine(env, text, line + k) == ShiftLine(ParseActionLine(env, text, line), k)
    ensures WantsSource(env, text) <==>
      (match ParseActionLine(env, text, line)
       case Recognised(n, _) => Named(n).Some?
       case Recovered(n, _) => Named(n).Some?
       case Lost(_) => false)
  {
    hide ParseMetadata, Named;
    if env.json(text).Some? && env.json(text).value.Object? && |env.json(text).value.fields| == 1 {
      var value := env.json(text).value.fields[0].1;
      MetadataShift(env, value, line, k);
      MetadataShift(env, value, 0, line);
    }
  }

  lemma HeadShift(env: Env, lines: seq<string>, before: nat, k: nat)
    requires lines != []
    ensures Head(env, lines, before + k) == Shift(Head(env, lines, before), k)
  {
    hide ParseActionLine, Named;
    LineNumberIrrelevant(env, lines[0], before + 1, k);
  }

  /** Parsing further down a body yields the same items with later line numbers. */
  lemma {:induction false} ItemsShift(env: Env, lines: seq<string>, before: nat, k: nat)
    ensures Items(env, lines, before + k) == ShiftAll(Items(env, lines, before), k)
    decreases |lines|
  {
    hide Head, Span, Shift;
    if lines != [] {
      HeadShift(env, lines, before, k);
      ItemsShift(env, lines[Span(env, lines)..], before + Span(env, lines), k);
    }
  }

  // Composition

  /** The body stops short of a source line its last action calls for. */
  predicate Awaiting(env: Env, lines: seq<string>)
    decreases |lines|
  {
    lines != [] && (if |lines| == 1 then WantsSource(env, lines[0]) else Awaiting(env, lines[Span(env, lines)..]))
  }

  lemma HeadLocal(env: Env, a: seq<string>, b: seq<string>, before: nat)
    requires a != [] && !(|a| == 1 && WantsSource(env, a[0]))
    ensures Span(env, a + b) == Span(env, a) && Head(env, a + b, before) == Head(env, a, before)
  {
    hide ParseActionLine, ParseSource;
    LineNumberIrrelevant(env, a[0], before + 1, 0);
    assert |a| > 1 ==> (a + b)[1] == a[1];
  }

  lemma {:induction false} ItemsConcat(env: Env, a: seq<string>, b: seq<string>, before: nat)
    requires !Awaiting(env, a)
    ensures Items(env, a + b, before) == Items(env, a, before) + Items(env, b, before + |a|)
    decreases |a|
  {
    hide Head, Span, WantsSource;
    if a == [] {
      assert a + b == b;
    } else {
      var n := Span(env, a);
      HeadLocal(env, a, b, before);
      assert (a + b)[n..] == a[n..] + b;
      ItemsConcat(env, a[n..], b, before + n);
      assert before + n + |a[n..]| == before + |a|;
    }
  }

  /** After a body that stops short, one more line adds no item. */
  lemma {:induction false} AwaitingAbsorbs(env: Env, a: seq<string>, text: string, before: nat)
    requires Awaiting(env, a)
    ensures |Items(env, a + [text], before)| == |Items(env, a, before)|
    decreases |a|
  {
    hide Head, WantsSource;
    var n := Span(env, a);
    if |a| == 1 {
      assert (a + [text])[2..] == [] && a[1..] == [];
    } else {
      assert Span(env, a + [text]) == n;
      assert (a + [text])[n..] == a[n..] + [text];
      AwaitingAbsorbs(env, a[n..], text, before + n);
    }
  }

  ghost predicate Composes(env: Env, a: seq<string>, b: seq<string>) {
    Items(env, a + b, 0) == Items(env, a, 0) + ShiftAll(Items(env, b, 0), |a|)
  }

  /** Parsing is compositional exactly after a body that is not awaiting a source line. */
  lemma CompositionalIff(env: Env, a: seq<string>)
    ensures !Awaiting(env, a) <==> forall b :: Composes(env, a, b)
  {
    hide Awaiting, Items, ShiftAll;
    if !Awaiting(env, a) {
      forall b ensures Composes(env, a, b) {
        ItemsConcat(env, a, b, 0);
        ItemsShift(env, b, 0, |a|);
      }
    } else {
      BlankAbsorbed(env, a);
    }
  }

  lemma OneItem(env: Env, text: string)
    ensures |Items(env, [text], 0)| == 1
  {
    hide Head, WantsSource;
    assert Items(env, [text][1..], 1) == [];
  }

  lemma ShiftOne(items: seq<Item>, k: nat)
    requires |items| == 1
    ensures |ShiftAll(items, k)| == 1
  {
  }

  /** The items of a request body. */
  function ParseBody(env: Env, body: string): seq<Item> {
    Items(env, Lines(body), 0)
  }

  ghost predicate BodiesCompose(env: Env, a: string, b: string) {
    ParseBody(env, a + b) == ParseBody(env, a) + ShiftAll(ParseBody(env, b), |Lines(a)|)
  }

  predicate EndsLine(a: string) {
    a == "" || a[|a| - 1] == '\n'
  }

  lemma {:induction false} NoNewlineBefore(a: string)
    requires FirstNewline(a) == |a|
    ensures FirstNewline(a + "\n") == |a|
  {
    if a != "" {
      assert (a + "\n")[1..] == a[1..] + "\n";
      NoNewlineBefore(a[1..]);
    }
  }

  /** Ending the last line of a body changes that line at most. */
  lemma {:induction false} LineEnded(a: string) returns (before: seq<string>, x: string, y: string)
    requires !EndsLine(a)
    ensures Lines(a) == before + [x] && Lines(a + "\n") == before + [y]
    decreases |a|
  {
    hide FirstNewline, Lines, StripReturn;
    var n := FirstNewline(a);
    if n == |a| {
      OnlyLineEnded(a);
      before, x, y := [], a, StripReturn(a);
    } else {
      FirstNewlineConcat(a, "\n");
      LinesStep(a);
      LinesStep(a + "\n");
      SplitConcat(a, "\n", n);
      assert a[n + 1..] != "";
      var rest;
      rest, x, y := LineEnded(a[n + 1..]);
      Reassociate([StripReturn(a[..n])], rest, [x]);
      Reassociate([StripReturn(a[..n])], rest, [y]);
      before := [StripReturn(a[..n])] + rest;
    }
  }

  lemma OnlyLineEnded(a: string)
    requires a != "" && FirstNewline(a) == |a|
    ensures Lines(a) == [a] && Lines(a + "\n") == [StripReturn(a)]
  {
    hide FirstNewline, StripReturn;
    var b := a + "\n";
    NoNewlineBefore(a);
    LinesStep(b);
    assert b[..|a|] == a && b[|a| + 1..] == "";
    assert Lines("") == [];
  }

  /** The last line does not change how many items there are. */
  lemma {:induction false} SameCount(env: Env, lines: seq<string>, x: string, y: string, before: nat)
    ensures |Items(env, lines + [x], before)| == |Items(env, lines + [y], before)|
    decreases |lines|
  {
    hide Head, WantsSource;
    var a, b := lines + [x], lines + [y];
    var n := Span(env, a);
    if lines == [] {
      assert a[1..] == [] && b[1..] == [];
    } else {
      assert Span(env, b) == n;
      if n <= |lines| {
        assert a[n..] == lines[n..] + [x] && b[n..] == lines[n..] + [y];
        SameCount(env, lines[n..], x, y, before + n);
      } else {
        assert a[n..] == [] && b[n..] == [];
      }
    }
  }

  lemma OneBlankLine()
    ensures Lines("\n") == [""]
  {
    assert Lines("\n") == [StripReturn("\n"[..0])] + Lines("\n"[1..]);
  }

  /** Concatenating two bodies concatenates their items, whatever the second, exactly when the
      first ends a line and does not await a source. */
  lemma BodiesConcat(env: Env, a: string)
    ensures (forall b :: BodiesCompose(env, a, b)) <==> (EndsLine(a) && !Awaiting(env, Lines(a)))
  {
    hide Lines, Items, Awaiting, ShiftAll, EndsLine, Composes;
    if EndsLine(a) {
      forall b ensures BodiesCompose(env, a, b) <==> Composes(env, Lines(a), Lines(b)) {
        TextComposes(env, a, b);
      }
      CompositionalIff(env, Lines(a));
      if Awaiting(env, Lines(a)) {
        OneBlankLine();
        BlankAbsorbed(env, Lines(a));
        assert !BodiesCompose(env, a, "\n");
      }
    } else {
      Unterminated(env, a);
    }
  }

  lemma TextComposes(env: Env, a: string, b: string)
    requires EndsLine(a)
    ensures BodiesCompose(env, a, b) <==> Composes(env, Lines(a), Lines(b))
  {
    hide Lines, Items, ShiftAll;
    LinesConcat(a, b);
  }

  lemma BlankAbsorbed(env: Env, a: seq<string>)
    requires Awaiting(env, a)
    ensures !Composes(env, a, [""])
  {
    hide Awaiting, Items, ShiftAll;
    AwaitingAbsorbs(env, a, "", 0);
    OneItem(env, "");
    ShiftOne(Items(env, [""], 0), |a|);
  }

  lemma Unterminated(env: Env, a: string)
    requires !EndsLine(a)
    ensures !BodiesCompose(env, a, "\n")
  {
    hide Lines, Items, ShiftAll, EndsLine;
    var before, x, y := LineEnded(a);
    SameCount(env, before, x, y, 0);
    OneBlankLine();
    OneItem(env, "");
    ShiftOne(Items(env, [""], 0), |Lines(a)|);
  }

  // Every line is read once

  ghost function Spans(env: Env, lines: seq<string>): seq<nat> {
    if lines == [] then [] else [Span(env, lines)] + Spans(env, lines[Span(env, lines)..])
  }

  ghost function Sum(s: seq<nat>): nat {
    if s == [] then 0 else s[0] + Sum(s[1..])
  }

  /** The items' spans, one or two lines each, make up the body. */
  lemma {:induction false} SpansCover(env: Env, lines: seq<string>, before: nat)
    ensures |Spans(env, lines)| == |Items(env, lines, before)| && Sum(Spans(env, lines)) == |lines|
    decreases |lines|
  {
    hide Head, Span;
    if lines != [] {
      SpansCover(env, lines[Span(env, lines)..], before + Span(env, lines));
    }
  }

  /** Each item is parsed from its own lines, and a failure names one of them. */
  lemma {:induction false} ItemOwnsItsLines(env: Env, lines: seq<string>, before: nat, k: nat)
    requires k < |Items(env, lines, before)|
    ensures |Spans(env, lines)| == |Items(env, lines, before)|
    ensures var start := Sum(Spans(env, lines)[..k]);
      && start < |lines|
      && Spans(env, lines)[k] == Span(env, lines[start..])
      && Items(env, lines, before)[k] == Head(env, lines[start..], before + start)
    decreases |lines|
  {
    hide Head, Span;
    SpansCover(env, lines, before);
    var n, spans := Span(env, lines), Spans(env, lines);
    if k > 0 {
      var rest := lines[n..];
      ItemOwnsItsLines(env, rest, before + n, k - 1);
      assert spans[..k] == [n] + Spans(env, rest)[..k - 1];
      var start := Sum(Spans(env, rest)[..k - 1]);
      assert ([n] + Spans(env, rest)[..k - 1])[1..] == Spans(env, rest)[..k - 1];
      assert lines[n + start..] == rest[start..];
    } else {
      assert spans[..0] == [] && lines[0..] == lines;
    }
  }

  lemma FailureNamesItsLines(env: Env, lines: seq<string>, before: nat)
    requires lines != []
    ensures Head(env, lines, before).Failed? ==>
      before < Head(env, lines, before).error.line <= before + Span(env, lines)
  {
    hide ParseActionLine, ParseMetadata;
    ErrorLine(env, lines[0], before + 1);
    LineNumberIrrelevant(env, lines[0], before + 1, 0);
  }

  lemma ErrorLine(env: Env, text: string, line: nat)
    ensures match ParseActionLine(env, text, line)
      case Recognised(_, _) => true
      case Recovered(_, e) => e.line == line
      case Lost(e) => e.line == line
  {
    hide Field;
  }

  // What a client writes

  function ActionName(op: Operation): string {
    match op
    case Delete(_) => "delete"
    case Write(Index, _, _) => "index"
    case Write(Create, _, _) => "create"
    case Write(Update, _, _) => "update"
  }

  function MetadataJson(m: Metadata): Json {
    Object((if m.index.Some? then [("_index", Str(m.index.value))] else [])
      + (if m.id.Some? then [("_id", Str(m.id.value))] else []))
  }

  function ActionJson(op: Operation): Json {
    Object([(ActionName(op), MetadataJson(op.metadata))])
  }

  /** An operation as its action line and, for writes, its source line. */
  function OperationLines(render: Json -> string, op: Operation): seq<string> {
    [render(ActionJson(op))] + if op.Write? then [render(op.source)] else []
  }

  function BodyLines(render: Json -> string, ops: seq<Operation>): seq<string> {
    if ops == [] then [] else OperationLines(render, ops[0]) + BodyLines(render, ops[1..])
  }

  function AllParsed(ops: seq<Operation>): seq<Item> {
    if ops == [] then [] else [Parsed(ops[0])] + AllParsed(ops[1..])
  }

  /** Names that are not empty, a valid index name, and an object as source. */
  predicate Acceptable(env: Env, op: Operation) {
    && (op.metadata.index.Some? ==> op.metadata.index.value != "" && env.validIndexName(op.metadata.index.value))
    && (op.metadata.id.Some? ==> op.metadata.id.value != "")
    && (op.Write? ==> op.source.Object?)
  }

  /** The values this operation is written as are read back; nothing is asked of others. */
  predicate Renders(env: Env, render: Json -> string, op: Operation) {
    && env.json(render(ActionJson(op))) == Some(ActionJson(op))
    && (op.Write? ==> env.json(render(op.source)) == Some(op.source))
  }

  lemma MetadataRead(env: Env, m: Metadata, line: nat)
    requires m.index.Some? ==> m.index.value != "" && env.validIndexName(m.index.value)
    requires m.id.Some? ==> m.id.value != ""
    ensures ParseMetadata(env, MetadataJson(m), line) == Right(m)
  {
    var fields := MetadataJson(m).fields;
    assert m.index.Some? ==> fields[1..] == (if m.id.Some? then [("_id", Str(m.id.value))] else []);
    assert Field(fields, "_index") == if m.index.Some? then Some(Str(m.index.value)) else None;
    assert Field(fields, "_id") == if m.id.Some? then Some(Str(m.id.value)) else None;
  }

  lemma ActionRead(env: Env, render: Json -> string, op: Operation, line: nat)
    requires Renders(env, render, op) && Acceptable(env, op)
    ensures ParseActionLine(env, OperationLines(render, op)[0], line) == Recognised(ActionName(op), op.metadata)
  {
    hide ParseMetadata, MetadataJson;
    MetadataRead(env, op.metadata, line);
  }

  lemma OperationRead(env: Env, render: Json -> string, op: Operation, rest: seq<string>, before: nat)
    requires Renders(env, render, op) && Acceptable(env, op)
    ensures var lines := OperationLines(render, op) + rest;
      && Head(env, lines, before) == Parsed(op)
      && Span(env, lines) == |OperationLines(render, op)| && lines[Span(env, lines)..] == rest
  {
    hide ParseActionLine;
    var lines := OperationLines(render, op) + rest;
    ActionRead(env, render, op, before + 1);
    LineNumberIrrelevant(env, lines[0], before + 1, 0);
    if op.Write? {
      assert lines[1] == render(op.source);
    }
  }

  /** The lines written for acceptable operations parse back to exactly them. */
  lemma {:induction false} WrittenOperationsParse(env: Env, render: Json -> string, ops: seq<Operation>, before: nat)
    requires forall op :: op in ops ==> Renders(env, render, op) && Acceptable(env, op)
    ensures Items(env, BodyLines(render, ops), before) == AllParsed(ops)
    decreases |ops|
  {
    hide Head, Span, OperationLines, Acceptable, Renders;
    if ops != [] {
      OperationRead(env, render, ops[0], BodyLines(render, ops[1..]), before);
      WrittenOperationsParse(env, render, ops[1..], before + Span(env, BodyLines(render, ops)));
      LinesNotEmpty(render, ops[0]);
    }
  }

  lemma LinesNotEmpty(render: Json -> string, op: Operation)
    ensures OperationLines(render, op) != []
  {
  }

  /** Lines put one after the other, each ended. */
  function Joined(lines: seq<string>): string {
    if lines == [] then "" else lines[0] + "\n" + Joined(lines[1..])
  }

  /** Text that is one line: no newline in it, and no carriage return a newline would take. */
  predicate IsLine(text: string) {
    '\n' !in text && (text == "" || text[|text| - 1] != '\r')
  }

  lemma {:induction false} NewlineAfter(text: string, rest: string)
    requires '\n' !in text
    ensures FirstNewline(text + "\n" + rest) == |text|
  {
    if text != "" {
      assert (text + "\n" + rest)[1..] == text[1..] + "\n" + rest;
      NewlineAfter(text[1..], rest);
    }
  }

  lemma {:induction false} LinesOfJoined(lines: seq<string>)
    requires forall text :: text in lines ==> IsLine(text)
    ensures Lines(Joined(lines)) == lines
  {
    if lines != [] {
      var text, rest := lines[0], Joined(lines[1..]);
      LinesOfJoined(lines[1..]);
      FirstLine(text, rest);
      assert lines == [text] + lines[1..];
    }
  }

  lemma FirstLine(text: string, rest: string)
    requires IsLine(text)
    ensures Lines(text + "\n" + rest) == [text] + Lines(rest)
  {
    hide FirstNewline, Lines;
    var s := text + "\n" + rest;
    NewlineAfter(text, rest);
    LinesStep(s);
    assert s[..|text|] == text && s[|text| + 1..] == rest;
  }

  lemma {:induction false} BodyLinesAre(render: Json -> string, ops: seq<Operation>)
    ensures forall text :: text in BodyLines(render, ops) ==>
      exists op :: op in ops && text in OperationLines(render, op)
  {
    hide OperationLines;
    if ops != [] {
      BodyLinesAre(render, ops[1..]);
      forall text | text in BodyLines(render, ops)
        ensures exists op :: op in ops && text in OperationLines(render, op)
      {
        if text in OperationLines(render, ops[0]) {
          assert ops[0] in ops;
        } else {
          assert text in BodyLines(render, ops[1..]);
          var op :| op in ops[1..] && text in OperationLines(render, op);
          assert op in ops;
        }
      }
    }
  }

  /** A request body written from acceptable operations, one line a value, parses back to
      exactly them. */
  lemma WrittenBodyParses(env: Env, render: Json -> string, ops: seq<Operation>)
    requires forall op :: op in ops ==> Renders(env, render, op) && Acceptable(env, op)
    requires forall op, text :: op in ops && text in OperationLines(render, op) ==> IsLine(text)
    ensures ParseBody(env, Joined(BodyLines(render, ops))) == AllParsed(ops)
  {
    hide Items, Lines, Renders, Acceptable, BodyLines, OperationLines, IsLine;
    BodyLinesAre(render, ops);
    LinesOfJoined(BodyLines(render, ops));
    WrittenOperationsParse(env, render, ops, 0);
  }
}
