/** The document table a bulk body is applied to. The batch of writes planned beforehand leaves
    the table, and every response, as performing the operations one after the other would. */
module BulkStore {
  import opened Options
  import opened Bulk
  import opened BulkApply
  import opened BulkLines

  /** A document by index and id. */
  type Name = (string, string)

  type Table = map<Name, Json>

  // The batch of writes

  function NameOf(w: DocumentWrite): Name {
    (w.index, w.id)
  }

  function Stored(t: Table, w: DocumentWrite): Table {
    match w
    case IndexDocument(_, _, source, _) => t[NameOf(w) := source]
    case CreateDocument(_, _, source) => if NameOf(w) in t then t else t[NameOf(w) := source]
    case DeleteDocument(_, _) => t - {NameOf(w)}
  }

  function Result(t: Table, w: DocumentWrite): WriteResult {
    match w
    case IndexDocument(index, id, _, code) => Applied(index, id, code)
    case CreateDocument(index, id, _) => if NameOf(w) in t then VersionConflict(index, id) else Applied(index, id, 201)
    case DeleteDocument(index, id) => Applied(index, id, 200)
  }

  function After(t: Table, ws: seq<DocumentWrite>): Table {
    if ws == [] then t else Stored(After(t, ws[..|ws| - 1]), ws[|ws| - 1])
  }

  function Results(t: Table, ws: seq<DocumentWrite>): (r: seq<WriteResult>)
    ensures |r| == |ws|
  {
    if ws == [] then []
    else
      var front, last := ws[..|ws| - 1], ws[|ws| - 1];
      Results(t, front) + [Result(After(t, front), last)]
  }

  class DocumentTable {
    var docs: Table

    constructor ()
      ensures docs == map[]
    {
      docs := map[];
    }

    method ApplyDocumentWrites(ws: seq<DocumentWrite>) returns (results: seq<WriteResult>)
      modifies this
      ensures docs == After(old(docs), ws) && results == Results(old(docs), ws)
    {
      results := [];
      for i := 0 to |ws|
        invariant docs == After(old(docs), ws[..i]) && results == Results(old(docs), ws[..i])
      {
        assert ws[..i + 1][..i] == ws[..i];
        match ws[i] {
          case IndexDocument(index, id, source, code) =>
            docs := docs[(index, id) := source];
            results := results + [Applied(index, id, code)];
          case CreateDocument(index, id, source) =>
            if (index, id) in docs {
              results := results + [VersionConflict(index, id)];
            } else {
              docs := docs[(index, id) := source];
              results := results + [Applied(index, id, 201)];
            }
          case DeleteDocument(index, id) =>
            docs := docs - {(index, id)};
            results := results + [Applied(index, id, 200)];
        }
      }
      assert ws[..|ws|] == ws;
    }
  }

  // The operations one after the other

  datatype Step = Step(table: Table, response: ResponseItem)

  /** Where an operation writes, unless it lacks an id or an index or names no single one. */
  function Target(resolve: string -> Option<string>, op: Operation): Option<Name> {
    match op.metadata
    case Metadata(Some(name), Some(id)) => (match resolve(name) case Some(index) => Some((index, id)) case None => None)
    case _ => None
  }

  function Failure(verb: Verb, m: Metadata, code: nat, error: string): ResponseItem {
    ResponseItem(verb, Status(m.index, m.id, code, Some(error)))
  }

  function Success(verb: Verb, name: Name, code: nat): ResponseItem {
    ResponseItem(verb, Status(Some(name.0), Some(name.1), code, None))
  }

  function Conflict(name: Name): ResponseItem {
    Failure(Wrote(Create), Metadata(Some(name.0), Some(name.1)), 409, "version_conflict_engine_exception")
  }

  /** Index and update store their document and answer 201 and 200; create stores its own unless
      there is one already, and answers 201 or a conflict; delete removes and answers 200. */
  function Perform(t: Table, resolve: string -> Option<string>, item: Item): Step {
    match item
    case Failed(m, e) => Step(t, Failure(Wrote(ShownAction(e)), m, 400, "parse_exception"))
    case Parsed(op) => (
      match Target(resolve, op)
      case None => Step(t, Failure(VerbOf(op), op.metadata, 400, "illegal_argument_exception"))
      case Some(name) => (
        match op
        case Delete(_) => Step(t - {name}, Success(Deleted, name, 200))
        case Write(Index, _, source) => Step(t[name := source], Success(Wrote(Index), name, 201))
        case Write(Update, _, source) => Step(t[name := DocPart(source)], Success(Wrote(Update), name, 200))
        case Write(Create, _, source) =>
          if name in t then Step(t, Conflict(name)) else Step(t[name := source], Success(Wrote(Create), name, 201))))
  }

  function Replay(t: Table, resolve: string -> Option<string>, items: seq<Item>): Table {
    if items == [] then t
    else Perform(Replay(t, resolve, items[..|items| - 1]), resolve, items[|items| - 1]).table
  }

  /** The store as the bulk endpoint sees it. */
  function Over(t: Table, resolve: string -> Option<string>): Store {
    Store(resolve, ws => Results(t, ws))
  }

  lemma {:induction false} ResultsName(t: Table, ws: seq<DocumentWrite>)
    ensures Names(ws, Results(t, ws))
  {
    if ws != [] {
      ResultsName(t, ws[..|ws| - 1]);
    }
  }

  lemma TableAnswers(t: Table, resolve: string -> Option<string>)
    ensures Answers(Over(t, resolve))
  {
    var store := Over(t, resolve);
    forall ws ensures |store.apply(ws)| == |ws| && Names(ws, store.apply(ws)) {
      ResultsName(t, ws);
    }
  }

  /** One item: its write stored and answered, or its answer ready, is its operation performed. */
  lemma OneItem(t: Table, store: Store, item: Item)
    ensures match PlanOf(store, item)
      case Ready(response) => Perform(t, store.resolve, item) == Step(t, response)
      case Pending(verb, w) => Perform(t, store.resolve, item) == Step(Stored(t, w), FromResult(verb, Result(t, w)))
  {
  }

  lemma {:induction false} BatchReplays(t: Table, resolve: string -> Option<string>, items: seq<Item>)
    ensures After(t, Batch(Over(t, resolve), items)) == Replay(t, resolve, items)
  {
    hide Perform, PlanOf, Stored, Result;
    if items != [] {
      var store, front := Over(t, resolve), items[..|items| - 1];
      BatchReplays(t, resolve, front);
      OneItem(After(t, Batch(store, front)), store, items[|items| - 1]);
    }
  }

  lemma {:induction false} ResultAtRank(t: Table, store: Store, items: seq<Item>, p: nat)
    requires p < |items| && PlanOf(store, items[p]).Pending?
    ensures var before := Batch(store, items[..p]);
      |before| < |Batch(store, items)|
      && Results(t, Batch(store, items))[|before|] == Result(After(t, before), PlanOf(store, items[p]).write)
  {
    hide PlanOf, Stored, Result;
    var n := |items| - 1;
    if p < n {
      ResultAtRank(t, store, items[..n], p);
      assert items[..n][..p] == items[..p];
    }
  }

  /** The table after a bulk body, and the response to each of its items, are those of performing
      the items one after the other. */
  lemma BulkIsSequential(t: Table, resolve: string -> Option<string>, items: seq<Item>, p: nat)
    requires p < |items|
    ensures var store := Over(t, resolve);
      && Answers(store)
      && After(t, Batch(store, items)) == Replay(t, resolve, items)
      && |store.apply(Batch(store, items))| == |Batch(store, items)|
      && ResponseAt(store, items, p) == Perform(Replay(t, resolve, items[..p]), resolve, items[p]).response
  {
    hide Perform, PlanOf, Stored, Result, Batch, Replay;
    var store := Over(t, resolve);
    TableAnswers(t, resolve);
    BatchReplays(t, resolve, items);
    BatchReplays(t, resolve, items[..p]);
    OneItem(Replay(t, resolve, items[..p]), store, items[p]);
    if PlanOf(store, items[p]).Pending? {
      ResultAtRank(t, store, items, p);
    }
  }

  // What follows for the documents

  /** An item touches no document but its own, and a refused one none at all. */
  lemma OthersUntouched(t: Table, resolve: string -> Option<string>, item: Item, name: Name)
    requires item.Parsed? ==> Target(resolve, item.operation) != Some(name)
    ensures var t' := Perform(t, resolve, item).table;
      (name in t' <==> name in t) && (name in t ==> t'[name] == t[name])
  {
  }

  /** No create of a body changes a document that was there before it. */
  lemma {:induction false} CreatesKeepDocuments(t: Table, resolve: string -> Option<string>, items: seq<Item>,
                                                name: Name)
    requires name in t
    requires forall item | item in items && item.Parsed? && Target(resolve, item.operation) == Some(name) ::
      item.operation.Write? && item.operation.action == Create
    ensures name in Replay(t, resolve, items) && Replay(t, resolve, items)[name] == t[name]
  {
    if items != [] {
      var front, last := items[..|items| - 1], items[|items| - 1];
      CreatesKeepDocuments(t, resolve, front, name);
      assert last in items;
      if last.Failed? || Target(resolve, last.operation) != Some(name) {
        OthersUntouched(Replay(t, resolve, front), resolve, last, name);
      }
    }
  }

  /** An update stores the `doc` field of its source where it has one, and the source otherwise. */
  lemma DocPartMeans(source: Json, doc: Json)
    requires source.Object?
    ensures Says(source.fields, "doc", Some(doc)) ==> DocPart(source) == doc
    ensures Says(source.fields, "doc", None) ==> DocPart(source) == source
  {
    hide Says, Field;
    FieldIs(source.fields, "doc", Some(doc));
    FieldIs(source.fields, "doc", None);
  }
}
