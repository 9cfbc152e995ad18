/** Applying parsed bulk items: one batch of writes, one response slot per item. */
module BulkApply {
  import opened Options
  import opened Bulk

  datatype Verb = Wrote(action: Action) | Deleted

  datatype Status = Status(index: Option<string>, id: Option<string>, code: nat, error: Option<string>)

  datatype ResponseItem = ResponseItem(verb: Verb, status: Status)

  datatype DocumentWrite =
    | IndexDocument(index: string, id: string, source: Json, code: nat)
    | CreateDocument(index: string, id: string, source: Json)
    | DeleteDocument(index: string, id: string)

  datatype WriteResult = Applied(index: string, id: string, code: nat) | VersionConflict(index: string, id: string)

  /** The document store: which index a name writes to, and how a batch of writes ends. */
  datatype Store = Store(resolve: string -> Option<string>, apply: seq<DocumentWrite> -> seq<WriteResult>)

  /** The store answers every write of a batch, in order, naming its document. */
  ghost predicate Answers(store: Store) {
    forall ws :: |store.apply(ws)| == |ws| && Names(ws, store.apply(ws))
  }

  ghost predicate Names(ws: seq<DocumentWrite>, rs: seq<WriteResult>)
    requires |ws| == |rs|
  {
    forall i :: 0 <= i < |ws| ==> rs[i].index == ws[i].index && rs[i].id == ws[i].id
  }

  /** What becomes of an item before the batch runs: answered at once, or a write to make. */
  datatype Plan = Ready(response: ResponseItem) | Pending(verb: Verb, write: DocumentWrite)

  function VerbOf(op: Operation): Verb {
    match op case Write(action, _, _) => Wrote(action) case Delete(_) => Deleted
  }

  function Refused(op: Operation, index: Option<string>, id: Option<string>): Plan {
    Ready(ResponseItem(VerbOf(op), Status(index, id, 400, Some("illegal_argument_exception"))))
  }

  /** An update writes its `doc` part when it has one. */
  function DocPart(source: Json): Json {
    if source.Object? then
      match Field(source.fields, "doc") case Some(doc) => doc case None => source
    else source
  }

  function BuildWrite(store: Store, op: Operation): Plan {
    match op.metadata.id
    case None => Refused(op, op.metadata.index, None)
    case Some(id) =>
      match op.metadata.index
      case None => Refused(op, None, Some(id))
      case Some(name) =>
        match store.resolve(name)
        case None => Refused(op, Some(name), Some(id))
        case Some(index) =>
          match op
          case Delete(_) => Pending(Deleted, DeleteDocument(index, id))
          case Write(Index, _, source) => Pending(Wrote(Index), IndexDocument(index, id, source, 201))
          case Write(Update, _, source) => Pending(Wrote(Update), IndexDocument(index, id, DocPart(source), 200))
          case Write(Create, _, source) => Pending(Wrote(Create), CreateDocument(index, id, source))
  }

  function ParseErrorResponse(metadata: Metadata, e: ParseError): ResponseItem {
    var status := Status(metadata.index, metadata.id, 400, Some("parse_exception"));
    match e
    case MissingSource(_, action) => ResponseItem(Wrote(action), status)
    case SourceNotObject(_, action) => ResponseItem(Wrote(action), status)
    case InvalidSourceJson(_, action) => ResponseItem(Wrote(action), status)
    case _ => ResponseItem(Wrote(Index), status)
  }

  function PlanOf(store: Store, item: Item): Plan {
    match item
    case Parsed(op) => BuildWrite(store, op)
    case Failed(metadata, e) => Ready(ParseErrorResponse(metadata, e))
  }

  function FromResult(verb: Verb, result: WriteResult): ResponseItem {
    match result
    case Applied(index, id, code) => ResponseItem(verb, Status(Some(index), Some(id), code, None))
    case VersionConflict(index, id) =>
      ResponseItem(verb, Status(Some(index), Some(id), 409, Some("version_conflict_engine_exception")))
  }

  /** The batch: the pending writes, in item order. */
  function Batch(store: Store, items: seq<Item>): seq<DocumentWrite> {
    if items == [] then []
    else
      var front, plan := Batch(store, items[..|items| - 1]), PlanOf(store, items[|items| - 1]);
      if plan.Pending? then front + [plan.write] else front
  }

  /** The write of the item at `p`, if it has one, is the batch's element number
      `|Batch(items[..p])|`. */
  lemma {:induction false} OwnWrite(store: Store, items: seq<Item>, p: nat)
    requires p < |items| && PlanOf(store, items[p]).Pending?
    ensures var rank := |Batch(store, items[..p])|;
      rank < |Batch(store, items)| && Batch(store, items)[rank] == PlanOf(store, items[p]).write
  {
    hide PlanOf;
    var front := items[..|items| - 1];
    if p < |items| - 1 {
      OwnWrite(store, front, p);
      assert front[..p] == items[..p];
    }
  }

  /** The response due at position `p`. */
  function ResponseAt(store: Store, items: seq<Item>, p: nat): ResponseItem
    requires p < |items| && |store.apply(Batch(store, items))| == |Batch(store, items)|
  {
    match PlanOf(store, items[p])
    case Ready(response) => response
    case Pending(verb, _) =>
      OwnWrite(store, items, p);
      FromResult(verb, store.apply(Batch(store, items))[|Batch(store, items[..p])|])
  }

  /** The index a response names: the one the store resolved for a write that was made, and
      the requested one, if any, for an operation refused before that. */
  function ShownIndex(store: Store, op: Operation): Option<string> {
    if op.metadata.id.Some? && op.metadata.index.Some? && store.resolve(op.metadata.index.value).Some?
    then store.resolve(op.metadata.index.value)
    else op.metadata.index
  }

  /** The action a failed item is answered as: the one recognised, or `index`. */
  function ShownAction(e: ParseError): Action {
    if e.MissingSource? || e.SourceNotObject? || e.InvalidSourceJson? then e.action else Index
  }

  /** A response to an item: verb, id and index of the operation; a failed item is refused with
      status 400 under what was recognised of it. */
  predicate AnswersItem(store: Store, item: Item, r: ResponseItem) {
    match item
    case Failed(metadata, e) =>
      r == ResponseItem(Wrote(ShownAction(e)), Status(metadata.index, metadata.id, 400, Some("parse_exception")))
    case Parsed(op) =>
      r.verb == VerbOf(op) && r.status.id == op.metadata.id && r.status.index == ShownIndex(store, op)
  }

  /** The response at a position answers the item at that position. */
  lemma ResponseAnswersItsItem(store: Store, items: seq<Item>, p: nat)
    requires Answers(store) && p < |items|
    ensures |store.apply(Batch(store, items))| == |Batch(store, items)|
    ensures AnswersItem(store, items[p], ResponseAt(store, items, p))
  {
    hide Batch;
    var ws := Batch(store, items);
    assert |store.apply(ws)| == |ws| && Names(ws, store.apply(ws));
    if PlanOf(store, items[p]).Pending? {
      OwnWrite(store, items, p);
    }
  }

  /** What an action line asks for, among the four actions. */
  function AskedVerb(name: string): Option<Verb> {
    if name == "delete" then Some(Deleted)
    else match Named(name) case Some(action) => Some(Wrote(action)) case None => None
  }

  lemma MetadataErrorsAre(env: Env, value: Json, line: nat)
    ensures ParseMetadata(env, value, line).Wrong? ==> ParseMetadata(env, value, line).error.InvalidAction?
  {
    hide Field;
  }

  /** An item whose action was recognised but whose metadata was not is answered under `index`:
      among the four actions, the one asked for is kept exactly when it was `index`. */
  lemma BadMetadataShownAsIndex(env: Env, store: Store, lines: seq<string>, before: nat)
    requires lines != [] && ParseActionLine(env, lines[0], before + 1).Recovered?
    ensures PlanOf(store, Head(env, lines, before)).Ready?
    ensures var verb := PlanOf(store, Head(env, lines, before)).response.verb;
      var name := ParseActionLine(env, lines[0], before + 1).name;
      && verb == Wrote(Index)
      && (AskedVerb(name).Some? ==> (verb == AskedVerb(name).value <==> name == "index"))
  {
    hide ParseMetadata;
    MetadataErrorsAre(env, env.json(lines[0]).value.fields[0].1, before + 1);
  }

  /** A `create` with an empty id, answered under `index`. */
  lemma CreateShownAsIndex(store: Store) returns (env: Env, lines: seq<string>)
    ensures lines != [] && ParseActionLine(env, lines[0], 1).Recovered?
    ensures ParseActionLine(env, lines[0], 1).name == "create"
    ensures PlanOf(store, Head(env, lines, 0)).Ready?
    ensures PlanOf(store, Head(env, lines, 0)).response.verb == Wrote(Index)
  {
    var metadata := Object([("_id", Str(""))]);
    env := Env(text => Some(Object([("create", metadata)])), name => true);
    lines := ["{\"create\":{\"_id\":\"\"}}"];
    assert Field(metadata.fields, "_id") == Some(Str(""));
    assert metadata.fields[1..] == [] && Field(metadata.fields, "_index") == None;
    assert ParseMetadata(env, metadata, 1).Wrong?;
    BadMetadataShownAsIndex(env, store, lines, 0);
  }

  datatype Slot = Slot(position: nat, verb: Verb, write: DocumentWrite)

  /** The pending writes with the slots they answer. */
  ghost function Pendings(store: Store, items: seq<Item>): seq<Slot> {
    if items == [] then []
    else
      var n := |items| - 1;
      var plan := PlanOf(store, items[n]);
      Pendings(store, items[..n]) + if plan.Pending? then [Slot(n, plan.verb, plan.write)] else []
  }

  ghost predicate AtRank(store: Store, items: seq<Item>, p: nat)
    requires p < |items|
  {
    var rank := |Batch(store, items[..p])|;
    rank < |Pendings(store, items)| && Pendings(store, items)[rank].position == p
  }

  lemma {:induction false} PendingsFacts(store: Store, items: seq<Item>)
    ensures |Pendings(store, items)| == |Batch(store, items)|
    ensures forall i :: 0 <= i < |Pendings(store, items)| ==>
      var s := Pendings(store, items)[i];
      && s.position < |items| && PlanOf(store, items[s.position]) == Pending(s.verb, s.write)
      && s.write == Batch(store, items)[i] && |Batch(store, items[..s.position])| == i
    ensures forall p :: 0 <= p < |items| && PlanOf(store, items[p]).Pending? ==> AtRank(store, items, p)
  {
    hide PlanOf;
    if items != [] {
      var n := |items| - 1;
      var front := items[..n];
      PendingsFacts(store, front);
      forall p | 0 <= p < n ensures front[..p] == items[..p] {
      }
      forall p | 0 <= p < |items| && PlanOf(store, items[p]).Pending? ensures AtRank(store, items, p) {
        if p < n {
          assert PlanOf(store, front[p]).Pending? && AtRank(store, front, p);
        }
      }
    }
  }

  function Writes(pending: seq<Slot>): (r: seq<DocumentWrite>)
    ensures |r| == |pending|
  {
    seq(|pending|, i requires 0 <= i < |pending| => pending[i].write)
  }

  lemma PendingWrites(store: Store, items: seq<Item>)
    ensures Writes(Pendings(store, items)) == Batch(store, items)
  {
    hide PlanOf, Pendings, Batch;
    PendingsFacts(store, items);
  }

  lemma Reached(store: Store, items: seq<Item>, p: nat)
    requires p < |items| && PlanOf(store, items[p]).Pending?
    ensures AtRank(store, items, p)
  {
    hide PlanOf, AtRank, Pendings, Batch;
    PendingsFacts(store, items);
  }

  lemma SlotResponse(store: Store, items: seq<Item>, i: nat)
    requires i < |Pendings(store, items)|
    requires |store.apply(Batch(store, items))| == |Batch(store, items)| == |Pendings(store, items)|
    ensures var s := Pendings(store, items)[i];
      && s.position < |items| && PlanOf(store, items[s.position]).Pending?
      && ResponseAt(store, items, s.position) == FromResult(s.verb, store.apply(Batch(store, items))[i])
  {
    hide PlanOf, Pendings, Batch;
    PendingsFacts(store, items);
  }

  /** First pass: answer what needs no write, and queue the rest with their slots. */
  method Queue(store: Store, items: seq<Item>, slots: array<Option<ResponseItem>>) returns (pending: seq<Slot>)
    requires slots.Length == |items|
    modifies slots
    ensures pending == Pendings(store, items)
    ensures forall p :: 0 <= p < |items| && PlanOf(store, items[p]).Ready? ==>
      slots[p] == Some(PlanOf(store, items[p]).response)
  {
    hide PlanOf;
    pending := [];
    for position := 0 to |items|
      invariant pending == Pendings(store, items[..position])
      invariant forall p :: 0 <= p < position && PlanOf(store, items[p]).Ready? ==>
        slots[p] == Some(PlanOf(store, items[p]).response)
    {
      assert items[..position + 1][..position] == items[..position];
      match PlanOf(store, items[position]) {
        case Ready(response) => slots[position] := Some(response);
        case Pending(verb, write) => pending := pending + [Slot(position, verb, write)];
      }
    }
    assert items[..|items|] == items;
  }

  /** Second pass: each result goes to the slot of its write. */
  method Fill(store: Store, items: seq<Item>, pending: seq<Slot>, results: seq<WriteResult>,
              slots: array<Option<ResponseItem>>)
    requires slots.Length == |items| && pending == Pendings(store, items)
    requires results == store.apply(Batch(store, items)) && |results| == |pending| == |Batch(store, items)|
    requires forall p :: 0 <= p < |items| && PlanOf(store, items[p]).Ready? ==>
      slots[p] == Some(PlanOf(store, items[p]).response)
    modifies slots
    ensures forall p :: 0 <= p < |items| ==> slots[p] == Some(ResponseAt(store, items, p))
  {
    hide PlanOf, Pendings, Batch, FromResult;
    for i := 0 to |pending|
      invariant forall p :: 0 <= p < |items| && PlanOf(store, items[p]).Ready? ==>
        slots[p] == Some(PlanOf(store, items[p]).response)
      invariant forall j :: 0 <= j < i ==>
        && pending[j].position < |items|
        && slots[pending[j].position] == Some(ResponseAt(store, items, pending[j].position))
    {
      SlotResponse(store, items, i);
      slots[pending[i].position] := Some(FromResult(pending[i].verb, results[i]));
    }
    forall p | 0 <= p < |items| ensures slots[p] == Some(ResponseAt(store, items, p)) {
      if PlanOf(store, items[p]).Pending? {
        Reached(store, items, p);
      }
    }
  }

  /** Applying the items fills every slot, and slot `p` holds the response due to item `p`. */
  method ApplyBulkOperations(store: Store, items: seq<Item>) returns (responses: seq<ResponseItem>, errors: bool)
    requires Answers(store)
    ensures |responses| == |items| && |store.apply(Batch(store, items))| == |Batch(store, items)|
    ensures forall p :: 0 <= p < |items| ==> responses[p] == ResponseAt(store, items, p)
    ensures errors <==> exists p :: 0 <= p < |responses| && responses[p].status.error.Some?
  {
    hide PlanOf, Pendings, Batch, ResponseAt;
    var slots := new Option<ResponseItem>[|items|](_ => None);
    var pending := Queue(store, items, slots);
    PendingWrites(store, items);
    var results := store.apply(Writes(pending));
    assert |results| == |pending|;
    Fill(store, items, pending, results, slots);
    responses, errors := [], false;
    for p := 0 to |items|
      invariant |responses| == p && forall q :: 0 <= q < p ==> responses[q] == ResponseAt(store, items, q)
      invariant errors <==> exists q :: 0 <= q < p && responses[q].status.error.Some?
    {
      var item := slots[p].value;
      responses := responses + [item];
      errors := errors || item.status.error.Some?;
    }
  }
}
