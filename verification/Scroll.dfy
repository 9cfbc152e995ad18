/** Scroll contexts: the table as a state machine over a clock, and the walk a client makes
    through a frozen result list. */
module Scroll {
  import opened Sequences
  import opened Options
  import opened TopKWindow

  /** An index and the search body without its paging. */
  datatype Request = Request(index: string, body: string)

  datatype ScrollContext = ScrollContext(request: Request, cursor: usize, size: usize, expiresAt: nat)

  type Table = map<string, ScrollContext>

  /** What an eviction pass keeps. */
  function Live(entries: Table, now: nat): Table {
    map id | id in entries && entries[id].expiresAt > now :: entries[id]
  }

  datatype Event =
    | Insert(now: nat, id: string, ctx: ScrollContext)
    | Take(now: nat, id: string)
    | Gc(now: nat)

  function After(entries: Table, e: Event): Table {
    match e
    case Insert(now, id, ctx) => Live(entries, now)[id := ctx]
    case Take(now, id) => Live(entries, now) - {id}
    case Gc(now) => Live(entries, now)
  }

  /** What a caller of `take` receives; other events hand nothing out. */
  function Yield(entries: Table, e: Event): Option<ScrollContext> {
    if e.Take? && e.id in entries && entries[e.id].expiresAt > e.now then Some(entries[e.id]) else None
  }

  /** The table. The clock and the generated ids are parameters; every method runs under the
      table's lock, so a run is a sequence of events. */
  class ScrollTable {
    var entries: Table

    constructor ()
      ensures entries == map[]
    {
      entries := map[];
    }

    method GcLocked(now: nat)
      modifies this
      ensures entries == After(old(entries), Event.Gc(now))
    {
      entries := map id | id in entries && entries[id].expiresAt > now :: entries[id];
    }

    method InsertContext(ctx: ScrollContext, now: nat, id: string)
      modifies this
      ensures entries == After(old(entries), Event.Insert(now, id, ctx))
    {
      GcLocked(now);
      entries := entries[id := ctx];
    }

    method TakeContext(id: string, now: nat) returns (ctx: Option<ScrollContext>)
      modifies this
      ensures ctx == Yield(old(entries), Event.Take(now, id))
      ensures entries == After(old(entries), Event.Take(now, id))
    {
      GcLocked(now);
      ctx := if id in entries then Some(entries[id]) else None;
      entries := entries - {id};
    }
  }

  // Runs of the table

  function Before(events: seq<Event>, n: nat): Table
    requires n <= |events|
  {
    if n == 0 then map[] else After(Before(events, n - 1), events[n - 1])
  }

  /** What event `i` of a run hands out. */
  function Outcome(events: seq<Event>, i: nat): Option<ScrollContext>
    requires i < |events|
  {
    Yield(Before(events, i), events[i])
  }

  predicate Touches(e: Event, id: string) {
    !e.Gc? && e.id == id
  }

  /** The context inserted by event `k` under `id` is still there before event `n`. */
  ghost predicate KeptSince(events: seq<Event>, n: nat, k: nat, id: string, ctx: ScrollContext)
    requires n <= |events|
  {
    && k < n && events[k].Insert? && events[k].id == id && events[k].ctx == ctx
    && forall j :: k < j < n ==> !Touches(events[j], id) && ctx.expiresAt > events[j].now
  }

  /** The table holds exactly the contexts inserted, not touched since, and not expired at any
      event since. */
  lemma {:induction false} TableHolds(events: seq<Event>, n: nat, id: string, ctx: ScrollContext)
    requires n <= |events|
    ensures (id in Before(events, n) && Before(events, n)[id] == ctx)
      <==> exists k: nat :: KeptSince(events, n, k, id, ctx)
  {
    if n > 0 {
      TableHolds(events, n - 1, id, ctx);
      var e := events[n - 1];
      if exists k: nat :: KeptSince(events, n, k, id, ctx) {
        var k: nat :| KeptSince(events, n, k, id, ctx);
        if k < n - 1 {
          assert KeptSince(events, n - 1, k, id, ctx);
          assert !Touches(e, id) && ctx.expiresAt > e.now;
        }
      }
      if id in Before(events, n) && Before(events, n)[id] == ctx {
        if Touches(e, id) {
          assert KeptSince(events, n, n - 1, id, ctx);
        } else {
          var k: nat :| KeptSince(events, n - 1, k, id, ctx);
          assert KeptSince(events, n, k, id, ctx);
        }
      }
    }
  }

  /** The clock never runs backwards. */
  ghost predicate Clocked(events: seq<Event>) {
    forall i, j :: 0 <= i < j < |events| ==> events[i].now <= events[j].now
  }

  /** No id is generated twice. */
  ghost predicate FreshIds(events: seq<Event>) {
    forall i, j :: 0 <= i < j < |events| && events[i].Insert? && events[j].Insert? ==> events[i].id != events[j].id
  }

  /** Event `i` takes the context that event `k` inserted, nobody took it before, and it has
      not expired. */
  ghost predicate Due(events: seq<Event>, i: nat, k: nat, ctx: ScrollContext)
    requires i < |events|
  {
    && events[i].Take? && k < i && events[k].Insert? && events[k].id == events[i].id && events[k].ctx == ctx
    && ctx.expiresAt > events[i].now
    && forall j :: k < j < i ==> !(events[j].Take? && events[j].id == events[i].id)
  }

  /** Over any run, `take` hands out a context exactly when it is due. */
  lemma TakeYieldsWhatIsDue(events: seq<Event>, i: nat, ctx: ScrollContext)
    requires i < |events| && Clocked(events) && FreshIds(events)
    ensures Outcome(events, i) == Some(ctx) <==> exists k: nat :: Due(events, i, k, ctx)
  {
    hide After;
    if events[i].Take? {
      var id := events[i].id;
      TableHolds(events, i, id, ctx);
      if exists k: nat :: Due(events, i, k, ctx) {
        var k: nat :| Due(events, i, k, ctx);
        forall j | k < j < i ensures !Touches(events[j], id) && ctx.expiresAt > events[j].now {
          assert events[j].now <= events[i].now;
        }
        assert KeptSince(events, i, k, id, ctx);
      }
      if Outcome(events, i) == Some(ctx) {
        var k: nat :| KeptSince(events, i, k, id, ctx);
        assert Due(events, i, k, ctx);
      }
    }
  }

  /** An id yields its context at most once. */
  lemma AtMostOnce(events: seq<Event>, i: nat, j: nat)
    requires i < j < |events| && Clocked(events) && FreshIds(events)
    requires events[i].Take? && events[j].Take? && events[i].id == events[j].id && Outcome(events, i).Some?
    ensures Outcome(events, j).None?
  {
    hide Outcome;
    if Outcome(events, j).Some? {
      TakeYieldsWhatIsDue(events, i, Outcome(events, i).value);
      TakeYieldsWhatIsDue(events, j, Outcome(events, j).value);
    }
  }

  // The handlers, over a frozen result list for every request

  type Hit = nat

  function Saturated(a: usize, b: nat): usize {
    if a + b <= USIZE_MAX then a + b else USIZE_MAX
  }

  /** The tail of the search handler: the first page and the context left behind. */
  method OpenScroll(table: ScrollTable, results: Request -> seq<Hit>, request: Request, from: usize, size: usize,
                    ttl: nat, now: nat, id: string)
    returns (page: seq<Hit>)
    modifies table
    ensures page == Window(results(request), from, size)
    ensures var ctx := ScrollContext(request, Saturated(from, size), size, now + ttl);
      table.entries == After(old(table.entries), Event.Insert(now, id, ctx))
  {
    page := Window(results(request), from, size);
    table.InsertContext(ScrollContext(request, Saturated(from, size), size, now + ttl), now, id);
  }

  datatype ScrollReply = Missing | Served(page: seq<Hit>, next: Option<string>)

  /** The next page of a context, and the context to reinstall when it was not empty. */
  function Advance(ctx: ScrollContext, results: Request -> seq<Hit>, expiresAt: nat)
    : (seq<Hit>, Option<ScrollContext>)
  {
    var page := Window(results(ctx.request), ctx.cursor, ctx.size);
    (page, if page == [] then None else Some(ctx.(cursor := Saturated(ctx.cursor, |page|), expiresAt := expiresAt)))
  }

  /** One scroll call: the lookup happens at `now`, the reinstallation at `later`. */
  method ServeScroll(table: ScrollTable, results: Request -> seq<Hit>, id: string, ttl: nat, now: nat, later: nat,
                     newId: string)
    returns (reply: ScrollReply)
    modifies table
    ensures var found := Yield(old(table.entries), Event.Take(now, id));
      var left := After(old(table.entries), Event.Take(now, id));
      match found
      case None => reply == Missing && table.entries == left
      case Some(ctx) =>
        match Advance(ctx, results, later + ttl)
        case (page, None) => reply == Served(page, None) && table.entries == left
        case (page, Some(ctx')) =>
          reply == Served(page, Some(newId)) && table.entries == After(left, Event.Insert(later, newId, ctx'))
  {
    hide After, Yield;
    var found := table.TakeContext(id, now);
    match found {
      case None => return Missing;
      case Some(ctx) =>
        var page := Window(results(ctx.request), ctx.cursor, ctx.size);
        var returned := |page|;
        var cursor := Saturated(ctx.cursor, returned);
        if returned > 0 {
          table.InsertContext(ctx.(cursor := cursor, expiresAt := later + ttl), later, newId);
          return Served(page, Some(newId));
        }
        return Served(page, None);
    }
  }

  // The walk

  /** The pages successive scroll calls serve, the empty one that ends the scroll included. */
  function Walk(list: seq<Hit>, cursor: usize, size: usize): seq<seq<Hit>>
    requires size >= 1 && |list| <= USIZE_MAX
    decreases if cursor <= |list| then |list| - cursor else 0
  {
    var page := Window(list, cursor, size);
    [page] + if page == [] then [] else Walk(list, Saturated(cursor, |page|), size)
  }

  function Concat(pages: seq<seq<Hit>>): seq<Hit> {
    if pages == [] then [] else pages[0] + Concat(pages[1..])
  }

  function From(list: seq<Hit>, from: nat): seq<Hit> {
    if from <= |list| then list[from..] else []
  }

  lemma ConcatCons(page: seq<Hit>, pages: seq<seq<Hit>>)
    ensures Concat([page] + pages) == page + Concat(pages)
  {
    assert ([page] + pages)[1..] == pages;
  }

  lemma WindowThenRest(list: seq<Hit>, from: usize, size: usize)
    requires |list| <= USIZE_MAX
    ensures Window(list, from, size) + From(list, Saturated(from, size)) == From(list, from)
    ensures Window(list, from, size) + From(list, Saturated(from, |Window(list, from, size)|)) == From(list, from)
  {
  }

  ghost predicate Ended(pages: seq<seq<Hit>>) {
    pages != [] && pages[|pages| - 1] == [] && forall i :: 0 <= i < |pages| - 1 ==> pages[i] != []
  }

  /** The scrolled pages are the rest of the list, each hit once, in order; only the last page
      is empty. */
  lemma {:induction false} WalkIsTheRest(list: seq<Hit>, cursor: usize, size: usize)
    requires size >= 1 && |list| <= USIZE_MAX
    ensures Concat(Walk(list, cursor, size)) == From(list, cursor)
    ensures Ended(Walk(list, cursor, size))
    decreases if cursor <= |list| then |list| - cursor else 0
  {
    var page := Window(list, cursor, size);
    if page == [] {
      ConcatCons(page, []);
    } else {
      var next := Saturated(cursor, |page|);
      WalkIsTheRest(list, next, size);
      WindowThenRest(list, cursor, size);
      ConcatCons(page, Walk(list, next, size));
    }
  }

  /** The first page and the scrolled ones together are the list from `from` on. */
  lemma ScrollIsComplete(list: seq<Hit>, from: usize, size: usize)
    requires size >= 1 && |list| <= USIZE_MAX
    ensures Window(list, from, size) + Concat(Walk(list, Saturated(from, size), size)) == From(list, from)
  {
    hide Walk, Concat, Window;
    WindowThenRest(list, from, size);
    WalkIsTheRest(list, Saturated(from, size), size);
  }

  /** A client that opens a scroll and calls again each time before the keepalive it gave runs
      out, however long each call takes, receives the whole list from `from` on, and the table
      keeps nothing of it. Call `n` comes `gap(n)` after the context was last installed, gives
      a keepalive of `ttl(n + 1)`, and spends `delay(n)` between lookup and reinstallation. */
  method ScanAll(table: ScrollTable, results: Request -> seq<Hit>, request: Request, from: usize, size: usize,
                 start: nat, ttl: nat -> nat, gap: nat -> nat, delay: nat -> nat, ids: nat -> string)
    returns (received: seq<Hit>, end: nat)
    requires size >= 1 && |results(request)| <= USIZE_MAX
    requires forall i :: gap(i) < ttl(i)
    requires forall i :: ids(i) !in table.entries
    modifies table
    ensures received == From(results(request), from)
    ensures table.entries == Live(old(table.entries), end)
  {
    hide After, Yield, Live, Window, From, Saturated;
    var list := results(request);
    ghost var others := table.entries;
    received := OpenScroll(table, results, request, from, size, ttl(0), start, ids(0));
    ghost var ctx := ScrollContext(request, Saturated(from, size), size, start + ttl(0));
    InsertMine(others, start, ids(0), ctx);
    WindowThenRest(list, from, size);
    end := start;
    var n: nat := 0;
    var open := true;
    while open
      invariant Waits(table.entries, others, end, open, ids(n), ctx)
      invariant ctx.request == request && ctx.size == size && (open ==> ctx.expiresAt == end + ttl(n))
      invariant received + Ahead(list, ctx.cursor, open) == From(list, from)
      decreases open, if ctx.cursor <= |list| then |list| - ctx.cursor else 0
    {
      var now := end + gap(n);
      var later := now + delay(n);
      ghost var cursor := ctx.cursor;
      var page;
      page, ctx := CallAgain(table, results, ids(n), ttl(n + 1), now, later, ids(n + 1), others, end, ctx);
      PageAhead(list, cursor, size, received);
      received := received + page;
      open := page != [];
      n, end := n + 1, if open then later else now;
    }
    NothingAhead(list, ctx.cursor, received);
  }

  /** The table holds the client's context, if it is open, beside what is left of the others. */
  ghost predicate Waits(entries: Table, others: Table, at: nat, open: bool, id: string, ctx: ScrollContext) {
    entries == if open then Live(others, at)[id := ctx] else Live(others, at)
  }

  /** What a scroll has still to serve. */
  ghost function Ahead(list: seq<Hit>, cursor: nat, open: bool): seq<Hit> {
    if open then From(list, cursor) else []
  }

  lemma PageAhead(list: seq<Hit>, cursor: usize, size: usize, received: seq<Hit>)
    requires size >= 1 && |list| <= USIZE_MAX
    ensures var page := Window(list, cursor, size);
      var next := Saturated(cursor, |page|);
      && received + page + Ahead(list, next, page != []) == received + From(list, cursor)
      && (page != [] ==> cursor < next <= |list|)
  {
    hide Window, From, Saturated;
    var page := Window(list, cursor, size);
    PageFacts(list, cursor, size);
    Reassociate(received, page, From(list, Saturated(cursor, |page|)));
  }

  lemma NothingAhead(list: seq<Hit>, cursor: nat, received: seq<Hit>)
    ensures received + Ahead(list, cursor, false) == received
  {
  }

  /** One call by the owner of an unexpired context, whatever else the table holds. */
  method CallAgain(table: ScrollTable, results: Request -> seq<Hit>, id: string, ttl: nat, now: nat, later: nat,
                   newId: string, ghost others: Table, ghost since: nat, ghost ctx: ScrollContext)
    returns (page: seq<Hit>, ghost ctx': ScrollContext)
    requires Waits(table.entries, others, since, true, id, ctx) && id !in others
    requires since <= now < ctx.expiresAt && now <= later
    modifies table
    ensures page == Window(results(ctx.request), ctx.cursor, ctx.size)
    ensures ctx' == ctx.(cursor := Saturated(ctx.cursor, |page|), expiresAt := later + ttl)
    ensures Waits(table.entries, others, if page == [] then now else later, page != [], newId, ctx')
  {
    hide After, Yield, Live, Window, Saturated;
    ghost var served := Window(results(ctx.request), ctx.cursor, ctx.size);
    ctx' := ctx.(cursor := Saturated(ctx.cursor, |served|), expiresAt := later + ttl);
    TakeMine(others, since, id, ctx, now);
    LiveLive(others, now, later);
    InsertMine(Live(others, now), later, newId, ctx');
    var reply := ServeScroll(table, results, id, ttl, now, later, newId);
    page := reply.page;
  }

  lemma PageFacts(list: seq<Hit>, cursor: usize, size: usize)
    requires size >= 1 && |list| <= USIZE_MAX
    ensures var page := Window(list, cursor, size);
      && page + From(list, Saturated(cursor, |page|)) == From(list, cursor)
      && (page == [] <==> cursor >= |list|)
      && (page == [] <==> From(list, cursor) == [])
      && (page != [] ==> cursor < Saturated(cursor, |page|) <= |list|)
  {
  }

  lemma LiveLive(entries: Table, a: nat, b: nat)
    requires a <= b
    ensures Live(Live(entries, a), b) == Live(entries, b)
  {
  }

  /** Taking one's own unexpired context back from among other entries. */
  lemma TakeMine(others: Table, since: nat, id: string, ctx: ScrollContext, now: nat)
    requires id !in others && since <= now < ctx.expiresAt
    ensures Yield(Live(others, since)[id := ctx], Event.Take(now, id)) == Some(ctx)
    ensures After(Live(others, since)[id := ctx], Event.Take(now, id)) == Live(others, now)
  {
  }

  lemma InsertMine(others: Table, now: nat, id: string, ctx: ScrollContext)
    ensures After(others, Event.Insert(now, id, ctx)) == Live(others, now)[id := ctx]
  {
  }
}
