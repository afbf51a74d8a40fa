/**
 The query context of a transaction and the code that builds query responses on it
 (core/chaincode/transaction_context.go, pending_query_result.go, query_response_generator.go and handler.go).
 */
module QueryBatching {
  import opened Bytes
  import opened QuerySessions
  import opened Wrappers

  /** A results iterator; `closes` counts how often it was closed. */
  class ResultsIterator {
    /** How a `QueryResultsIterator` gives its bookmark; other iterators give none. */
    const bookmark: Option<Bookmark>
    var remaining: seq<Outcome>
    var closes: nat

    constructor (outcomes: seq<Outcome>, bookmark: Option<Bookmark>)
      ensures remaining == outcomes && closes == 0 && this.bookmark == bookmark
    {
      remaining, closes, this.bookmark := outcomes, 0, bookmark;
    }

    /** `None` is the end of the results. */
    method Next() returns (r: Option<Outcome>)
      modifies this`remaining
      ensures old(remaining) == [] ==> r.None? && remaining == []
      ensures old(remaining) != [] ==> r == Some(old(remaining)[0]) && remaining == old(remaining)[1..]
    {
      if remaining == [] {
        return None;
      }
      r, remaining := Some(remaining[0]), remaining[1..];
    }

    method Close()
      modifies this`closes
      ensures closes == old(closes) + 1
    {
      closes := closes + 1;
    }

    method GetBookmarkAndClose() returns (mark: string)
      requires bookmark.Some?
      modifies this`closes
      ensures mark == bookmark.value(remaining) && closes == old(closes) + 1
    {
      mark := bookmark.value(remaining);
      closes := closes + 1;
    }
  }

  /** The bookmarks of a page over the iterator; they are empty where the iterator gives none. */
  function Page(iter: ResultsIterator, isPaginated: bool): Option<Bookmark> {
    if !isPaginated then None else if iter.bookmark.Some? then iter.bookmark else Some(_ => "")
  }

  class PendingQueryResult {
    var batch: seq<bytes>

    constructor ()
      ensures batch == []
    {
      batch := [];
    }

    method Cut() returns (cut: seq<bytes>)
      modifies this
      ensures cut == old(batch) && batch == []
    {
      cut := batch;
      batch := [];
    }

    method Add(o: Outcome) returns (ok: bool)
      requires !o.Error?
      modifies this
      ensures ok <==> o.Result?
      ensures batch == if ok then old(batch) + [o.content] else old(batch)
    {
      ok := o.Result?;
      if ok {
        batch := batch + [o.content];
      }
    }
  }

  class Counter {
    var value: int

    constructor ()
      ensures value == 0
    {
      value := 0;
    }
  }

  /** No two queries share an object. */
  ghost predicate Distinct<V>(m: map<string, V>) {
    forall a, b | a in m && b in m && a != b :: m[a] != m[b]
  }

  lemma DistinctMore<V>(m: map<string, V>, id: string, v: V)
    requires Distinct(m) && forall a | a in m :: m[a] != v
    ensures Distinct(m[id := v])
  {
  }

  class TransactionContext {
    var iterators: map<string, ResultsIterator>
    var pending: map<string, PendingQueryResult>
    var counts: map<string, Counter>

    constructor ()
      ensures Valid() && iterators == map[]
    {
      iterators, pending, counts := map[], map[], map[];
    }

    /** The three maps have the same keys, and no two queries share anything. */
    ghost predicate Valid()
      reads this
    {
      && pending.Keys == iterators.Keys && counts.Keys == iterators.Keys
      && Distinct(iterators) && Distinct(pending) && Distinct(counts)
    }

    /** The state of an open query. */
    ghost function View(id: string): Session
      requires Valid() && id in iterators
      reads this, iterators[id], pending[id], counts[id]
    {
      Session(iterators[id].remaining, pending[id].batch, counts[id].value)
    }

    /** `InitializeQueryContext`. */
    method InitializeQueryContext(id: string, iter: ResultsIterator)
      requires Valid() && forall a | a in iterators :: iterators[a] != iter
      modifies this
      ensures Valid() && iterators == old(iterators)[id := iter] && View(id) == Opened(iter.remaining)
      ensures fresh(pending[id]) && fresh(counts[id])
      ensures forall a | a in old(iterators) && a != id :: pending[a] == old(pending)[a] && counts[a] == old(counts)[a]
    {
      DistinctMore(iterators, id, iter);
      iterators := iterators[id := iter];
      var p := new PendingQueryResult();
      DistinctMore(pending, id, p);
      pending := pending[id := p];
      var c := new Counter();
      DistinctMore(counts, id, c);
      counts := counts[id := c];
    }

    /** The query is forgotten; the others stay. */
    twostate predicate Dropped(id: string)
      reads this
    {
      && iterators == old(iterators) - {id} && pending == old(pending) - {id} && counts == old(counts) - {id}
    }

    /** `CleanupQueryContext`; cleaning up twice closes once. */
    method CleanupQueryContext(id: string)
      requires Valid()
      modifies this, if id in iterators then {iterators[id]} else {}
      ensures Valid() && Dropped(id)
      ensures id in old(iterators) ==> old(iterators)[id].closes == old(iterators[id].closes) + 1
      ensures id in old(iterators) ==> old(iterators)[id].remaining == old(iterators[id].remaining)
    {
      if id in iterators {
        iterators[id].Close();
      }
      iterators, pending, counts := iterators - {id}, pending - {id}, counts - {id};
    }

    /** `CleanupQueryContextWithBookmark`: an iterator without bookmarks is not closed. */
    method CleanupQueryContextWithBookmark(id: string) returns (mark: string)
      requires Valid()
      modifies this, if id in iterators then {iterators[id]} else {}
      ensures Valid() && Dropped(id)
      ensures id in old(iterators) ==> old(iterators)[id].closes == old(iterators[id].closes) + if old(iterators)[id].bookmark.Some? then 1 else 0
      ensures id in old(iterators) ==> mark == Page(old(iterators)[id], true).value(old(iterators[id].remaining))
      ensures id !in old(iterators) ==> mark == ""
    {
      mark := "";
      if id in iterators {
        var iter := iterators[id];
        if iter.bookmark.Some? {
          mark := iter.GetBookmarkAndClose();
        }
      }
      iterators, pending, counts := iterators - {id}, pending - {id}, counts - {id};
    }
  }

  /** Whether finishing closes the iterator. */
  predicate Closes(iter: ResultsIterator, isPaginated: bool, response: Response) {
    isPaginated && response.Batch? ==> iter.bookmark.Some?
  }

  /** Only a page over an iterator that gives no bookmarks leaves the iterator open; its bookmark is empty. */
  lemma ClosesIff(iter: ResultsIterator, isPaginated: bool, response: Response)
    ensures Closes(iter, isPaginated, response) <==> !isPaginated || response.Failed? || iter.bookmark.Some?
    ensures Page(iter, isPaginated).Some? <==> isPaginated
    ensures isPaginated && iter.bookmark.Some? ==> Page(iter, isPaginated) == iter.bookmark
    ensures isPaginated && iter.bookmark.None? ==> forall remaining :: Page(iter, isPaginated).value(remaining) == ""
  {
  }

  class QueryResponseGenerator {
    const maxResultLimit: int

    constructor (maxResultLimit: int)
      ensures this.maxResultLimit == maxResultLimit
    {
      this.maxResultLimit := maxResultLimit;
    }

    /** `createQueryResponse`. */
    method CreateQueryResponse(context: TransactionContext, id: string, isPaginated: bool, p: PendingQueryResult, count: int)
      returns (response: Response)
      requires context.Valid() && id in context.iterators && context.pending[id] == p && context.counts[id].value == count
      modifies context, context.iterators[id], p
      ensures context.Valid() && context.Dropped(id)
      ensures response == Finish(old(context.View(id)), Page(old(context.iterators)[id], isPaginated)).response
      ensures var iter := old(context.iterators)[id];
              iter.closes == old(context.iterators[id].closes) + if Closes(iter, isPaginated, response) then 1 else 0
    {
      var batch := p.Cut();
      if isPaginated {
        var bookmark := context.CleanupQueryContextWithBookmark(id);
        return Batch(batch, false, Some(Metadata(bookmark, count)));
      }
      context.CleanupQueryContext(id);
      response := Batch(batch, false, None);
    }

    /** Adds a result to the pending batch and counts it; a result that cannot be marshalled ends the query. */
    method Take(context: TransactionContext, id: string, p: PendingQueryResult, total: Counter, o: Outcome) returns (ok: bool)
      requires context.Valid() && id in context.iterators && context.pending[id] == p && context.counts[id] == total && !o.Error?
      modifies context, context.iterators[id], p, total
      ensures ok <==> o.Result?
      ensures ok ==> p.batch == old(p.batch) + [o.content] && total.value == old(total.value) + 1
      ensures ok ==> unchanged(context) && unchanged(context.iterators[id])
      ensures !ok ==> context.Valid() && context.Dropped(id)
      ensures !ok ==> old(context.iterators)[id].closes == old(context.iterators[id].closes) + 1
    {
      ok := p.Add(o);
      if !ok {
        context.CleanupQueryContext(id);
      } else {
        total.value := total.value + 1;
      }
    }

    /** What is done with a result: it is taken, after the pending batch was cut if that is full. */
    method Keep(context: TransactionContext, id: string, isPaginated: bool, o: Outcome) returns (answer: Option<Response>)
      requires context.Valid() && id in context.iterators && !o.Error?
      modifies context, context.iterators[id], context.pending[id], context.counts[id]
      ensures !o.Result? ==>
        && answer == Some(Failed) && context.Valid() && context.Dropped(id)
        && old(context.iterators)[id].closes == old(context.iterators[id].closes) + 1
      ensures o.Result? ==>
        var p := old(context.pending[id].batch);
        var full := !isPaginated && |p| == maxResultLimit;
        && answer == (if full then Some(Batch(p, true, None)) else None)
        && unchanged(context) && unchanged(context.iterators[id]) && context.counts[id].value == old(context.counts[id].value) + 1
        && context.pending[id].batch == if full then [o.content] else p + [o.content]
    {
      var p := context.pending[id];
      var full := !isPaginated && |p.batch| == maxResultLimit;
      var batch := [];
      if full {
        batch := p.Cut();
      }
      var added := Take(context, id, p, context.counts[id], o);
      if !added {
        return Some(Failed);
      }
      answer := if full then Some(Batch(batch, true, None)) else None;
    }

    /** The response is the one specified, and the query is left as it should be. */
    twostate predicate Answered(context: TransactionContext, id: string, iter: ResultsIterator, p: PendingQueryResult, total: Counter,
                                isPaginated: bool, built: Built, response: Response)
      reads context, iter, p, total
    {
      && context.Valid() && response == built.response
      && if response.Batch? && response.hasMore then
           unchanged(context) && Session(iter.remaining, p.batch, total.value) == built.session && iter.closes == old(iter.closes)
         else
           context.Dropped(id) && iter.closes == old(iter.closes) + if Closes(iter, isPaginated, response) then 1 else 0
    }

    /** One round of the loop of `BuildQueryResponse`: it answers, or takes one more result. */
    method Round(context: TransactionContext, iter: ResultsIterator, id: string, isPaginated: bool, totalReturnLimit: int)
      returns (answer: Option<Response>)
      requires context.Valid() && id in context.iterators && context.iterators[id] == iter
      modifies context, iter, context.pending[id], context.counts[id]
      ensures answer.Some? ==>
        Answered(context, id, iter, old(context.pending)[id], old(context.counts)[id], isPaginated,
                 Build(old(context.View(id)), maxResultLimit, totalReturnLimit, Page(iter, isPaginated)), answer.value)
      ensures answer.None? ==>
        && unchanged(context) && iter.closes == old(iter.closes) && |iter.remaining| < |old(iter.remaining)|
        && Build(context.View(id), maxResultLimit, totalReturnLimit, Page(iter, isPaginated))
             == Build(old(context.View(id)), maxResultLimit, totalReturnLimit, Page(iter, isPaginated))
    {
      var p, total := context.pending[id], context.counts[id];
      if total.value >= totalReturnLimit {
        var response := CreateQueryResponse(context, id, isPaginated, p, total.value);
        return Some(response);
      }
      var result := iter.Next();
      if result.None? {
        var response := CreateQueryResponse(context, id, isPaginated, p, total.value);
        return Some(response);
      }
      if result.value.Error? {
        context.CleanupQueryContext(id);
        return Some(Failed);
      }
      answer := Keep(context, id, isPaginated, result.value);
    }

    /**
     `BuildQueryResponse`.  While there is more the query stays open, in the state the specification says;
     otherwise it is forgotten and its iterator closed once.
     */
    method BuildQueryResponse(context: TransactionContext, iter: ResultsIterator, id: string, isPaginated: bool, totalReturnLimit: int)
      returns (response: Response)
      requires context.Valid() && id in context.iterators && context.iterators[id] == iter
      modifies context, iter, context.pending[id], context.counts[id]
      ensures Answered(context, id, iter, old(context.pending)[id], old(context.counts)[id], isPaginated,
                       Build(old(context.View(id)), maxResultLimit, totalReturnLimit, Page(iter, isPaginated)), response)
    {
      while true
        invariant unchanged(context) && iter.closes == old(iter.closes)
        invariant Build(context.View(id), maxResultLimit, totalReturnLimit, Page(iter, isPaginated))
               == Build(old(context.View(id)), maxResultLimit, totalReturnLimit, Page(iter, isPaginated))
        decreases |iter.remaining|
      {
        var answer := Round(context, iter, id, isPaginated, totalReturnLimit);
        if answer.Some? {
          return answer.value;
        }
      }
    }
  }

  // ---------------------------------------------------------------------------
  // The handler
  // ---------------------------------------------------------------------------

  lemma DropTwice<V>(m: map<string, V>, id: string)
    ensures (m - {id}) - {id} == m - {id} && id !in m - {id}
  {
  }

  lemma DropAdded<V>(m: map<string, V>, id: string, v: V)
    ensures m[id := v] - {id} == m - {id}
  {
  }

  /** How an open query answers a message; `None` is an error. */
  function Answer(s: Session, maxResultLimit: int, limit: int, marshals: bool): Option<Response> {
    var response := Build(s, maxResultLimit, limit, None).response;
    if response.Failed? || !marshals then None else Some(response)
  }

  /** A message is answered exactly when the response is built and can be marshalled. */
  lemma AnswerIff(s: Session, maxResultLimit: int, limit: int, marshals: bool)
    ensures var built, answer := Build(s, maxResultLimit, limit, None).response, Answer(s, maxResultLimit, limit, marshals);
            (answer.None? <==> built == Failed || !marshals) && (answer.Some? ==> answer.value == built)
  {
  }

  predicate More(response: Option<Response>) {
    response.Some? && response.value.Batch? && response.value.hasMore
  }

  /** What `HandleGetHistoryForKey` and `HandleQueryStateNext` do with a query that is open. */
  method Respond(generator: QueryResponseGenerator, context: TransactionContext, iter: ResultsIterator, id: string, limit: int, marshals: bool)
    returns (response: Option<Response>)
    requires context.Valid() && id in context.iterators && context.iterators[id] == iter
    modifies context, iter, context.pending[id], context.counts[id]
    ensures context.Valid() && response == Answer(old(context.View(id)), generator.maxResultLimit, limit, marshals)
    ensures More(response) ==>
      && unchanged(context) && iter.closes == old(iter.closes)
      && context.View(id) == Build(old(context.View(id)), generator.maxResultLimit, limit, None).session
    ensures !More(response) ==> context.Dropped(id) && iter.closes == old(iter.closes) + 1
  {
    var payload := generator.BuildQueryResponse(context, iter, id, false, limit);
    if payload.Failed? || !marshals {
      DropTwice(old(context.iterators), id);
      DropTwice(old(context.pending), id);
      DropTwice(old(context.counts), id);
      context.CleanupQueryContext(id);
      return None;
    }
    response := Some(payload);
  }

  /**
   `HandleGetHistoryForKey`, after the message was decoded and the iterator opened: it opens the query and answers.
   `limit` is the handler's total return limit and `marshals` says whether the response can be marshalled.
   */
  method HandleGetHistoryForKey(generator: QueryResponseGenerator, context: TransactionContext, iter: ResultsIterator, id: string, limit: int,
                                marshals: bool)
    returns (response: Option<Response>)
    requires context.Valid() && forall a | a in context.iterators :: context.iterators[a] != iter
    modifies context, iter
    ensures context.Valid() && response == Answer(Opened(old(iter.remaining)), generator.maxResultLimit, limit, marshals)
    ensures More(response) ==>
      && context.iterators == old(context.iterators)[id := iter] && iter.closes == old(iter.closes)
      && fresh(context.pending[id]) && fresh(context.counts[id])
      && context.View(id) == Build(Opened(old(iter.remaining)), generator.maxResultLimit, limit, None).session
    ensures !More(response) ==> context.iterators == old(context.iterators) - {id} && iter.closes == old(iter.closes) + 1
  {
    DropAdded(context.iterators, id, iter);
    context.InitializeQueryContext(id, iter);
    response := Respond(generator, context, iter, id, limit, marshals);
  }

  /**
   `HandleQueryStateNext`, after the message was decoded.  A query that ends here, for whatever reason, is forgotten
   and its iterator closed once.
   */
  method HandleQueryStateNext(generator: QueryResponseGenerator, context: TransactionContext, id: string, limit: int, marshals: bool)
    returns (response: Option<Response>)
    requires context.Valid()
    modifies context
    modifies if id in context.iterators then {context.iterators[id]} else {}
    modifies if id in context.pending then {context.pending[id]} else {}
    modifies if id in context.counts then {context.counts[id]} else {}
    ensures context.Valid()
    ensures id !in old(context.iterators) ==> response.None? && unchanged(context)
    ensures id in old(context.iterators) ==>
      && response == Answer(old(context.View(id)), generator.maxResultLimit, limit, marshals)
      && (if More(response) then
            unchanged(context) && context.View(id) == Build(old(context.View(id)), generator.maxResultLimit, limit, None).session
          else context.Dropped(id))
      && old(context.iterators)[id].closes == old(context.iterators[id].closes) + if More(response) then 0 else 1
  {
    if id !in context.iterators {
      return None;
    }
    response := Respond(generator, context, context.iterators[id], id, limit, marshals);
  }

  function Received(response: Option<Response>): Response {
    if response.Some? then response.value else Failed
  }

  lemma ResponsesUnfold(s: Session, maxResultLimit: int, limit: int)
    ensures var first := Answer(s, maxResultLimit, limit, true);
            Responses(s, maxResultLimit, limit)
              == [Received(first)]
                 + if More(first) then Responses(Build(s, maxResultLimit, limit, None).session, maxResultLimit, limit) else []
  {
  }

  /** The chaincode asks for the next batch while there is more. */
  method Rest(generator: QueryResponseGenerator, context: TransactionContext, iter: ResultsIterator, id: string, limit: int)
    returns (responses: seq<Response>)
    requires context.Valid() && id in context.iterators && context.iterators[id] == iter
    modifies context, iter, context.pending[id], context.counts[id]
    ensures context.Valid() && context.Dropped(id) && iter.closes == old(iter.closes) + 1
    ensures responses == Responses(old(context.View(id)), generator.maxResultLimit, limit)
    decreases |iter.remaining|
  {
    ResponsesUnfold(context.View(id), generator.maxResultLimit, limit);
    var response := HandleQueryStateNext(generator, context, id, limit, true);
    responses := [Received(response)];
    if More(response) {
      var rest := Rest(generator, context, iter, id, limit);
      responses := responses + rest;
    }
  }

  /**
   A whole query: it is opened and asked for the next batch while there is more.  The responses are those of the
   session, the other queries stay open, and the iterator is closed once.
   */
  method QueryToTheEnd(generator: QueryResponseGenerator, context: TransactionContext, iter: ResultsIterator, id: string, limit: int)
    returns (responses: seq<Response>)
    requires context.Valid() && forall a | a in context.iterators :: context.iterators[a] != iter
    modifies context, iter
    ensures context.Valid() && context.iterators == old(context.iterators) - {id} && iter.closes == old(iter.closes) + 1
    ensures responses == Responses(Opened(old(iter.remaining)), generator.maxResultLimit, limit)
  {
    ResponsesUnfold(Opened(iter.remaining), generator.maxResultLimit, limit);
    DropAdded(context.iterators, id, iter);
    var response := HandleGetHistoryForKey(generator, context, iter, id, limit, true);
    responses := [Received(response)];
    if More(response) {
      var rest := Rest(generator, context, iter, id, limit);
      responses := responses + rest;
    }
  }
}
