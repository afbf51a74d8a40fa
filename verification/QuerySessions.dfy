/**
 Batching of query results (core/chaincode/query_response_generator.go, transaction_context.go and
 pending_query_result.go), as a function of the session state; QueryBatching proves the code against it.
 */
module QuerySessions {
  import opened Bytes
  import opened Wrappers

  /** What an iterator yields: a result that can be marshalled, one that cannot, or an error. */
  datatype Outcome = Result(content: bytes) | Unmarshallable | Error

  /** An open query: what its iterator still holds, the results not yet sent, and how many were taken. */
  datatype Session = Session(remaining: seq<Outcome>, pending: seq<bytes>, count: int)

  /** The bookmark an iterator gives when it is closed with `remaining` left. */
  type Bookmark = seq<Outcome> -> string

  datatype Metadata = Metadata(bookmark: string, fetched: int)

  datatype Response = Batch(results: seq<bytes>, hasMore: bool, metadata: Option<Metadata>) | Failed

  /** The response of one call and, while there is more, the session after it. */
  datatype Built = Built(response: Response, session: Session)

  /** The results are complete; a page, whose iterator gives the bookmark `page`, comes with its metadata. */
  function Finish(s: Session, page: Option<Bookmark>): Built {
    var metadata := if page.Some? then Some(Metadata(page.value(s.remaining), s.count)) else None;
    Built(Batch(s.pending, false, metadata), s)
  }

  /** `BuildQueryResponse`. */
  function Build(s: Session, maxResultLimit: int, totalReturnLimit: int, page: Option<Bookmark>): (b: Built)
    ensures b.response.Batch? && b.response.hasMore ==> |b.session.remaining| < |s.remaining|
    decreases |s.remaining|
  {
    if s.count >= totalReturnLimit || s.remaining == [] then Finish(s, page)
    else
      var rest := s.remaining[1..];
      match s.remaining[0]
      case Error => Built(Failed, s)
      case Unmarshallable => Built(Failed, s)
      case Result(content) =>
        if page.None? && |s.pending| == maxResultLimit then
          Built(Batch(s.pending, true, None), Session(rest, [content], s.count + 1))
        else Build(Session(rest, s.pending + [content], s.count + 1), maxResultLimit, totalReturnLimit, page)
  }

  /** The responses to calling until there is no more. */
  function Responses(s: Session, maxResultLimit: int, totalReturnLimit: int): (rs: seq<Response>)
    ensures rs != []
    decreases |s.remaining|
  {
    var b := Build(s, maxResultLimit, totalReturnLimit, None);
    if b.response.Batch? && b.response.hasMore then [b.response] + Responses(b.session, maxResultLimit, totalReturnLimit)
    else [b.response]
  }

  function Delivered(rs: seq<Response>): seq<bytes> {
    if rs == [] then [] else (if rs[0].Batch? then rs[0].results else []) + Delivered(rs[1..])
  }

  // ---------------------------------------------------------------------------
  // Conservation
  // ---------------------------------------------------------------------------

  /** How many results the session may still take from its iterator. */
  function Wanted(s: Session, totalReturnLimit: int): nat {
    if totalReturnLimit <= s.count then 0
    else if totalReturnLimit - s.count <= |s.remaining| then totalReturnLimit - s.count
    else |s.remaining|
  }

  predicate AllResults(os: seq<Outcome>) {
    forall i | 0 <= i < |os| :: os[i].Result?
  }

  function Contents(os: seq<Outcome>): (cs: seq<bytes>)
    requires AllResults(os)
    ensures |cs| == |os|
  {
    seq(|os|, i requires 0 <= i < |os| => os[i].content)
  }

  /** The longest prefix of results. */
  function Good(os: seq<Outcome>): (g: seq<Outcome>)
    ensures AllResults(g) && g <= os
  {
    if os == [] || !os[0].Result? then [] else [os[0]] + Good(os[1..])
  }

  lemma ContentsStep(os: seq<Outcome>)
    requires os != [] && AllResults(os)
    ensures Contents(os) == [os[0].content] + Contents(os[1..])
  {
  }

  lemma WantedStep(s: Session, totalReturnLimit: int, pending: seq<bytes>)
    requires s.count < totalReturnLimit && s.remaining != []
    ensures Wanted(Session(s.remaining[1..], pending, s.count + 1), totalReturnLimit) == Wanted(s, totalReturnLimit) - 1
    ensures s.remaining[1..][..Wanted(s, totalReturnLimit) - 1] == s.remaining[..Wanted(s, totalReturnLimit)][1..]
  {
  }

  /**
   One call: it sends the pending results and further ones up to a full batch; what it sends together with what
   it leaves pending are the pending results and the next ones from the iterator, in order.
   */
  lemma {:induction false} BuildConserves(s: Session, maxResultLimit: int, totalReturnLimit: int) returns (taken: nat)
    ensures Conserved(s, Build(s, maxResultLimit, totalReturnLimit, None), maxResultLimit, Wanted(s, totalReturnLimit), taken)
    decreases |s.remaining|
  {
    taken := 0;
    var n := Wanted(s, totalReturnLimit);
    if s.count < totalReturnLimit && s.remaining != [] && s.remaining[0].Result? {
      var content, rest := s.remaining[0].content, s.remaining[1..];
      taken := 1;
      if |s.pending| == maxResultLimit {
        assert s.remaining[..1] == [s.remaining[0]];
        assert Contents(s.remaining[..1]) == [content];
      } else {
        var next := Session(rest, s.pending + [content], s.count + 1);
        WantedStep(s, totalReturnLimit, next.pending);
        var more := BuildConserves(next, maxResultLimit, totalReturnLimit);
        taken := 1 + more;
        ConservedStep(s, next, Build(next, maxResultLimit, totalReturnLimit, None), maxResultLimit, n, more);
      }
    } else {
      assert s.remaining[..0] == [];
    }
  }

  /** What a call sends, what it leaves pending, and how many of the `n` results that are wanted it took for that. */
  predicate Conserved(s: Session, b: Built, maxResultLimit: int, n: nat, taken: nat)
    requires n <= |s.remaining|
  {
    match b.response
    case Failed => !AllResults(s.remaining[..n])
    case Batch(results, hasMore, _) =>
      if hasMore then
        && 1 <= taken <= n && AllResults(s.remaining[..taken])
        && b.session.remaining == s.remaining[taken..] && b.session.count == s.count + taken
        && |b.session.pending| == 1 && |results| == maxResultLimit
        && results + b.session.pending == s.pending + Contents(s.remaining[..taken])
      else AllResults(s.remaining[..n]) && results == s.pending + Contents(s.remaining[..n])
  }

  lemma ConservedStep(s: Session, next: Session, b: Built, maxResultLimit: int, n: nat, more: nat)
    requires s.remaining != [] && s.remaining[0].Result? && 1 <= n <= |s.remaining|
    requires next == Session(s.remaining[1..], s.pending + [s.remaining[0].content], s.count + 1)
    requires Conserved(next, b, maxResultLimit, n - 1, more)
    ensures Conserved(s, b, maxResultLimit, n, 1 + more)
  {
    BuildStep(s, next, more, n);
  }

  /** Taking one result and then `more` takes `1 + more`. */
  lemma BuildStep(s: Session, next: Session, more: nat, n: nat)
    requires s.remaining != [] && s.remaining[0].Result? && 1 <= n <= |s.remaining|
    requires next.remaining == s.remaining[1..] && next.pending == s.pending + [s.remaining[0].content]
    ensures more <= |next.remaining| ==> next.remaining[more..] == s.remaining[1 + more..]
    ensures more <= |next.remaining| ==> (AllResults(next.remaining[..more]) <==> AllResults(s.remaining[..1 + more]))
    ensures more <= |next.remaining| && AllResults(next.remaining[..more]) ==>
      next.pending + Contents(next.remaining[..more]) == s.pending + Contents(s.remaining[..1 + more])
    ensures AllResults(next.remaining[..n - 1]) <==> AllResults(s.remaining[..n])
    ensures AllResults(next.remaining[..n - 1]) ==>
      next.pending + Contents(next.remaining[..n - 1]) == s.pending + Contents(s.remaining[..n])
  {
    Shift(s, next, n - 1);
    if more <= |next.remaining| {
      Shift(s, next, more);
    }
  }

  lemma Shift(s: Session, next: Session, k: nat)
    requires s.remaining != [] && s.remaining[0].Result? && k <= |next.remaining|
    requires next.remaining == s.remaining[1..] && next.pending == s.pending + [s.remaining[0].content]
    ensures AllResults(next.remaining[..k]) <==> AllResults(s.remaining[..1 + k])
    ensures AllResults(next.remaining[..k]) ==>
      next.pending + Contents(next.remaining[..k]) == s.pending + Contents(s.remaining[..1 + k])
  {
    var tail, whole := next.remaining[..k], s.remaining[..1 + k];
    assert whole == [s.remaining[0]] + tail;
    assert whole[1..] == tail;
    if AllResults(tail) {
      ContentsStep(whole);
      assert s.pending + [s.remaining[0].content] + Contents(tail) == s.pending + ([s.remaining[0].content] + Contents(tail));
    }
  }

  lemma ContentsAppend(a: seq<Outcome>, b: seq<Outcome>)
    requires AllResults(a) && AllResults(b)
    ensures AllResults(a + b) && Contents(a + b) == Contents(a) + Contents(b)
  {
  }

  lemma {:induction false} GoodAppend(a: seq<Outcome>, b: seq<Outcome>)
    requires AllResults(a)
    ensures Good(a + b) == a + Good(b)
    decreases |a|
  {
    if a == [] {
      assert a + b == b;
    } else {
      assert (a + b)[1..] == a[1..] + b;
      GoodAppend(a[1..], b);
    }
  }

  lemma SplitTwice<T>(xs: seq<T>, taken: nat, n: nat)
    requires taken <= n <= |xs|
    ensures xs == xs[..taken] + xs[taken..] && xs[..n] == xs[..taken] + xs[taken..][..n - taken]
  {
  }

  /** The session after a batch wants what is left of what it wanted. */
  lemma WantedAfter(s: Session, totalReturnLimit: int, taken: nat, s': Session)
    requires taken <= Wanted(s, totalReturnLimit) && s'.remaining == s.remaining[taken..] && s'.count == s.count + taken
    requires AllResults(s.remaining[..taken])
    ensures var n, n' := Wanted(s, totalReturnLimit), Wanted(s', totalReturnLimit);
            && n' == n - taken && s.remaining[..n] == s.remaining[..taken] + s'.remaining[..n']
            && (AllResults(s.remaining[..n]) <==> AllResults(s'.remaining[..n']))
            && (AllResults(s.remaining[..n]) ==> Contents(s.remaining[..n]) == Contents(s.remaining[..taken]) + Contents(s'.remaining[..n']))
            && Contents(Good(s.remaining)) == Contents(s.remaining[..taken]) + Contents(Good(s'.remaining))
  {
    var n, n' := Wanted(s, totalReturnLimit), Wanted(s', totalReturnLimit);
    SplitTwice(s.remaining, taken, n);
    GoodAppend(s.remaining[..taken], s'.remaining);
    ContentsAppend(s.remaining[..taken], Good(s'.remaining));
    if AllResults(s'.remaining[..n']) {
      ContentsAppend(s.remaining[..taken], s'.remaining[..n']);
    } else {
      var i :| 0 <= i < n' && !s'.remaining[..n'][i].Result?;
      assert s.remaining[..n][taken + i] == s'.remaining[..n'][i];
    }
  }

  /**
   A whole session: every response but the last is a full batch that announces more.  If the iterator yields
   results up to the limit, the last response is the only one without more, and the batches together are the
   first results, in order and as many as the limit allows.  Otherwise the session ends in an error, and the
   batches sent are a beginning of the results before it.
   */
  predicate Complete(s: Session, rs: seq<Response>, maxResultLimit: int, n: nat)
    requires rs != [] && n <= |s.remaining|
  {
    && (forall i | 0 <= i < |rs| - 1 :: rs[i].Batch? && rs[i].hasMore && |rs[i].results| == maxResultLimit)
    && if AllResults(s.remaining[..n]) then
         rs[|rs| - 1].Batch? && !rs[|rs| - 1].hasMore && Delivered(rs) == s.pending + Contents(s.remaining[..n])
       else
         rs[|rs| - 1].Failed? && Delivered(rs) <= s.pending + Contents(Good(s.remaining))
  }

  lemma {:induction false} SessionConserves(s: Session, maxResultLimit: int, totalReturnLimit: int)
    ensures Complete(s, Responses(s, maxResultLimit, totalReturnLimit), maxResultLimit, Wanted(s, totalReturnLimit))
    decreases |s.remaining|
  {
    var b := Build(s, maxResultLimit, totalReturnLimit, None);
    var taken := BuildConserves(s, maxResultLimit, totalReturnLimit);
    if b.response.Batch? && b.response.hasMore {
      SessionConserves(b.session, maxResultLimit, totalReturnLimit);
      WantedAfter(s, totalReturnLimit, taken, b.session);
      CompleteStep(s, b, Responses(b.session, maxResultLimit, totalReturnLimit), maxResultLimit, Wanted(s, totalReturnLimit), taken);
    } else {
      CompleteLast(s, b, maxResultLimit, Wanted(s, totalReturnLimit), taken);
    }
  }

  lemma CompleteLast(s: Session, b: Built, maxResultLimit: int, n: nat, taken: nat)
    requires n <= |s.remaining| && Conserved(s, b, maxResultLimit, n, taken) && !(b.response.Batch? && b.response.hasMore)
    ensures Complete(s, [b.response], maxResultLimit, n)
  {
    assert [b.response][1..] == [];
    assert Delivered([b.response]) == if b.response.Batch? then b.response.results else [];
  }

  lemma CompleteStep(s: Session, b: Built, rest: seq<Response>, maxResultLimit: int, n: nat, taken: nat)
    requires n <= |s.remaining| && Conserved(s, b, maxResultLimit, n, taken) && b.response.Batch? && b.response.hasMore
    requires rest != [] && Complete(b.session, rest, maxResultLimit, n - taken)
    requires AllResults(s.remaining[..n]) <==> AllResults(b.session.remaining[..n - taken])
    requires AllResults(s.remaining[..n]) ==>
      Contents(s.remaining[..n]) == Contents(s.remaining[..taken]) + Contents(b.session.remaining[..n - taken])
    requires Contents(Good(s.remaining)) == Contents(s.remaining[..taken]) + Contents(Good(b.session.remaining))
    ensures Complete(s, [b.response] + rest, maxResultLimit, n)
  {
    var rs := [b.response] + rest;
    assert rs[1..] == rest;
    Glue(b.response.results, b.session.pending, s.pending, Contents(s.remaining[..taken]));
  }

  lemma Glue(sent: seq<bytes>, pending: seq<bytes>, before: seq<bytes>, taken: seq<bytes>)
    requires sent + pending == before + taken
    ensures forall more: seq<bytes> :: sent + (pending + more) == before + (taken + more)
  {
    forall more: seq<bytes> ensures sent + (pending + more) == before + (taken + more) {
      assert sent + (pending + more) == sent + pending + more;
      assert before + (taken + more) == before + taken + more;
    }
  }

  /** No batch holds more than the limit of a batch, as long as that is positive. */
  lemma {:induction false} BatchesFit(s: Session, maxResultLimit: int, totalReturnLimit: int)
    requires maxResultLimit >= 1 && |s.pending| <= maxResultLimit
    ensures forall r | r in Responses(s, maxResultLimit, totalReturnLimit) && r.Batch? :: |r.results| <= maxResultLimit
    decreases |s.remaining|
  {
    BuildFits(s, maxResultLimit, totalReturnLimit);
    var b := Build(s, maxResultLimit, totalReturnLimit, None);
    if b.response.Batch? && b.response.hasMore {
      BatchesFit(b.session, maxResultLimit, totalReturnLimit);
    }
  }

  lemma {:induction false} BuildFits(s: Session, maxResultLimit: int, totalReturnLimit: int)
    requires maxResultLimit >= 1 && |s.pending| <= maxResultLimit
    ensures var b := Build(s, maxResultLimit, totalReturnLimit, None);
            b.response.Batch? ==> |b.response.results| <= maxResultLimit && (b.response.hasMore ==> |b.session.pending| == 1)
    decreases |s.remaining|
  {
    if s.count < totalReturnLimit && s.remaining != [] && s.remaining[0].Result? && |s.pending| != maxResultLimit {
      BuildFits(Session(s.remaining[1..], s.pending + [s.remaining[0].content], s.count + 1), maxResultLimit, totalReturnLimit);
    }
  }

  /** A query that has just been opened. */
  function Opened(results: seq<Outcome>): Session {
    Session(results, [], 0)
  }

  /** From its start, a query without iterator errors delivers the first results up to the limit. */
  lemma QueryDelivers(results: seq<Outcome>, maxResultLimit: int, totalReturnLimit: int)
    requires AllResults(results)
    ensures var n := if totalReturnLimit < 0 then 0 else if totalReturnLimit < |results| then totalReturnLimit else |results|;
            Delivered(Responses(Opened(results), maxResultLimit, totalReturnLimit)) == Contents(results)[..n]
  {
    var s := Opened(results);
    SessionConserves(s, maxResultLimit, totalReturnLimit);
    var n := Wanted(s, totalReturnLimit);
    assert Contents(results[..n]) == Contents(results)[..n];
  }

  /** A page holds the first results up to its limit, with their number and the bookmark of what is left. */
  lemma {:induction false} PageDelivers(s: Session, maxResultLimit: int, totalReturnLimit: int, mark: Bookmark)
    requires AllResults(s.remaining[..Wanted(s, totalReturnLimit)])
    ensures var n := Wanted(s, totalReturnLimit);
            Build(s, maxResultLimit, totalReturnLimit, Some(mark)).response
              == Batch(s.pending + Contents(s.remaining[..n]), false, Some(Metadata(mark(s.remaining[n..]), s.count + n)))
    decreases |s.remaining|
  {
    var n := Wanted(s, totalReturnLimit);
    if s.count < totalReturnLimit && s.remaining != [] {
      assert s.remaining[..n][0] == s.remaining[0];
      var next := Session(s.remaining[1..], s.pending + [s.remaining[0].content], s.count + 1);
      WantedStep(s, totalReturnLimit, next.pending);
      Shift(s, next, n - 1);
      PageDelivers(next, maxResultLimit, totalReturnLimit, mark);
      assert next.remaining[n - 1..] == s.remaining[n..];
    } else {
      assert s.remaining[0..] == s.remaining;
      assert Contents(s.remaining[..0]) == [];
    }
  }

  // ---------------------------------------------------------------------------
  // Limits
  // ---------------------------------------------------------------------------

  /** Conversion of an integer to 32 bits. */
  function Int32(x: int): (r: int)
    ensures -0x8000_0000 <= r < 0x8000_0000
    ensures -0x8000_0000 <= x < 0x8000_0000 ==> r == x
  {
    (x + 0x8000_0000) % 0x1_0000_0000 - 0x8000_0000
  }

  /** `calculateTotalReturnLimit`: a page size, given by the metadata of a query, can only lower the limit. */
  function TotalReturnLimit(totalQueryLimit: int, pageSize: Option<int>): (limit: int)
    ensures limit <= Int32(totalQueryLimit)
    ensures limit != Int32(totalQueryLimit) ==> pageSize == Some(limit) && 0 < limit
    ensures pageSize.Some? && 0 < pageSize.value && 0 <= totalQueryLimit < 0x8000_0000 ==> limit <= pageSize.value
  {
    var limit := Int32(totalQueryLimit);
    if pageSize.Some? && 0 < pageSize.value < limit then pageSize.value else limit
  }
}
