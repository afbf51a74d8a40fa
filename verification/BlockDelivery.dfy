/**
 Delivery of blocks to a client (common/deliver/deliver.go) under session access control (common/deliver/acl.go).
 What the surroundings answer in each round of the loop is a `Round`; a delivery is a function of the rounds.
 */
module BlockDelivery {
  import opened Bytes
  import opened Words
  import opened Wrappers

  // ---------------------------------------------------------------------------
  // Session access control
  // ---------------------------------------------------------------------------

  datatype Access = Access(lastConfigSequence: uint64, usedAtLeastOnce: bool)

  const FRESH := Access(0, false)

  /** What an evaluation finds: whether the identity expired, the configuration sequence, and the policy's answer. */
  datatype Observation = Observation(expired: bool, sequence: uint64, allowed: bool)

  datatype Evaluated = Evaluated(access: Access, ok: bool, checked: bool)

  /** `Evaluate`; `checked` records whether the policy was consulted. */
  function Evaluation(a: Access, o: Observation): Evaluated {
    if o.expired then Evaluated(a, false, false)
    else
      var moved := o.sequence > a.lastConfigSequence;
      var a' := a.(lastConfigSequence := if moved then o.sequence else a.lastConfigSequence);
      if a.usedAtLeastOnce && !moved then Evaluated(a', true, false)
      else Evaluated(a'.(usedAtLeastOnce := true), o.allowed, true)
  }

  /**
   An evaluation succeeds exactly when the identity has not expired and, on first use or at a newer sequence, the policy
   allows; it remembers the newest sequence and that it was used, unless the identity has expired.
   */
  lemma EvaluationIff(a: Access, o: Observation)
    ensures var e := Evaluation(a, o);
            && (e.checked <==> !o.expired && (!a.usedAtLeastOnce || o.sequence > a.lastConfigSequence))
            && (e.ok <==> !o.expired && (e.checked ==> o.allowed))
            && (e.access.usedAtLeastOnce <==> a.usedAtLeastOnce || !o.expired)
            && a.lastConfigSequence <= e.access.lastConfigSequence
            && (e.access.lastConfigSequence == a.lastConfigSequence || (!o.expired && e.access.lastConfigSequence == o.sequence))
            && (!o.expired ==> o.sequence <= e.access.lastConfigSequence)
  {
  }

  class SessionAccessControl {
    var lastConfigSequence: uint64
    var usedAtLeastOnce: bool

    constructor ()
      ensures View() == FRESH
    {
      lastConfigSequence, usedAtLeastOnce := 0, false;
    }

    function View(): Access
      reads this
    {
      Access(lastConfigSequence, usedAtLeastOnce)
    }

    method Evaluate(o: Observation) returns (ok: bool)
      modifies this
      ensures View() == Evaluation(old(View()), o).access && ok == Evaluation(old(View()), o).ok
    {
      if o.expired {
        return false;
      }
      var policyCheckNeeded := !usedAtLeastOnce;
      if o.sequence > lastConfigSequence {
        lastConfigSequence := o.sequence;
        policyCheckNeeded := true;
      }
      if !policyCheckNeeded {
        return true;
      }
      usedAtLeastOnce := true;
      ok := o.allowed;
    }
  }

  /** The access state after a series of evaluations. */
  function AccessAfter(os: seq<Observation>): Access {
    if os == [] then FRESH else Evaluation(AccessAfter(os[..|os| - 1]), os[|os| - 1]).access
  }

  /** Every evaluation of the series was successful. */
  predicate AllOk(os: seq<Observation>) {
    os == [] || (AllOk(os[..|os| - 1]) && Evaluation(AccessAfter(os[..|os| - 1]), os[|os| - 1]).ok)
  }

  /** The policy was consulted at this point of the series, at a sequence that nothing in the series exceeds, and allowed. */
  ghost predicate PassedAtNewest(os: seq<Observation>, j: nat) {
    && j < |os|
    && Evaluation(AccessAfter(os[..j]), os[j]).checked && os[j].allowed && !os[j].expired
    && forall i | 0 <= i < |os| :: os[i].sequence <= os[j].sequence
  }

  /** A series of successful evaluations consulted the policy at the newest sequence it saw, and it allowed. */
  lemma {:induction false} SuccessWasChecked(os: seq<Observation>) returns (j: nat)
    requires os != [] && AllOk(os)
    ensures PassedAtNewest(os, j)
    ensures AccessAfter(os) == Access(os[j].sequence, true)
    decreases |os|
  {
    var init, last := os[..|os| - 1], os[|os| - 1];
    if Evaluation(AccessAfter(init), last).checked {
      j := |os| - 1;
      if init != [] {
        var k := SuccessWasChecked(init);
        assert forall i | 0 <= i < |init| :: os[i] == init[i];
      }
    } else {
      assert init != [];
      j := SuccessWasChecked(init);
      assert os[..j] == init[..j];
      assert forall i | 0 <= i < |init| :: os[i] == init[i];
    }
  }

  /** It is the first of the series, or newer than all before. */
  ghost predicate NewerThanAll(os: seq<Observation>, i: nat)
    requires i < |os|
  {
    forall j | 0 <= j < i :: os[j].sequence < os[i].sequence
  }

  /** The access state remembers the newest sequence of the series. */
  ghost predicate Remembers(a: Access, os: seq<Observation>) {
    if os == [] then a == FRESH
    else
      && a.usedAtLeastOnce && (forall i | 0 <= i < |os| :: os[i].sequence <= a.lastConfigSequence)
      && exists i | 0 <= i < |os| :: os[i].sequence == a.lastConfigSequence
  }

  lemma CheckedWhenNewest(os: seq<Observation>, a: Access)
    requires os != [] && Remembers(a, os[..|os| - 1])
    ensures var k := |os| - 1;
            && (!os[k].expired ==> (Evaluation(a, os[k]).checked <==> NewerThanAll(os, k)) && Remembers(Evaluation(a, os[k]).access, os))
  {
    var k := |os| - 1;
    EvaluationIff(a, os[k]);
    assert forall i | 0 <= i < k :: os[i] == os[..k][i];
    if k > 0 && !os[k].expired {
      var i :| 0 <= i < k && os[..k][i].sequence == a.lastConfigSequence;
      assert os[i].sequence == a.lastConfigSequence;
    }
  }

  ghost predicate Admitted(os: seq<Observation>, i: nat)
    requires i < |os|
  {
    !os[i].expired && (NewerThanAll(os, i) ==> os[i].allowed)
  }

  ghost predicate AllAdmitted(os: seq<Observation>) {
    forall i | 0 <= i < |os| :: Admitted(os, i)
  }

  lemma AdmittedBefore(os: seq<Observation>, k: nat, i: nat)
    requires i < k <= |os|
    ensures Admitted(os, i) <==> Admitted(os[..k], i)
  {
    assert forall j | 0 <= j <= i :: os[j] == os[..k][j];
  }

  /** A series is successful exactly when the identity never expires and the policy allows at the first and at every newer sequence. */
  lemma {:induction false} AllOkIff(os: seq<Observation>)
    ensures AllOk(os) <==> AllAdmitted(os)
    ensures AllOk(os) ==> Remembers(AccessAfter(os), os)
    decreases |os|
  {
    if os != [] {
      var k := |os| - 1;
      AllOkIff(os[..k]);
      forall i | 0 <= i < k ensures Admitted(os, i) <==> Admitted(os[..k], i) {
        AdmittedBefore(os, k, i);
      }
      EvaluationIff(AccessAfter(os[..k]), os[k]);
      assert AllOk(os[..k]) <==> forall i | 0 <= i < k :: Admitted(os, i);
      if AllOk(os[..k]) {
        CheckedWhenNewest(os, AccessAfter(os[..k]));
        assert Evaluation(AccessAfter(os[..k]), os[k]).ok <==> Admitted(os, k);
      }
    }
  }

  /** `Evaluate` alone forgets a refusal: at the same sequence it succeeds right after one, whatever the policy says. */
  lemma RefusalForgotten(a: Access, refused: Observation, again: Observation)
    requires Evaluation(a, refused).checked && !Evaluation(a, refused).ok
    ensures Evaluation(Evaluation(a, refused).access, again).ok
       <==> !again.expired && (again.sequence <= Evaluation(a, refused).access.lastConfigSequence || again.allowed)
  {
  }

  // ---------------------------------------------------------------------------
  // Requests
  // ---------------------------------------------------------------------------

  /** `Unset` is a position whose type is not given. */
  datatype Position = Oldest | Newest | Specified(number: uint64) | NextCommit | Unset

  datatype SeekInfo = SeekInfo(
    start: Option<Position>,
    stop: Option<Position>,
    failIfNotReady: bool,
    bestEffort: bool,
    headerWithSig: bool)

  datatype Status = SUCCESS | BAD_REQUEST | NOT_FOUND | SERVICE_UNAVAILABLE | FORBIDDEN | INTERNAL_SERVER_ERROR | Other(code: int)

  /** What the server finds before the loop: `number` is the first block of the cursor, `height` the ledger's height. */
  datatype Opening = Opening(
    parsed: bool,
    chainFound: bool,
    seekInfo: Option<SeekInfo>,
    errored: bool,
    hasSignedData: bool,
    first: Observation,
    number: uint64,
    height: uint64)

  datatype Session = Session(seek: SeekInfo, stopNum: uint64, number: uint64, access: Access)

  datatype Opened = Rejected(status: Status) | Started(session: Session)

  /** Where the delivery stops; a stop position without a number of its own leaves it at zero. */
  function StopNum(seek: SeekInfo, number: uint64, height: uint64): (stop: Option<uint64>)
    requires seek.stop.Some?
  {
    match seek.stop.value
    case Oldest => Some(number)
    case Newest => Some(if seek.start == seek.stop then number else Decrement(height))
    case Specified(n) => if n < number then None else Some(n)
    case NextCommit => Some(0)
    case Unset => Some(0)
  }

  /** `deliverBlocks` up to its loop. */
  function Open(o: Opening): Opened {
    if !o.parsed then Rejected(BAD_REQUEST)
    else if !o.chainFound then Rejected(NOT_FOUND)
    else if o.seekInfo.None? then Rejected(BAD_REQUEST)
    else if o.errored && !o.seekInfo.value.bestEffort then Rejected(SERVICE_UNAVAILABLE)
    else if !o.hasSignedData then Rejected(BAD_REQUEST)
    else if !Evaluation(FRESH, o.first).ok then Rejected(FORBIDDEN)
    else if o.seekInfo.value.start.None? || o.seekInfo.value.stop.None? then Rejected(BAD_REQUEST)
    else
      var stop := StopNum(o.seekInfo.value, o.number, o.height);
      if stop.None? then Rejected(BAD_REQUEST)
      else Started(Session(o.seekInfo.value, stop.value, o.number, Evaluation(FRESH, o.first).access))
  }

  /** The number a request stops at, by the position it names. */
  ghost predicate StopsAt(o: Opening, stop: uint64)
    requires o.seekInfo.Some? && o.seekInfo.value.stop.Some?
  {
    match o.seekInfo.value.stop.value
    case Oldest => stop == o.number
    case Newest => if o.seekInfo.value.start == Some(Newest) then stop == o.number else stop == Decrement(o.height)
    case Specified(n) => stop == n && o.number <= n
    case NextCommit => stop == 0
    case Unset => stop == 0
  }

  /** A delivery is started exactly for a complete request of an authorised client whose range is not reversed. */
  lemma StartedIff(o: Opening)
    ensures Open(o).Started? <==>
      && o.parsed && o.chainFound && o.seekInfo.Some? && (o.errored ==> o.seekInfo.value.bestEffort) && o.hasSignedData
      && !o.first.expired && o.first.allowed && o.seekInfo.value.start.Some? && o.seekInfo.value.stop.Some?
      && (o.seekInfo.value.stop.value.Specified? ==> o.number <= o.seekInfo.value.stop.value.number)
    ensures Open(o).Started? ==>
      var s := Open(o).session;
      s.seek == o.seekInfo.value && StopsAt(o, s.stopNum) && s.number == o.number && s.access == Access(o.first.sequence, true)
  {
    EvaluationIff(FRESH, o.first);
  }

  /** Why a delivery is rejected. */
  lemma RejectedWith(o: Opening)
    ensures !o.parsed ==> Open(o) == Rejected(BAD_REQUEST)
    ensures o.parsed && !o.chainFound ==> Open(o) == Rejected(NOT_FOUND)
    ensures o.parsed && o.chainFound && o.seekInfo.None? ==> Open(o) == Rejected(BAD_REQUEST)
    ensures o.parsed && o.chainFound && o.seekInfo.Some? ==>
      var seek := o.seekInfo.value;
      if o.errored && !seek.bestEffort then Open(o) == Rejected(SERVICE_UNAVAILABLE)
      else if o.hasSignedData && (o.first.expired || !o.first.allowed) then Open(o) == Rejected(FORBIDDEN)
      else Open(o).Started? || Open(o) == Rejected(BAD_REQUEST)
  {
  }

  // ---------------------------------------------------------------------------
  // The loop
  // ---------------------------------------------------------------------------

  datatype Block = Block(number: uint64, isConfig: bool, data: Option<bytes>)

  /** One round: which event the server waited for came first, what the cursor gave, the evaluation, the send. */
  datatype Round = Round(
    height: uint64,
    canceled: bool,
    errored: bool,
    status: Status,
    block: Block,
    observation: Observation,
    sendOk: bool)

  /** Data blocks lose their data when only headers with signatures are asked for. */
  function ToSend(seek: SeekInfo, b: Block): Block {
    if seek.headerWithSig && !b.isConfig then b.(data := None) else b
  }

  datatype Step = Ended(status: Status) | Sent(block: Block, session: Session, last: bool)

  /** One round of the loop. */
  function Take(s: Session, r: Round): Step {
    if s.seek.failIfNotReady && s.number > Decrement(r.height) then Ended(NOT_FOUND)
    else if r.canceled then Ended(INTERNAL_SERVER_ERROR)
    else if r.errored && !s.seek.bestEffort then Ended(SERVICE_UNAVAILABLE)
    else if r.status != SUCCESS then Ended(r.status)
    else
      var e := Evaluation(s.access, r.observation);
      if !e.ok then Ended(FORBIDDEN)
      else if !r.sendOk then Ended(INTERNAL_SERVER_ERROR)
      else Sent(ToSend(s.seek, r.block), s.(number := Increment(s.number), access := e.access), s.stopNum == r.block.number)
  }

  /** The block is, or need not be, in the ledger, the wait for it is over without a cancel or an error, and cursor and client work. */
  predicate Clear(seek: SeekInfo, number: uint64, r: Round) {
    && (seek.failIfNotReady ==> r.height == 0 || number < r.height)
    && !r.canceled && (r.errored ==> seek.bestEffort) && r.status == SUCCESS && r.sendOk
  }

  /** A block is sent exactly when the round is clear and the client still authorised. */
  lemma SentIff(s: Session, r: Round)
    ensures Take(s, r).Sent? <==> Clear(s.seek, s.number, r) && Evaluation(s.access, r.observation).ok
    ensures Take(s, r).Sent? ==>
      && SentAsAsked(s.seek, r.block, Take(s, r).block) && (Take(s, r).last <==> r.block.number == s.stopNum)
      && Take(s, r).session == Session(s.seek, s.stopNum, Increment(s.number), Evaluation(s.access, r.observation).access)
  {
  }

  /** The status with which any other round ends the delivery. */
  lemma EndedWith(s: Session, r: Round)
    ensures var ready := s.seek.failIfNotReady ==> r.height == 0 || s.number < r.height;
            var errored := r.errored && !s.seek.bestEffort;
            && (!ready ==> Take(s, r) == Ended(NOT_FOUND))
            && (ready && r.canceled ==> Take(s, r) == Ended(INTERNAL_SERVER_ERROR))
            && (ready && !r.canceled && errored ==> Take(s, r) == Ended(SERVICE_UNAVAILABLE))
            && (ready && !r.canceled && !errored && r.status != SUCCESS ==> Take(s, r) == Ended(r.status))
            && (ready && !r.canceled && !errored && r.status == SUCCESS ==>
                  && (!Evaluation(s.access, r.observation).ok ==> Take(s, r) == Ended(FORBIDDEN))
                  && (Evaluation(s.access, r.observation).ok && !r.sendOk ==> Take(s, r) == Ended(INTERNAL_SERVER_ERROR)))
  {
  }

  /** The blocks sent and the final status; `None` while the server still waits. */
  datatype Delivery = Delivery(sent: seq<Block>, status: Option<Status>)

  function Deliver(s: Session, rounds: seq<Round>): Delivery
    decreases |rounds|
  {
    if rounds == [] then Delivery([], None)
    else match Take(s, rounds[0])
      case Ended(status) => Delivery([], Some(status))
      case Sent(block, s', last) =>
        if last then Delivery([block], Some(SUCCESS))
        else
          var d := Deliver(s', rounds[1..]);
          Delivery([block] + d.sent, d.status)
  }

  /** `deliverBlocks`. */
  method DeliverBlocks(o: Opening, rounds: seq<Round>) returns (sent: seq<Block>, status: Option<Status>)
    ensures Open(o).Rejected? ==> sent == [] && status == Some(Open(o).status)
    ensures Open(o).Started? ==> Delivery(sent, status) == Deliver(Open(o).session, rounds)
  {
    sent := [];
    if !o.parsed {
      return sent, Some(BAD_REQUEST);
    }
    if !o.chainFound {
      return sent, Some(NOT_FOUND);
    }
    if o.seekInfo.None? {
      return sent, Some(BAD_REQUEST);
    }
    var seek := o.seekInfo.value;
    if o.errored && !seek.bestEffort {
      return sent, Some(SERVICE_UNAVAILABLE);
    }
    if !o.hasSignedData {
      return sent, Some(BAD_REQUEST);
    }
    var accessControl := new SessionAccessControl();
    var ok := accessControl.Evaluate(o.first);
    if !ok {
      return sent, Some(FORBIDDEN);
    }
    if seek.start.None? || seek.stop.None? {
      return sent, Some(BAD_REQUEST);
    }
    var stop := StopNum(seek, o.number, o.height);
    if stop.None? {
      return sent, Some(BAD_REQUEST);
    }
    sent, status := SendLoop(seek, stop.value, o.number, accessControl, rounds);
  }

  method SendLoop(seek: SeekInfo, stopNum: uint64, start: uint64, accessControl: SessionAccessControl, rounds: seq<Round>)
    returns (sent: seq<Block>, status: Option<Status>)
    modifies accessControl
    ensures Delivery(sent, status) == Deliver(Session(seek, stopNum, start, old(accessControl.View())), rounds)
  {
    sent := [];
    var number: uint64 := start;
    ghost var s := Session(seek, stopNum, start, accessControl.View());
    ghost var whole := Deliver(s, rounds);
    for k := 0 to |rounds|
      invariant s == Session(seek, stopNum, number, accessControl.View())
      invariant whole == Delivery(sent + Deliver(s, rounds[k..]).sent, Deliver(s, rounds[k..]).status)
    {
      var r := rounds[k];
      assert rounds[k..][0] == r && rounds[k..][1..] == rounds[k + 1..];
      ghost var step := Take(s, r);
      if seek.failIfNotReady && number > Decrement(r.height) {
        return sent, Some(NOT_FOUND);
      }
      if r.canceled {
        return sent, Some(INTERNAL_SERVER_ERROR);
      }
      if r.errored && !seek.bestEffort {
        return sent, Some(SERVICE_UNAVAILABLE);
      }
      if r.status != SUCCESS {
        return sent, Some(r.status);
      }
      number := Increment(number);
      var ok := accessControl.Evaluate(r.observation);
      if !ok {
        return sent, Some(FORBIDDEN);
      }
      if !r.sendOk {
        return sent, Some(INTERNAL_SERVER_ERROR);
      }
      assert step.Sent? && step.session == Session(seek, stopNum, number, accessControl.View());
      s := step.session;
      sent := sent + [ToSend(seek, r.block)];
      if stopNum == r.block.number {
        return sent, Some(SUCCESS);
      }
    }
    status := None;
  }

  // ---------------------------------------------------------------------------
  // What is sent
  // ---------------------------------------------------------------------------

  /** The blocks sent are those of the first rounds; the delivery succeeds exactly when the last of them, and no other, is the stop block. */
  lemma {:induction false} SentInOrder(s: Session, rounds: seq<Round>)
    ensures var d := Deliver(s, rounds);
            && |d.sent| <= |rounds|
            && (forall i | 0 <= i < |d.sent| :: d.sent[i] == ToSend(s.seek, rounds[i].block))
            && (forall i | 0 <= i < |d.sent| - 1 :: rounds[i].block.number != s.stopNum)
            && (d.status == Some(SUCCESS) <==> d.sent != [] && rounds[|d.sent| - 1].block.number == s.stopNum)
    decreases |rounds|
  {
    if rounds != [] {
      var step := Take(s, rounds[0]);
      if step.Sent? && !step.last {
        SentInOrder(step.session, rounds[1..]);
      }
    }
  }

  /** The cursor gives the blocks one after the other. */
  predicate Consecutive(rounds: seq<Round>, number: uint64) {
    forall i | 0 <= i < |rounds| :: rounds[i].block.number == number + i
  }

  /** On success exactly the blocks from the start to the stop number were sent, once each and in order. */
  lemma RangeOnSuccess(s: Session, rounds: seq<Round>)
    requires Consecutive(rounds, s.number) && Deliver(s, rounds).status == Some(SUCCESS)
    ensures var d := Deliver(s, rounds);
            && |d.sent| == s.stopNum - s.number + 1 <= |rounds|
            && forall i | 0 <= i < |d.sent| :: d.sent[i] == ToSend(s.seek, rounds[i].block) && d.sent[i].number == s.number + i
  {
    SentInOrder(s, rounds);
  }

  /** What a successful request got, by the stop position it named. */
  ghost predicate GotRange(seek: SeekInfo, number: uint64, height: uint64, sent: seq<Block>) {
    && sent != [] && (forall i | 0 <= i < |sent| :: sent[i].number == number + i)
    && match seek.stop
       case Some(Oldest) => |sent| == 1
       case Some(Newest) =>
         if seek.start == Some(Newest) then |sent| == 1 else height > 0 ==> sent[|sent| - 1].number + 1 == height
       case Some(Specified(n)) => sent[|sent| - 1].number == n
       case Some(NextCommit) | Some(Unset) => number == 0 && |sent| == 1
       case None => false
  }

  /** A block as it is in the ledger, or without its data where only headers are asked for and it is no configuration block. */
  ghost predicate SentAsAsked(seek: SeekInfo, block: Block, sent: Block) {
    && sent.number == block.number && sent.isConfig == block.isConfig
    && sent.data == if seek.headerWithSig && !block.isConfig then None else block.data
  }

  /** A request that succeeds got the blocks it asked for. */
  lemma RequestDelivers(o: Opening, rounds: seq<Round>)
    requires Open(o).Started? && Consecutive(rounds, o.number)
    requires Deliver(Open(o).session, rounds).status == Some(SUCCESS)
    ensures var sent := Deliver(Open(o).session, rounds).sent;
            && GotRange(o.seekInfo.value, o.number, o.height, sent)
            && |sent| <= |rounds| && forall i | 0 <= i < |sent| :: SentAsAsked(o.seekInfo.value, rounds[i].block, sent[i])
  {
    RangeOnSuccess(Open(o).session, rounds);
  }

  /** In every run the blocks sent start at the start number, without gaps, and do not go past the stop number. */
  lemma RangeAlways(s: Session, rounds: seq<Round>)
    requires Consecutive(rounds, s.number)
    ensures var d := Deliver(s, rounds);
            && (forall i | 0 <= i < |d.sent| :: d.sent[i].number == s.number + i)
            && (s.number <= s.stopNum ==> |d.sent| <= s.stopNum - s.number + 1)
  {
    SentInOrder(s, rounds);
    var d := Deliver(s, rounds);
    var n := s.stopNum - s.number;
    assert 0 <= n < |rounds| ==> rounds[n].block.number == s.stopNum;
  }

  ghost predicate AllClear(seek: SeekInfo, number: uint64, rounds: seq<Round>, k: nat) {
    k <= |rounds| && number + k <= TWO_64 && forall i | 0 <= i < k :: Clear(seek, number + i, rounds[i])
  }

  /** The first `k` rounds are clear, and the evaluations in them, after those in `os`, successful. */
  ghost predicate GoThrough(seek: SeekInfo, number: uint64, os: seq<Observation>, rounds: seq<Round>, k: nat) {
    AllClear(seek, number, rounds, k) && AllOk(os + Evaluations(rounds, k))
  }

  lemma AllClearStep(seek: SeekInfo, number: uint64, rounds: seq<Round>, k: nat)
    requires rounds != [] && number < MAX_UINT64
    ensures AllClear(seek, number, rounds, k + 1) <==> Clear(seek, number, rounds[0]) && AllClear(seek, number + 1, rounds[1..], k)
  {
    if AllClear(seek, number, rounds, k + 1) {
      forall i | 0 <= i < k ensures Clear(seek, number + 1 + i, rounds[1..][i]) {
        assert rounds[1..][i] == rounds[i + 1] && Clear(seek, number + (i + 1), rounds[i + 1]);
      }
    }
    if Clear(seek, number, rounds[0]) && AllClear(seek, number + 1, rounds[1..], k) {
      forall i | 0 <= i < k + 1 ensures Clear(seek, number + i, rounds[i]) {
        assert i > 0 ==> rounds[i] == rounds[1..][i - 1];
      }
    }
  }

  lemma {:induction false} AllOkStep(os: seq<Observation>, rounds: seq<Round>, k: nat)
    requires k < |rounds| && AllOk(os)
    ensures AllOk(os + Evaluations(rounds, k + 1)) <==>
      && Evaluation(AccessAfter(os), rounds[0].observation).ok
      && AllOk(os + [rounds[0].observation] + Evaluations(rounds[1..], k))
  {
    var o, all := rounds[0].observation, os + Evaluations(rounds, k + 1);
    assert all == os + [o] + Evaluations(rounds[1..], k) by {
      EvaluationsStep(os, rounds, k + 1);
    }
    if AllOk(all) {
      assert all[..|os| + 1] == os + [o];
      AllOkBefore(all, |os| + 1);
      AllOkLast(os, o);
    }
  }

  lemma {:induction false} AllOkLast(os: seq<Observation>, o: Observation)
    ensures AllOk(os + [o]) <==> AllOk(os) && Evaluation(AccessAfter(os), o).ok
  {
    assert (os + [o])[..|os|] == os;
  }

  lemma {:induction false} GoThroughStep(seek: SeekInfo, number: uint64, os: seq<Observation>, rounds: seq<Round>, k: nat)
    requires rounds != [] && number < MAX_UINT64 && AllOk(os)
    ensures GoThrough(seek, number, os, rounds, k + 1) <==>
      && Clear(seek, number, rounds[0]) && Evaluation(AccessAfter(os), rounds[0].observation).ok
      && GoThrough(seek, number + 1, os + [rounds[0].observation], rounds[1..], k)
  {
    AllClearStep(seek, number, rounds, k);
    if k < |rounds| {
      AllOkStep(os, rounds, k);
    }
  }

  lemma {:induction false} AllOkBefore(os: seq<Observation>, k: nat)
    requires AllOk(os) && k <= |os|
    ensures AllOk(os[..k])
    decreases |os|
  {
    if k < |os| {
      AllOkBefore(os[..|os| - 1], k);
      assert os[..|os| - 1][..k] == os[..k];
    } else {
      assert os[..k] == os;
    }
  }

  // ---------------------------------------------------------------------------
  // Authorisation of what is sent
  // ---------------------------------------------------------------------------

  /** The evaluations of the first `k` rounds. */
  function Evaluations(rounds: seq<Round>, k: nat): seq<Observation>
    requires k <= |rounds|
    decreases k
  {
    if k == 0 then [] else [rounds[0].observation] + Evaluations(rounds[1..], k - 1)
  }

  lemma AllOkMore(os: seq<Observation>, o: Observation)
    requires AllOk(os) && Evaluation(AccessAfter(os), o).ok
    ensures AllOk(os + [o]) && AccessAfter(os + [o]) == Evaluation(AccessAfter(os), o).access
  {
    assert (os + [o])[..|os + [o]| - 1] == os;
  }

  lemma FirstSent(s: Session, rounds: seq<Round>)
    requires Deliver(s, rounds).sent != []
    ensures rounds != [] && Take(s, rounds[0]).Sent? && Evaluation(s.access, rounds[0].observation).ok
    ensures Take(s, rounds[0]).session.access == Evaluation(s.access, rounds[0].observation).access
    ensures |Deliver(s, rounds).sent| > 1 ==> |Deliver(s, rounds).sent| == 1 + |Deliver(Take(s, rounds[0]).session, rounds[1..]).sent|
  {
  }

  lemma {:induction false} SentAllOk(s: Session, rounds: seq<Round>, os: seq<Observation>, k: nat)
    requires AllOk(os) && s.access == AccessAfter(os) && k <= |Deliver(s, rounds).sent| && k <= |rounds|
    ensures AllOk(os + Evaluations(rounds, k))
    decreases k
  {
    if k == 0 {
      assert os + Evaluations(rounds, k) == os;
    } else {
      var os' := os + [rounds[0].observation];
      FirstSent(s, rounds);
      AllOkMore(os, rounds[0].observation);
      if k == 1 {
        assert os + Evaluations(rounds, k) == os' by { EvaluationsStep(os, rounds, k); }
      } else {
        SentAllOk(Take(s, rounds[0]).session, rounds[1..], os', k - 1);
        assert os + Evaluations(rounds, k) == os' + Evaluations(rounds[1..], k - 1) by { EvaluationsStep(os, rounds, k); }
      }
    }
  }

  lemma EvaluationsStep(os: seq<Observation>, rounds: seq<Round>, k: nat)
    requires 1 <= k <= |rounds|
    ensures os + Evaluations(rounds, k) == os + [rounds[0].observation] + Evaluations(rounds[1..], k - 1)
    ensures k == 1 ==> os + Evaluations(rounds, k) == os + [rounds[0].observation]
  {
    assert Evaluations(rounds, k) == [rounds[0].observation] + Evaluations(rounds[1..], k - 1);
  }

  lemma {:induction false} AllOkOne(os: seq<Observation>, rounds: seq<Round>)
    requires rounds != [] && AllOk(os)
    ensures AllOk(os + Evaluations(rounds, 1)) <==> Evaluation(AccessAfter(os), rounds[0].observation).ok
  {
    EvaluationsStep(os, rounds, 1);
    AllOkLast(os, rounds[0].observation);
  }

  lemma AllClearOne(seek: SeekInfo, number: uint64, rounds: seq<Round>)
    requires rounds != []
    ensures AllClear(seek, number, rounds, 1) <==> Clear(seek, number, rounds[0])
  {
  }

  lemma {:induction false} AtTheEnd(s: Session, rounds: seq<Round>, os: seq<Observation>)
    requires rounds != [] && AllOk(os) && s.access == AccessAfter(os)
    ensures Take(s, rounds[0]).Sent? <==> GoThrough(s.seek, s.number, os, rounds, 1)
  {
    SentIff(s, rounds[0]);
    AllOkOne(os, rounds);
    AllClearOne(s.seek, s.number, rounds);
  }

  /** Without the first round nothing goes through. */
  lemma FirstGoesThrough(seek: SeekInfo, number: uint64, os: seq<Observation>, rounds: seq<Round>, k: nat)
    requires AllOk(os) && k >= 1 && GoThrough(seek, number, os, rounds, k)
    ensures rounds != [] && GoThrough(seek, number, os, rounds, 1)
  {
    EvaluationsStep(os, rounds, k);
    EvaluationsStep(os, rounds, 1);
    assert (os + Evaluations(rounds, k))[..|os| + 1] == os + [rounds[0].observation];
    AllOkBefore(os + Evaluations(rounds, k), |os| + 1);
  }

  /** A round that sends a block before the stop block leaves the rest to the next one. */
  lemma NextRound(s: Session, rounds: seq<Round>)
    requires rounds != [] && Consecutive(rounds, s.number) && s.number < s.stopNum && Take(s, rounds[0]).Sent?
    ensures Consecutive(rounds[1..], s.number + 1) && Clear(s.seek, s.number, rounds[0]) && Evaluation(s.access, rounds[0].observation).ok
    ensures var next := Session(s.seek, s.stopNum, s.number + 1, Evaluation(s.access, rounds[0].observation).access);
            Deliver(s, rounds).status == Deliver(next, rounds[1..]).status
  {
    SentIff(s, rounds[0]);
    assert rounds[0].block.number == s.number;
    assert forall i | 0 <= i < |rounds| - 1 :: rounds[1..][i] == rounds[i + 1];
  }

  /** The delivery succeeds exactly when a range is asked for, every round of it is clear, and the client stays authorised. */
  lemma {:induction false} SuccessIff(s: Session, rounds: seq<Round>, os: seq<Observation>)
    requires Consecutive(rounds, s.number) && AllOk(os) && s.access == AccessAfter(os)
    ensures Deliver(s, rounds).status == Some(SUCCESS)
       <==> s.number <= s.stopNum && GoThrough(s.seek, s.number, os, rounds, s.stopNum - s.number + 1)
    decreases |rounds|, 1
  {
    if rounds == [] {
    } else if s.stopNum <= s.number || s.number == MAX_UINT64 || !Take(s, rounds[0]).Sent? {
      SuccessAtOnce(s, rounds, os);
    } else {
      SuccessLater(s, rounds, os);
    }
  }

  /** The later rounds decide when the first one sends a block before the stop block. */
  lemma {:induction false} SuccessLater(s: Session, rounds: seq<Round>, os: seq<Observation>)
    requires Consecutive(rounds, s.number) && AllOk(os) && s.access == AccessAfter(os) && rounds != []
    requires s.number < s.stopNum && Take(s, rounds[0]).Sent?
    ensures Deliver(s, rounds).status == Some(SUCCESS) <==> GoThrough(s.seek, s.number, os, rounds, s.stopNum - s.number + 1)
    decreases |rounds|, 0
  {
    var o := rounds[0].observation;
    var next := Session(s.seek, s.stopNum, s.number + 1, Evaluation(s.access, o).access);
    NextRound(s, rounds);
    AllOkMore(os, o);
    SuccessIff(next, rounds[1..], os + [o]);
    GoThroughStep(s.seek, s.number, os, rounds, s.stopNum - s.number);
  }

  /** The first round decides when it is the last, or ends the delivery. */
  lemma SuccessAtOnce(s: Session, rounds: seq<Round>, os: seq<Observation>)
    requires Consecutive(rounds, s.number) && AllOk(os) && s.access == AccessAfter(os) && rounds != []
    requires s.stopNum <= s.number || s.number == MAX_UINT64 || !Take(s, rounds[0]).Sent?
    ensures Deliver(s, rounds).status == Some(SUCCESS)
       <==> s.number <= s.stopNum && GoThrough(s.seek, s.number, os, rounds, s.stopNum - s.number + 1)
  {
    AtTheEnd(s, rounds, os);
    SentInOrder(s, rounds);
    assert rounds[0].block.number == s.number;
    if s.number <= s.stopNum && GoThrough(s.seek, s.number, os, rounds, s.stopNum - s.number + 1) {
      FirstGoesThrough(s.seek, s.number, os, rounds, s.stopNum - s.number + 1);
    }
  }

  /**
   A request succeeds exactly when the range it names is not reversed, every round of the range is clear, and at each
   evaluation the identity has not expired and the policy allows if it is the first or at a newer sequence.
   */
  lemma RequestSucceedsIff(o: Opening, rounds: seq<Round>)
    requires Open(o).Started? && Consecutive(rounds, o.number)
    ensures var stop := Open(o).session.stopNum;
            Deliver(Open(o).session, rounds).status == Some(SUCCESS) <==>
            (&& o.number <= stop && AllClear(o.seekInfo.value, o.number, rounds, stop - o.number + 1)
             && AllAdmitted([o.first] + Evaluations(rounds, stop - o.number + 1)))
  {
    var s := Open(o).session;
    StartedIff(o);
    AllOkMore([], o.first);
    assert [] + [o.first] == [o.first];
    SuccessIff(s, rounds, [o.first]);
    if s.number <= s.stopNum && AllClear(s.seek, s.number, rounds, s.stopNum - s.number + 1) {
      AllOkIff([o.first] + Evaluations(rounds, s.stopNum - s.number + 1));
    }
  }

  /**
   Every block that is sent follows a policy check that passed at the newest configuration sequence the session had
   observed up to and including the evaluation right before the block.
   */
  lemma SentWasAllowed(o: Opening, rounds: seq<Round>, i: nat) returns (j: nat)
    requires Open(o).Started? && i < |Deliver(Open(o).session, rounds).sent|
    ensures i < |rounds| && PassedAtNewest([o.first] + Evaluations(rounds, i + 1), j)
  {
    var s := Open(o).session;
    SentInOrder(s, rounds);
    AllOkMore([], o.first);
    assert [] + [o.first] == [o.first];
    SentAllOk(s, rounds, [o.first], i + 1);
    j := SuccessWasChecked([o.first] + Evaluations(rounds, i + 1));
  }
}
