/**
 No interleaving of calls to the authorisation cache (discovery/authcache.go) gets stuck: whatever has happened, every
 request can still be answered, with the verdict of the configuration there is.
 */
module AuthCacheProgress {
  import opened AuthCache
  import opened AuthCacheRuns
  import opened Wrappers

  // ---------------------------------------------------------------------------
  // What keeps calls going
  // ---------------------------------------------------------------------------

  /** The cache a call works on, while it does. */
  function CacheOf(pc: Pc): Option<nat> {
    match pc
    case Entering => None
    case Creating => None
    case Holding(id) => Some(id)
    case Checking(id, _) => Some(id)
    case LookingUp(id, _) => Some(id)
    case Changing(id, _) => Some(id)
    case Sizing(id, _) => Some(id)
    case Purging(id, _) => Some(id)
    case Computing(id, _) => Some(id)
    case Storing(id, _, _, _) => Some(id)
    case Committing(id, _, _, _) => Some(id)
    case Returned(_, _, _) => None
    case Failed => None
  }

  predicate Done(pc: Pc) {
    pc.Returned? || pc.Failed?
  }

  /** The lock of a cache is held exactly by a call that is about to store in it. */
  ghost predicate HeldInv<Data>(s: State<Data>, i: nat)
    requires i < |s.caches|
  {
    var h := s.caches[i].holder;
    h.Some? ==> h.value in s.calls && s.calls[h.value].pc.Committing? && s.calls[h.value].pc.id == i
  }

  /** Every cache is listed in the directory or replaced there by a later one. */
  ghost predicate Listed<Data>(s: State<Data>, i: nat)
    requires i < |s.caches|
  {
    s.caches[i].channel in s.directory && i <= s.directory[s.caches[i].channel]
  }

  ghost predicate CallLive<Data>(w: World<Data>, s: State<Data>, t: nat)
    requires t in s.calls
  {
    var call := s.calls[t];
    && (CacheOf(call.pc).Some? ==> CacheOf(call.pc).value < |s.caches|)
    && (call.pc.Committing? ==> s.caches[call.pc.id].holder == Some(t))
    && (!w.enabled ==> call.pc.Entering? || call.pc.Returned?)
    && (CacheOf(call.pc).Some? && !call.pc.Holding? ==> w.key(call.data).Some?)
    && (call.pc.Failed? ==> w.key(call.data).None?)
    && (call.pc.Returned? && w.enabled ==> w.key(call.data).Some?)
  }

  ghost predicate Live<Data>(w: World<Data>, s: State<Data>) {
    && (!w.enabled ==> s.caches == [] && s.directory == map[])
    && (forall i | 0 <= i < |s.caches| :: s.caches[i].at.Keys == s.caches[i].cache.entries.Keys && HeldInv(s, i) && Listed(s, i))
    && (forall channel | channel in s.directory :: s.directory[channel] < |s.caches| && s.caches[s.directory[channel]].channel == channel)
    && (forall t | t in s.calls :: CallLive(w, s, t))
  }

  /** A step of a call that leaves the caches alone. */
  lemma LocalLive<Data>(w: World<Data>, s: State<Data>, t: nat, pc: Pc)
    requires Live(w, s) && t in s.calls && !s.calls[t].pc.Committing? && !pc.Committing? && CallLive(w, At(s, t, pc), t)
    ensures Live(w, At(s, t, pc))
  {
    var s' := At(s, t, pc);
    forall i | 0 <= i < |s'.caches| ensures HeldInv(s', i) && Listed(s', i) {
      assert HeldInv(s, i) && Listed(s, i);
    }
    forall u | u in s'.calls ensures CallLive(w, s', u) {
      assert CallLive(w, s, u);
    }
  }

  /** A step of a call that changes a cache which nobody else holds. */
  lemma CacheLive<Data>(w: World<Data>, s: State<Data>, t: nat, id: nat, shared: Shared, pc: Pc)
    requires Live(w, s) && t in s.calls && id < |s.caches| && w.enabled
    requires shared.channel == s.caches[id].channel && shared.at.Keys == shared.cache.entries.Keys
    requires s.caches[id].holder == if s.calls[t].pc.Committing? then Some(t) else None
    requires s.calls[t].pc.Committing? ==> s.calls[t].pc.id == id
    requires shared.holder == if pc.Committing? then Some(t) else None
    requires pc.Committing? ==> pc.id == id
    requires CallLive(w, At(WithCache(s, id, shared), t, pc), t)
    ensures Live(w, At(WithCache(s, id, shared), t, pc))
  {
    var s' := At(WithCache(s, id, shared), t, pc);
    forall i | 0 <= i < |s'.caches|
      ensures s'.caches[i].at.Keys == s'.caches[i].cache.entries.Keys && HeldInv(s', i) && Listed(s', i)
    {
      assert HeldInv(s, i) && Listed(s, i);
    }
    forall u | u in s'.calls ensures CallLive(w, s', u) {
      assert CallLive(w, s, u);
    }
  }

  lemma CreateLive<Data>(w: World<Data>, s: State<Data>, t: nat, s': State<Data>)
    requires Live(w, s) && t in s.calls && s.calls[t].pc.Creating? && CallStep(w, s, t, s')
    ensures Live(w, s')
  {
    assert CallLive(w, s, t);
    forall i | 0 <= i < |s'.caches|
      ensures s'.caches[i].at.Keys == s'.caches[i].cache.entries.Keys && HeldInv(s', i) && Listed(s', i)
    {
      if i < |s.caches| {
        assert HeldInv(s, i) && Listed(s, i);
      }
    }
    forall u | u in s'.calls ensures CallLive(w, s', u) {
      assert CallLive(w, s, u);
    }
  }

  lemma PurgeLive<Data>(w: World<Data>, s: State<Data>, t: nat, s': State<Data>)
    requires Live(w, s) && t in s.calls && s.calls[t].pc.Purging? && CallStep(w, s, t, s')
    ensures Live(w, s')
  {
    assert CallLive(w, s, t);
    var id, c := s.calls[t].pc.id, s.calls[t].pc.c;
    var purged, at :| EvictedWith(s.caches[id], purged, at, w.toEvict)
                      && s' == At(WithCache(s, id, s.caches[id].(cache := purged, at := at)), t, Computing(id, c));
    CacheLive(w, s, t, id, s.caches[id].(cache := purged, at := at), Computing(id, c));
  }

  lemma StoringLive<Data>(w: World<Data>, s: State<Data>, t: nat, s': State<Data>)
    requires Live(w, s) && t in s.calls && s.calls[t].pc.Storing? && CallStep(w, s, t, s')
    ensures Live(w, s')
  {
    assert CallLive(w, s, t);
    var pc := s.calls[t].pc;
    if pc.c != s.sequence(s.calls[t].channel) {
      LocalLive(w, s, t, s'.calls[t].pc);
    } else {
      assert s.caches[pc.id].at.Keys == s.caches[pc.id].cache.entries.Keys;
      CacheLive(w, s, t, pc.id, s.caches[pc.id].(holder := Some(t)), s'.calls[t].pc);
    }
  }

  lemma CommittingLive<Data>(w: World<Data>, s: State<Data>, t: nat, s': State<Data>)
    requires Live(w, s) && t in s.calls && s.calls[t].pc.Committing? && CallStep(w, s, t, s')
    ensures Live(w, s')
  {
    assert CallLive(w, s, t);
    var id := s.calls[t].pc.id;
    assert s.caches[id].at.Keys == s.caches[id].cache.entries.Keys;
    CacheLive(w, s, t, id, s'.caches[id], s'.calls[t].pc);
  }

  lemma ChangingLive<Data>(w: World<Data>, s: State<Data>, t: nat, s': State<Data>)
    requires Live(w, s) && t in s.calls && s.calls[t].pc.Changing? && CallStep(w, s, t, s')
    ensures Live(w, s')
  {
    assert CallLive(w, s, t);
    var id, c := s.calls[t].pc.id, s.calls[t].pc.c;
    CacheLive(w, s, t, id, s.caches[id].(cache := Cache(c, map[]), at := map[]), Sizing(id, c));
  }

  /** The steps that change no cache. */
  predicate Local(pc: Pc) {
    pc.Entering? || pc.Holding? || pc.Checking? || pc.LookingUp? || pc.Sizing? || pc.Computing?
  }

  lemma LocalStepLive<Data>(w: World<Data>, s: State<Data>, t: nat, s': State<Data>)
    requires Live(w, s) && t in s.calls && Local(s.calls[t].pc) && CallStep(w, s, t, s')
    ensures Live(w, s')
  {
    assert CallLive(w, s, t);
    LocalLive(w, s, t, s'.calls[t].pc);
  }

  lemma CallStepLive<Data>(w: World<Data>, s: State<Data>, t: nat, s': State<Data>)
    requires Live(w, s) && t in s.calls && CallStep(w, s, t, s')
    ensures Live(w, s')
  {
    var pc := s.calls[t].pc;
    if Local(pc) {
      LocalStepLive(w, s, t, s');
    } else if pc.Creating? {
      CreateLive(w, s, t, s');
    } else if pc.Changing? {
      ChangingLive(w, s, t, s');
    } else if pc.Purging? {
      PurgeLive(w, s, t, s');
    } else if pc.Storing? {
      StoringLive(w, s, t, s');
    } else if pc.Committing? {
      CommittingLive(w, s, t, s');
    }
  }

  lemma NextLive<Data(!new)>(w: World<Data>, s: State<Data>, s': State<Data>)
    requires Live(w, s) && Next(w, s, s')
    ensures Live(w, s')
  {
    if t :| t in s.calls && CallStep(w, s, t, s') {
      CallStepLive(w, s, t, s');
    } else {
      forall i | 0 <= i < |s'.caches| ensures HeldInv(s', i) && Listed(s', i) {
        assert HeldInv(s, i) && Listed(s, i);
      }
      forall u | u in s'.calls ensures CallLive(w, s', u) {
        assert u in s.calls ==> CallLive(w, s, u);
      }
    }
  }

  lemma {:induction false} RunLive<Data(!new)>(w: World<Data>, states: seq<State<Data>>, k: nat)
    requires AuthCacheRuns.IsRun(w, states) && k < |states|
    ensures Live(w, states[k])
  {
    if k > 0 {
      RunLive(w, states, k - 1);
      assert Follows(w, states, k);
      NextLive(w, states[k - 1], states[k]);
    }
  }

  // ---------------------------------------------------------------------------
  // Directory and switch
  // ---------------------------------------------------------------------------

  /** With the cache switched off, no run has any cache, and no call fails. */
  lemma NoCacheWhenOff<Data(!new)>(w: World<Data>, states: seq<State<Data>>, k: nat)
    requires AuthCacheRuns.IsRun(w, states) && k < |states| && !w.enabled
    ensures states[k].caches == [] && forall t | t in states[k].calls :: states[k].calls[t].pc.Entering? || states[k].calls[t].pc.Returned?
  {
    RunLive(w, states, k);
    forall t | t in states[k].calls ensures states[k].calls[t].pc.Entering? || states[k].calls[t].pc.Returned? {
      assert CallLive(w, states[k], t);
    }
  }

  /** The directory holds the newest cache of each channel that has one. */
  lemma DirectoryHasNewest<Data(!new)>(w: World<Data>, states: seq<State<Data>>, k: nat, channel: string)
    requires AuthCacheRuns.IsRun(w, states) && k < |states|
    ensures var s := states[k];
            && (channel in s.directory <==> exists i | 0 <= i < |s.caches| :: s.caches[i].channel == channel)
            && (channel in s.directory ==>
                  && s.directory[channel] < |s.caches| && s.caches[s.directory[channel]].channel == channel
                  && forall i | s.directory[channel] < i < |s.caches| :: s.caches[i].channel != channel)
  {
    RunLive(w, states, k);
    var s := states[k];
    forall i | 0 <= i < |s.caches| ensures Listed(s, i) {
      assert s.caches[i].at.Keys == s.caches[i].cache.entries.Keys;
    }
  }

  lemma EntersOnce<Data>(w: World<Data>, s: State<Data>, u: nat, s': State<Data>)
    requires u in s.calls && CallStep(w, s, u, s')
    ensures s'.calls.Keys == s.calls.Keys && forall t | t in s.calls && t != u :: s'.calls[t] == s.calls[t]
    ensures s'.calls[u] == s.calls[u].(pc := s'.calls[u].pc)
    ensures s'.calls[u].pc.Creating? ==> s.calls[u].channel !in s.directory
    ensures s.directory.Keys <= s'.directory.Keys
  {
    assert s'.calls.Keys == s.calls.Keys + {u} == s.calls.Keys;
  }

  /** No call that came after `s` creates a cache for a channel that had one in `s`. */
  ghost predicate Shares<Data>(s: State<Data>, s': State<Data>) {
    && s.directory.Keys <= s'.directory.Keys
    && forall t | t in s'.calls && t !in s.calls && s'.calls[t].channel in s.directory :: !s'.calls[t].pc.Creating?
  }

  lemma SharesKept<Data(!new)>(w: World<Data>, s: State<Data>, m: State<Data>, m': State<Data>)
    requires Shares(s, m) && Next(w, m, m')
    ensures Shares(s, m')
  {
    if u :| u in m.calls && CallStep(w, m, u, m') {
      EntersOnce(w, m, u, m');
    }
  }

  /** A call that came after its channel had a cache does not create another. */
  lemma {:induction false} LaterCallsShare<Data(!new)>(w: World<Data>, states: seq<State<Data>>, i: nat, j: nat)
    requires AuthCacheRuns.IsRun(w, states) && i <= j < |states|
    ensures Shares(states[i], states[j])
    decreases j - i
  {
    if i < j {
      LaterCallsShare(w, states, i, j - 1);
      assert Follows(w, states, j);
      SharesKept(w, states[i], states[j - 1], states[j]);
    }
  }

  // ---------------------------------------------------------------------------
  // Progress
  // ---------------------------------------------------------------------------

  /** How many steps a call has before it at most. */
  function StepsLeft(pc: Pc): nat {
    match pc
    case Entering => 10
    case Creating => 9
    case Holding(_) => 8
    case Checking(_, _) => 7
    case LookingUp(_, _) => 6
    case Changing(_, _) => 6
    case Sizing(_, _) => 5
    case Purging(_, _) => 4
    case Computing(_, _) => 3
    case Storing(_, _, _, _) => 2
    case Committing(_, _, _, _) => 1
    case Returned(_, _, _) => 0
    case Failed => 0
  }

  /** A step brings its call nearer to its end, and moves no sequence. */
  lemma StepCounts<Data>(w: World<Data>, s: State<Data>, t: nat, s': State<Data>)
    requires t in s.calls && CallStep(w, s, t, s')
    ensures t in s'.calls && s'.sequence == s.sequence && StepsLeft(s'.calls[t].pc) < StepsLeft(s.calls[t].pc)
  {
  }

  /** The call needs a lock that another call holds. */
  predicate Waits<Data>(s: State<Data>, t: nat)
    requires t in s.calls
  {
    var pc := s.calls[t].pc;
    !pc.Holding? && !pc.Computing? && !pc.Committing?
    && CacheOf(pc).Some? && CacheOf(pc).value < |s.caches| && s.caches[CacheOf(pc).value].holder.Some?
  }

  /** A purge has what to leave. */
  lemma {:induction false} SomeLeft(keys: set<string>, n: nat) returns (left: set<string>)
    requires n <= |keys|
    ensures left <= keys && |left| == n
  {
    if n == |keys| {
      left := keys;
    } else {
      var k :| k in keys;
      left := SomeLeft(keys - {k}, n);
    }
  }

  lemma CanPurge(shared: Shared, toEvict: int) returns (purged: Cache, at: map<string, nat>)
    requires shared.at.Keys == shared.cache.entries.Keys
    ensures EvictedWith(shared, purged, at, toEvict)
  {
    var left := SomeLeft(shared.cache.entries.Keys, Left(|shared.cache.entries|, toEvict));
    purged := Cache(shared.cache.lastSequence, map k | k in left :: shared.cache.entries[k]);
    at := map k | k in left :: shared.at[k];
    assert purged.entries.Keys == left;
  }

  /** A call that is not done and does not wait can take its next step. */
  lemma CanStep<Data>(w: World<Data>, s: State<Data>, t: nat) returns (s': State<Data>)
    requires Live(w, s) && t in s.calls && !Done(s.calls[t].pc) && !Waits(s, t)
    ensures CallStep(w, s, t, s')
  {
    assert CallLive(w, s, t);
    var call := s.calls[t];
    match call.pc
    case Entering =>
      if !w.enabled {
        var now := s.sequence(call.channel);
        s' := At(s, t, Returned(w.eligible(call.channel, now, call.data), now, now));
      } else {
        s' := At(s, t, if call.channel in s.directory then Holding(s.directory[call.channel]) else Creating);
      }
    case Creating =>
      s' := At(s.(caches := s.caches + [Shared(call.channel, Cache(0, map[]), map[], None)],
                  directory := s.directory[call.channel := |s.caches|]), t, Holding(|s.caches|));
    case Holding(id) =>
      s' := At(s, t, if w.key(call.data).None? then Failed else Checking(id, s.sequence(call.channel)));
    case Checking(id, c) =>
      s' := At(s, t, if c == s.caches[id].cache.lastSequence then LookingUp(id, c) else Changing(id, c));
    case LookingUp(id, c) =>
      var shared, key := s.caches[id], KeyOf(w, call);
      s' := At(s, t, if key in shared.cache.entries && key in shared.at then Returned(shared.cache.entries[key], c, shared.at[key])
                     else Sizing(id, c));
    case Changing(id, c) =>
      s' := At(WithCache(s, id, s.caches[id].(cache := Cache(c, map[]), at := map[])), t, Sizing(id, c));
    case Sizing(id, c) =>
      s' := At(s, t, if PurgeNeeded(s.caches[id].cache, w.maxCacheSize) then Purging(id, c) else Computing(id, c));
    case Purging(id, c) =>
      assert s.caches[id].at.Keys == s.caches[id].cache.entries.Keys;
      var purged, at := CanPurge(s.caches[id], w.toEvict);
      s' := At(WithCache(s, id, s.caches[id].(cache := purged, at := at)), t, Computing(id, c));
    case Computing(id, c) =>
      var now := s.sequence(call.channel);
      s' := At(s, t, Storing(id, c, w.eligible(call.channel, now, call.data), now));
    case Storing(id, c, verdict, computedAt) =>
      s' := if c != s.sequence(call.channel) then At(s, t, Returned(verdict, c, computedAt))
            else At(WithCache(s, id, s.caches[id].(holder := Some(t))), t, Committing(id, c, verdict, computedAt));
    case Committing(id, c, verdict, computedAt) =>
      var shared, key := s.caches[id], KeyOf(w, call);
      s' := At(WithCache(s, id, shared.(cache := Stored(shared.cache, key, verdict), at := shared.at[key := computedAt], holder := None)),
               t, Returned(verdict, c, computedAt));
  }

  /** A call that waits can step as soon as the holder of the lock has stored, which the holder can do at once. */
  lemma WaitEnds<Data>(w: World<Data>, s: State<Data>, t: nat) returns (u: nat, s': State<Data>)
    requires Live(w, s) && t in s.calls && Waits(s, t)
    ensures u in s.calls && u != t && CallStep(w, s, u, s') && t in s'.calls && !Waits(s', t)
  {
    var id := CacheOf(s.calls[t].pc).value;
    assert HeldInv(s, id);
    u := s.caches[id].holder.value;
    assert CallLive(w, s, u);
    s' := CanStep(w, s, u);
    EntersOnce(w, s, u, s');
  }

  /** Each state follows from the one before by the step of a call. */
  ghost predicate Onward<Data(!new)>(w: World<Data>, s: State<Data>, more: seq<State<Data>>)
    decreases |more|
  {
    more != [] ==> (exists t :: t in s.calls && CallStep(w, s, t, more[0])) && Onward(w, more[0], more[1..])
  }

  function Last<T>(s: T, more: seq<T>): T {
    if more == [] then s else more[|more| - 1]
  }

  /** From a sound state, calls alone can take any one of them to its end, with the sequences as they are. */
  lemma {:induction false} CanFinish<Data(!new)>(w: World<Data>, s: State<Data>, t: nat) returns (more: seq<State<Data>>)
    requires Live(w, s) && t in s.calls
    ensures Onward(w, s, more)
    ensures var s' := Last(s, more);
            s'.sequence == s.sequence && t in s'.calls && Done(s'.calls[t].pc) && s'.calls[t] == s.calls[t].(pc := s'.calls[t].pc)
    decreases StepsLeft(s.calls[t].pc), Waits(s, t)
  {
    if Done(s.calls[t].pc) {
      more := [];
    } else {
      var u, s' := t, s;
      if Waits(s, t) {
        u, s' := WaitEnds(w, s, t);
      } else {
        s' := CanStep(w, s, t);
      }
      CallStepLive(w, s, u, s');
      EntersOnce(w, s, u, s');
      StepCounts(w, s, u, s');
      more := CanFinish(w, s', t);
      assert ([s'] + more)[1..] == more && Last(s, [s'] + more) == Last(s', more);
      more := [s'] + more;
    }
  }

  lemma RunExtended<Data(!new)>(w: World<Data>, states: seq<State<Data>>, s: State<Data>)
    requires AuthCacheRuns.IsRun(w, states) && Next(w, states[|states| - 1], s)
    ensures AuthCacheRuns.IsRun(w, states + [s])
  {
    var longer := states + [s];
    forall i | 0 < i < |longer| ensures Follows(w, longer, i) {
      if i < |states| {
        assert Follows(w, states, i) && longer[i] == states[i] && longer[i - 1] == states[i - 1];
      }
    }
  }

  /** What calls can do from the end of a run continues the run. */
  lemma {:induction false} RunContinued<Data(!new)>(w: World<Data>, states: seq<State<Data>>, more: seq<State<Data>>)
    requires AuthCacheRuns.IsRun(w, states) && Onward(w, states[|states| - 1], more)
    ensures AuthCacheRuns.IsRun(w, states + more) && Final(states + more) == Last(Final(states), more)
    decreases |more|
  {
    if more == [] {
      assert states + more == states;
    } else {
      assert Next(w, Final(states), more[0]);
      RunExtended(w, states, more[0]);
      RunContinued(w, states + [more[0]], more[1..]);
      assert states + [more[0]] + more[1..] == states + more;
    }
  }

  function Final<T>(states: seq<T>): T
    requires states != []
  {
    states[|states| - 1]
  }

  /** In every run, every call can still be taken to its end, without any change of the sequences. */
  lemma EveryCallCanFinish<Data(!new)>(w: World<Data>, states: seq<State<Data>>, t: nat) returns (more: seq<State<Data>>)
    requires AuthCacheRuns.IsRun(w, states) && t in Final(states).calls
    ensures AuthCacheRuns.IsRun(w, states + more)
    ensures Ended(Final(states), t, Final(states + more))
  {
    RunLive(w, states, |states| - 1);
    more := CanFinish(w, Final(states), t);
    RunContinued(w, states, more);
  }

  /** The call has ended, with its request and the sequences as they were. */
  ghost predicate Ended<Data>(s: State<Data>, t: nat, s': State<Data>) {
    && t in s.calls && t in s'.calls && Done(s'.calls[t].pc)
    && s'.sequence == s.sequence && s'.calls[t] == s.calls[t].(pc := s'.calls[t].pc)
  }

  /** The configuration moves to `now`, and then the call `t` arrives. */
  function Asked<Data>(s: State<Data>, now: string -> nat, channel: string, data: Data, t: nat): State<Data> {
    s.(sequence := now, calls := s.calls[t := Call(channel, data, now(channel), Entering)])
  }

  lemma RequestArrives<Data(!new)>(w: World<Data>, states: seq<State<Data>>, now: string -> nat, channel: string, data: Data, t: nat)
    returns (more: seq<State<Data>>)
    requires AuthCacheRuns.IsRun(w, states) && data in w.requests && t !in Final(states).calls
    requires forall c :: Final(states).sequence(c) <= now(c)
    ensures AuthCacheRuns.IsRun(w, states + more) && Final(states + more) == Asked(Final(states), now, channel, data, t)
  {
    var s := Final(states);
    var s1, s2 := s.(sequence := now), Asked(s, now, channel, data, t);
    assert Reconfiguration(s, s1);
    RunExtended(w, states, s1);
    assert Arrival(w, s1, t, channel, data, s2);
    RunExtended(w, states + [s1], s2);
    more := [s1, s2];
    assert states + [s1] + [s2] == states + more;
  }

  /** The call ended in an error exactly if the cache is on and its request has no key, and otherwise with the verdict of `now`. */
  ghost predicate Answered<Data>(w: World<Data>, s: State<Data>, now: string -> nat, channel: string, data: Data, t: nat) {
    && s.sequence == now && t in s.calls && s.calls[t].channel == channel && s.calls[t].data == data && Done(s.calls[t].pc)
    && (s.calls[t].pc.Failed? <==> w.enabled && w.key(data).None?)
    && (s.calls[t].pc.Returned? ==> s.calls[t].pc.verdict == w.eligible(channel, now(channel), data))
  }

  lemma {:induction false} EndedIsAnswered<Data>(w: World<Data>, s: State<Data>, now: string -> nat, channel: string, data: Data, t: nat, s': State<Data>)
    requires Ended(Asked(s, now, channel, data, t), t, s')
    requires CallLive(w, s', t) && CallInv(w, s', t, s'.calls[t])
    ensures Answered(w, s', now, channel, data, t)
  {
    assert s'.calls[t].began == now(channel);
  }

  lemma SoundAt<Data(!new)>(w: World<Data>, states: seq<State<Data>>, t: nat)
    requires AuthCacheRuns.IsRun(w, states) && Collisionless(w) && t in Final(states).calls
    ensures CallLive(w, Final(states), t) && CallInv(w, Final(states), t, Final(states).calls[t])
  {
    RunLive(w, states, |states| - 1);
    RunKeeps(w, states, |states| - 1);
  }

  /**
   After every run, at every configuration that may follow, every request can be answered: by an error exactly if the
   cache is on and the request has no key, and otherwise by the verdict of that configuration.
   */
  lemma EveryRequestCanBeAnswered<Data(!new)>(w: World<Data>, states: seq<State<Data>>, now: string -> nat, channel: string, data: Data, t: nat)
    returns (more: seq<State<Data>>)
    requires AuthCacheRuns.IsRun(w, states) && Collisionless(w) && data in w.requests && t !in Final(states).calls
    requires forall c :: Final(states).sequence(c) <= now(c)
    ensures AuthCacheRuns.IsRun(w, states + more) && Answered(w, Final(states + more), now, channel, data, t)
  {
    var arrival := RequestArrives(w, states, now, channel, data, t);
    var rest := EveryCallCanFinish(w, states + arrival, t);
    SoundAt(w, states + arrival + rest, t);
    EndedIsAnswered(w, Final(states), now, channel, data, t, Final(states + arrival + rest));
    more := arrival + rest;
    assert states + arrival + rest == states + more;
  }
}
