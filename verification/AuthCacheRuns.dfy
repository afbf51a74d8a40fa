/**
 All interleavings of concurrent calls to the authorisation cache with a configuration sequence that only
 grows.  The caches of a channel are created on demand, and two racing calls may each create one.
 */
module AuthCacheRuns {
  import opened AuthCache
  import opened Wrappers

  /** What surrounds the cache: the eligibility check at each sequence, the key of a request, the configuration. */
  datatype World<!Data> = World(
    eligible: (string, nat, Data) -> Verdict,
    key: Data -> Option<string>,
    requests: set<Data>,
    enabled: bool,
    maxCacheSize: int,
    toEvict: int)

  /** A cache, its channel, for each entry the sequence at which it was computed, and the call that holds its lock across steps. */
  datatype Shared = Shared(channel: string, cache: Cache, at: map<string, nat>, holder: Option<nat>)

  /** Where a call is.  `c` is the sequence it read. */
  datatype Pc =
    | Entering
    | Creating
    | Holding(id: nat)
    | Checking(id: nat, c: nat)
    | LookingUp(id: nat, c: nat)
    | Changing(id: nat, c: nat)
    | Sizing(id: nat, c: nat)
    | Purging(id: nat, c: nat)
    | Computing(id: nat, c: nat)
    | Storing(id: nat, c: nat, verdict: Verdict, s: nat)
    | Committing(id: nat, c: nat, verdict: Verdict, s: nat)
    | Returned(verdict: Verdict, c: nat, s: nat)
    | Failed

  /** A call with the sequence its channel had when it began. */
  datatype Call<Data> = Call(channel: string, data: Data, began: nat, pc: Pc)

  datatype State<!Data> = State(
    sequence: string -> nat,
    directory: map<string, nat>,
    caches: seq<Shared>,
    calls: map<nat, Call<Data>>)

  // ---------------------------------------------------------------------------
  // Steps
  // ---------------------------------------------------------------------------

  ghost predicate Initial<Data>(s: State<Data>) {
    s.directory == map[] && s.caches == [] && s.calls == map[]
  }

  function At<Data>(s: State<Data>, t: nat, pc: Pc): State<Data>
    requires t in s.calls
  {
    s.(calls := s.calls[t := s.calls[t].(pc := pc)])
  }

  function WithCache<Data>(s: State<Data>, id: nat, shared: Shared): State<Data>
    requires id < |s.caches|
  {
    s.(caches := s.caches[id := shared])
  }

  /** The key of a call's request, where it has one. */
  function KeyOf<Data>(w: World<Data>, call: Call<Data>): string {
    var key := w.key(call.data);
    if key.Some? then key.value else ""
  }

  /** The cache exists and its lock is free. */
  predicate Free<Data>(s: State<Data>, id: nat) {
    id < |s.caches| && s.caches[id].holder.None?
  }

  /**
   The next atomic step of a call.  Each section under the lock is one step, except the last: the configuration
   sequence, which the lock does not protect, is read in one step and the verdict stored in another, with the lock
   held in between.
   */
  ghost predicate CallStep<Data>(w: World<Data>, s: State<Data>, t: nat, s': State<Data>)
    requires t in s.calls
  {
    var call := s.calls[t];
    match call.pc
    case Entering =>
      if !w.enabled then
        var now := s.sequence(call.channel);
        s' == At(s, t, Returned(w.eligible(call.channel, now, call.data), now, now))
      else if call.channel in s.directory then s' == At(s, t, Holding(s.directory[call.channel]))
      else s' == At(s, t, Creating)
    case Creating =>
      var created := s.(caches := s.caches + [Shared(call.channel, Cache(0, map[]), map[], None)],
                        directory := s.directory[call.channel := |s.caches|]);
      s' == At(created, t, Holding(|s.caches|))
    case Holding(id) =>
      s' == At(s, t, if w.key(call.data).None? then Failed else Checking(id, s.sequence(call.channel)))
    case Checking(id, c) =>
      Free(s, id) && s' == At(s, t, if c == s.caches[id].cache.lastSequence then LookingUp(id, c) else Changing(id, c))
    case LookingUp(id, c) =>
      && Free(s, id)
      && var shared, key := s.caches[id], KeyOf(w, call);
         s' == At(s, t, if key in shared.cache.entries && key in shared.at then Returned(shared.cache.entries[key], c, shared.at[key])
                        else Sizing(id, c))
    case Changing(id, c) =>
      && Free(s, id)
      && s' == At(WithCache(s, id, s.caches[id].(cache := Cache(c, map[]), at := map[])), t, Sizing(id, c))
    case Sizing(id, c) =>
      Free(s, id) && s' == At(s, t, if PurgeNeeded(s.caches[id].cache, w.maxCacheSize) then Purging(id, c) else Computing(id, c))
    case Purging(id, c) =>
      && Free(s, id)
      && exists purged, at :: EvictedWith(s.caches[id], purged, at, w.toEvict)
                              && s' == At(WithCache(s, id, s.caches[id].(cache := purged, at := at)), t, Computing(id, c))
    case Computing(id, c) =>
      var now := s.sequence(call.channel);
      s' == At(s, t, Storing(id, c, w.eligible(call.channel, now, call.data), now))
    case Storing(id, c, verdict, computedAt) =>
      && Free(s, id)
      && s' == if c != s.sequence(call.channel) then At(s, t, Returned(verdict, c, computedAt))
               else At(WithCache(s, id, s.caches[id].(holder := Some(t))), t, Committing(id, c, verdict, computedAt))
    case Committing(id, c, verdict, computedAt) =>
      && id < |s.caches|
      && var shared, key := s.caches[id], KeyOf(w, call);
         var stored := shared.(cache := Stored(shared.cache, key, verdict), at := shared.at[key := computedAt], holder := None);
         s' == At(WithCache(s, id, stored), t, Returned(verdict, c, computedAt))
    case Returned(_, _, _) => false
    case Failed => false
  }

  /** An eviction, with the sequences of the entries that stay. */
  ghost predicate EvictedWith(shared: Shared, purged: Cache, at: map<string, nat>, toEvict: int) {
    && Evicted(shared.cache, purged, toEvict)
    && at.Keys == purged.entries.Keys
    && forall k | k in at :: k in shared.at && at[k] == shared.at[k]
  }

  /** A new call arrives. */
  ghost predicate Arrival<Data>(w: World<Data>, s: State<Data>, t: nat, channel: string, data: Data, s': State<Data>) {
    t !in s.calls && data in w.requests && s' == s.(calls := s.calls[t := Call(channel, data, s.sequence(channel), Entering)])
  }

  /** The configuration moves on. */
  ghost predicate Reconfiguration<Data>(s: State<Data>, s': State<Data>) {
    s' == s.(sequence := s'.sequence) && forall channel :: s.sequence(channel) <= s'.sequence(channel)
  }

  ghost predicate Next<Data(!new)>(w: World<Data>, s: State<Data>, s': State<Data>) {
    || (exists t :: t in s.calls && CallStep(w, s, t, s'))
    || (exists t, channel, data :: Arrival(w, s, t, channel, data, s'))
    || Reconfiguration(s, s')
  }

  /** A run of the system. */
  ghost predicate IsRun<Data(!new)>(w: World<Data>, states: seq<State<Data>>) {
    && states != [] && Initial(states[0])
    && forall i | 0 < i < |states| :: Follows(w, states, i)
  }

  ghost predicate Follows<Data(!new)>(w: World<Data>, states: seq<State<Data>>, i: nat)
    requires 0 < i < |states|
  {
    Next(w, states[i - 1], states[i])
  }

  // ---------------------------------------------------------------------------
  // The invariant
  // ---------------------------------------------------------------------------

  /** Requests with the same key are the same request: the hash does not collide on them. */
  ghost predicate Collisionless<Data(!new)>(w: World<Data>) {
    forall d, e | d in w.requests && e in w.requests && w.key(d).Some? && w.key(d) == w.key(e) :: d == e
  }

  /** Entries are at least as new as the last sequence, and hold the verdict of their sequence. */
  ghost predicate SharedInv<Data>(w: World<Data>, shared: Shared, now: nat) {
    && shared.cache.lastSequence <= now
    && shared.at.Keys == shared.cache.entries.Keys
    && (forall k | k in shared.at :: shared.cache.lastSequence <= shared.at[k] <= now)
    && (forall d | d in w.requests && w.key(d).Some? && w.key(d).value in shared.at ::
          shared.cache.entries[w.key(d).value] == w.eligible(shared.channel, shared.at[w.key(d).value], d))
  }

  ghost predicate Owns<Data>(s: State<Data>, call: Call<Data>, id: nat) {
    id < |s.caches| && s.caches[id].channel == call.channel
  }

  /** The call read `c` after it began. */
  ghost predicate Read<Data>(s: State<Data>, call: Call<Data>, c: nat) {
    call.began <= c <= s.sequence(call.channel)
  }

  /** The call works on its cache after it read `c`. */
  ghost predicate Working<Data>(w: World<Data>, s: State<Data>, call: Call<Data>, id: nat, c: nat) {
    Owns(s, call, id) && w.key(call.data).Some? && Read(s, call, c)
  }

  ghost predicate Computed<Data>(w: World<Data>, s: State<Data>, call: Call<Data>, c: nat, verdict: Verdict, at: nat) {
    c <= at <= s.sequence(call.channel) && verdict == w.eligible(call.channel, at, call.data)
  }

  /** No call that looks up in the cache read a sequence newer than `c`. */
  ghost predicate NoNewerLookup<Data>(s: State<Data>, id: nat, c: nat) {
    forall u | u in s.calls && s.calls[u].pc.LookingUp? && s.calls[u].pc.id == id :: s.calls[u].pc.c <= c
  }

  ghost predicate CallInv<Data>(w: World<Data>, s: State<Data>, t: nat, call: Call<Data>) {
    && call.data in w.requests && call.began <= s.sequence(call.channel)
    && match call.pc
       case Entering => true
       case Creating => true
       case Holding(id) => Owns(s, call, id)
       case Checking(id, c) => Working(w, s, call, id, c)
       case LookingUp(id, c) => Working(w, s, call, id, c) && forall k | k in s.caches[id].at :: c <= s.caches[id].at[k]
       case Changing(id, c) => Working(w, s, call, id, c)
       case Sizing(id, c) => Working(w, s, call, id, c)
       case Purging(id, c) => Working(w, s, call, id, c)
       case Computing(id, c) => Working(w, s, call, id, c)
       case Storing(id, c, verdict, at) => Working(w, s, call, id, c) && Computed(w, s, call, c, verdict, at)
       case Committing(id, c, verdict, at) =>
         && Working(w, s, call, id, c) && Computed(w, s, call, c, verdict, at)
         && s.caches[id].holder == Some(t) && s.caches[id].cache.lastSequence <= c && NoNewerLookup(s, id, c)
       case Returned(verdict, c, at) => Read(s, call, c) && Computed(w, s, call, c, verdict, at)
       case Failed => w.key(call.data).None?
  }

  ghost predicate Inv<Data>(w: World<Data>, s: State<Data>) {
    && (forall i | 0 <= i < |s.caches| :: SharedInv(w, s.caches[i], s.sequence(s.caches[i].channel)))
    && (forall channel | channel in s.directory :: s.directory[channel] < |s.caches| && s.caches[s.directory[channel]].channel == channel)
    && (forall t | t in s.calls :: CallInv(w, s, t, s.calls[t]))
  }

  /**
   Sequences grow; caches stay where they are, and those whose lock someone else than the stepping call holds stay as
   they are; entries are no older than what any lookup under way may see, and no lookup starts on a held cache.
   */
  ghost predicate Advances<Data>(s: State<Data>, t: nat, s': State<Data>) {
    && (forall channel :: s.sequence(channel) <= s'.sequence(channel))
    && |s.caches| <= |s'.caches|
    && (forall i | 0 <= i < |s.caches| :: s'.caches[i].channel == s.caches[i].channel)
    && (forall i | 0 <= i < |s.caches| && s.caches[i].holder.Some? && s.caches[i].holder != Some(t) :: s'.caches[i] == s.caches[i])
    && (forall u | u in s.calls && s.calls[u].pc.LookingUp? && s.calls[u].pc.id < |s.caches| ::
          NoneOlder(s'.caches[s.calls[u].pc.id], s.calls[u].pc.c))
    && (forall u | u in s'.calls && s'.calls[u].pc.LookingUp? && s'.calls[u].pc.id < |s.caches| && s.caches[s'.calls[u].pc.id].holder.Some? ::
          u in s.calls && s.calls[u].pc == s'.calls[u].pc)
  }

  ghost predicate NoneOlder(shared: Shared, c: nat) {
    forall k | k in shared.at :: c <= shared.at[k]
  }

  /** What a call knows stays true when the others move. */
  lemma CallStable<Data>(w: World<Data>, s: State<Data>, t: nat, s': State<Data>, u: nat)
    requires Advances(s, t, s') && u in s.calls && u != t && CallInv(w, s, u, s.calls[u])
    ensures CallInv(w, s', u, s.calls[u])
  {
    if s.calls[u].pc.LookingUp? {
      assert NoneOlder(s'.caches[s.calls[u].pc.id], s.calls[u].pc.c);
    }
  }

  lemma NoneOlderNow<Data>(w: World<Data>, s: State<Data>)
    requires Inv(w, s)
    ensures forall u | u in s.calls && s.calls[u].pc.LookingUp? && s.calls[u].pc.id < |s.caches| :: NoneOlder(s.caches[s.calls[u].pc.id], s.calls[u].pc.c)
  {
    forall u | u in s.calls && s.calls[u].pc.LookingUp? && s.calls[u].pc.id < |s.caches|
      ensures NoneOlder(s.caches[s.calls[u].pc.id], s.calls[u].pc.c)
    {
      assert CallInv(w, s, u, s.calls[u]);
    }
  }

  /** A step that leaves the caches alone. */
  lemma LocalStep<Data>(w: World<Data>, s: State<Data>, t: nat, pc: Pc)
    requires Inv(w, s) && t in s.calls && !pc.Committing? && CallInv(w, s, t, s.calls[t].(pc := pc))
    requires pc.LookingUp? ==> Free(s, pc.id)
    ensures Inv(w, At(s, t, pc))
  {
    var s' := At(s, t, pc);
    NoneOlderNow(w, s);
    assert Advances(s, t, s');
    forall u | u in s'.calls ensures CallInv(w, s', u, s'.calls[u]) {
      if u != t {
        CallStable(w, s, t, s', u);
      }
    }
  }

  /** A step that changes a cache nobody else holds. */
  lemma CacheStep<Data>(w: World<Data>, s: State<Data>, t: nat, id: nat, shared: Shared, pc: Pc)
    requires Inv(w, s) && t in s.calls && id < |s.caches| && (s.caches[id].holder.None? || s.caches[id].holder == Some(t))
    requires shared.channel == s.caches[id].channel && !pc.LookingUp?
    requires SharedInv(w, shared, s.sequence(shared.channel))
    requires forall u | u in s.calls && s.calls[u].pc.LookingUp? && s.calls[u].pc.id == id :: NoneOlder(shared, s.calls[u].pc.c)
    requires CallInv(w, At(WithCache(s, id, shared), t, pc), t, s.calls[t].(pc := pc))
    ensures Inv(w, At(WithCache(s, id, shared), t, pc))
  {
    var s' := At(WithCache(s, id, shared), t, pc);
    NoneOlderNow(w, s);
    assert Advances(s, t, s');
    forall u | u in s'.calls ensures CallInv(w, s', u, s'.calls[u]) {
      if u != t {
        CallStable(w, s, t, s', u);
      }
    }
  }

  lemma CreateStep<Data>(w: World<Data>, s: State<Data>, t: nat, s': State<Data>)
    requires Inv(w, s) && t in s.calls && s.calls[t].pc.Creating? && CallStep(w, s, t, s')
    ensures Inv(w, s')
  {
    NoneOlderNow(w, s);
    assert Advances(s, t, s');
    forall u | u in s'.calls ensures CallInv(w, s', u, s'.calls[u]) {
      if u != t {
        CallStable(w, s, t, s', u);
      }
    }
  }

  lemma PurgeStep<Data>(w: World<Data>, s: State<Data>, t: nat, s': State<Data>)
    requires Inv(w, s) && t in s.calls && s.calls[t].pc.Purging? && CallStep(w, s, t, s')
    ensures Inv(w, s')
  {
    var id, c := s.calls[t].pc.id, s.calls[t].pc.c;
    var purged, at :| EvictedWith(s.caches[id], purged, at, w.toEvict)
                      && s' == At(WithCache(s, id, s.caches[id].(cache := purged, at := at)), t, Computing(id, c));
    NoneOlderNow(w, s);
    CacheStep(w, s, t, id, s.caches[id].(cache := purged, at := at), Computing(id, c));
  }

  /** The lock is taken, and the sequence read, only while no lookup is under way with a newer sequence. */
  lemma LockStep<Data>(w: World<Data>, s: State<Data>, t: nat, s': State<Data>)
    requires Inv(w, s) && t in s.calls && s.calls[t].pc.Storing? && CallStep(w, s, t, s')
    ensures Inv(w, s')
    ensures s'.calls[t].pc.Committing? ==> s'.calls[t].pc.s == s.sequence(s.calls[t].channel)
  {
    var call := s.calls[t];
    var id, c, verdict, at := call.pc.id, call.pc.c, call.pc.verdict, call.pc.s;
    if c != s.sequence(call.channel) {
      LocalStep(w, s, t, Returned(verdict, c, at));
    } else {
      NoneOlderNow(w, s);
      LookupsBehind(w, s, id);
      CacheStep(w, s, t, id, s.caches[id].(holder := Some(t)), Committing(id, c, verdict, at));
    }
  }

  lemma LookupsBehind<Data>(w: World<Data>, s: State<Data>, id: nat)
    requires Inv(w, s) && id < |s.caches|
    ensures NoNewerLookup(s, id, s.sequence(s.caches[id].channel))
  {
    forall u | u in s.calls && s.calls[u].pc.LookingUp? && s.calls[u].pc.id == id ensures s.calls[u].pc.c <= s.sequence(s.caches[id].channel) {
      assert CallInv(w, s, u, s.calls[u]);
    }
  }

  /** The entry stored holds the verdict of its sequence, which is no older than the cache's last one and than any lookup under way. */
  lemma StoreStep<Data(!new)>(w: World<Data>, s: State<Data>, t: nat, s': State<Data>)
    requires Inv(w, s) && Collisionless(w) && t in s.calls && s.calls[t].pc.Committing? && CallStep(w, s, t, s')
    ensures Inv(w, s')
    ensures var pc, key := s.calls[t].pc, KeyOf(w, s.calls[t]);
            && pc.id < |s'.caches| && key in s'.caches[pc.id].at && s'.caches[pc.id].at[key] == pc.s
            && s'.caches[pc.id].cache.lastSequence <= pc.s && s'.caches[pc.id].cache.entries[key] == pc.verdict
  {
    var call := s.calls[t];
    var id, c, verdict, at := call.pc.id, call.pc.c, call.pc.verdict, call.pc.s;
    var shared, key := s.caches[id], KeyOf(w, call);
    var stored := shared.(cache := Stored(shared.cache, key, verdict), at := shared.at[key := at], holder := None);
    StoredInv(w, s, t, stored);
    NoneOlderNow(w, s);
    CacheStep(w, s, t, id, stored, Returned(verdict, c, at));
  }

  lemma StoredInv<Data(!new)>(w: World<Data>, s: State<Data>, t: nat, stored: Shared)
    requires Inv(w, s) && Collisionless(w) && t in s.calls && s.calls[t].pc.Committing? && s.calls[t].pc.id < |s.caches|
    requires var pc, shared, key := s.calls[t].pc, s.caches[s.calls[t].pc.id], KeyOf(w, s.calls[t]);
             stored == shared.(cache := Stored(shared.cache, key, pc.verdict), at := shared.at[key := pc.s], holder := None)
    ensures SharedInv(w, stored, s.sequence(stored.channel))
  {
    var call, key := s.calls[t], KeyOf(w, s.calls[t]);
    assert CallInv(w, s, t, call) && SharedInv(w, s.caches[call.pc.id], s.sequence(stored.channel));
    forall d | d in w.requests && w.key(d).Some? && w.key(d).value in stored.at
      ensures stored.cache.entries[w.key(d).value] == w.eligible(stored.channel, stored.at[w.key(d).value], d)
    {
      if w.key(d).value == key {
        assert d == call.data;
      }
    }
  }

  lemma ChangeStep<Data>(w: World<Data>, s: State<Data>, t: nat, s': State<Data>)
    requires Inv(w, s) && t in s.calls && s.calls[t].pc.Changing? && CallStep(w, s, t, s')
    ensures Inv(w, s')
  {
    var id, c := s.calls[t].pc.id, s.calls[t].pc.c;
    CacheStep(w, s, t, id, s.caches[id].(cache := Cache(c, map[]), at := map[]), Sizing(id, c));
  }

  /** Every step of a call keeps the invariant. */
  lemma CallStepKeeps<Data(!new)>(w: World<Data>, s: State<Data>, t: nat, s': State<Data>)
    requires Inv(w, s) && Collisionless(w) && t in s.calls && CallStep(w, s, t, s')
    ensures Inv(w, s')
  {
    assert CallInv(w, s, t, s.calls[t]);
    match s.calls[t].pc
    case Creating => CreateStep(w, s, t, s');
    case Changing(_, _) => ChangeStep(w, s, t, s');
    case Purging(_, _) => PurgeStep(w, s, t, s');
    case Storing(_, _, _, _) => LockStep(w, s, t, s');
    case Committing(_, _, _, _) => StoreStep(w, s, t, s');
    case Entering => LocalStep(w, s, t, s'.calls[t].pc);
    case Holding(_) => LocalStep(w, s, t, s'.calls[t].pc);
    case Checking(_, _) => LocalStep(w, s, t, s'.calls[t].pc);
    case LookingUp(_, _) => LocalStep(w, s, t, s'.calls[t].pc);
    case Sizing(_, _) => LocalStep(w, s, t, s'.calls[t].pc);
    case Computing(_, _) => LocalStep(w, s, t, s'.calls[t].pc);
    case Returned(_, _, _) =>
    case Failed =>
  }

  lemma ArrivalKeeps<Data>(w: World<Data>, s: State<Data>, t: nat, channel: string, data: Data, s': State<Data>)
    requires Inv(w, s) && Arrival(w, s, t, channel, data, s')
    ensures Inv(w, s')
  {
    NoneOlderNow(w, s);
    assert Advances(s, t, s');
    forall u | u in s.calls ensures CallInv(w, s', u, s.calls[u]) {
      CallStable(w, s, t, s', u);
    }
  }

  lemma ReconfigurationKeeps<Data>(w: World<Data>, s: State<Data>, s': State<Data>, t: nat)
    requires Inv(w, s) && Reconfiguration(s, s') && t !in s.calls
    ensures Inv(w, s')
  {
    NoneOlderNow(w, s);
    assert Advances(s, t, s');
    forall u | u in s.calls ensures CallInv(w, s', u, s.calls[u]) {
      CallStable(w, s, t, s', u);
    }
  }

  /** Some number no call has. */
  lemma {:induction false} Unused(used: set<nat>, n: nat) returns (t: nat)
    requires forall u | u in used :: u >= n
    ensures t !in used && t >= n
    decreases |used|
  {
    t := n;
    if n in used {
      t := Unused(used - {n}, n + 1);
      assert used == (used - {n}) + {n};
    }
  }

  lemma NextKeeps<Data(!new)>(w: World<Data>, s: State<Data>, s': State<Data>)
    requires Inv(w, s) && Collisionless(w) && Next(w, s, s')
    ensures Inv(w, s')
  {
    if t :| t in s.calls && CallStep(w, s, t, s') {
      CallStepKeeps(w, s, t, s');
    } else if t, channel, data :| Arrival(w, s, t, channel, data, s') {
      ArrivalKeeps(w, s, t, channel, data, s');
    } else {
      var t := Unused(s.calls.Keys, 0);
      ReconfigurationKeeps(w, s, s', t);
    }
  }

  /** The invariant holds all along every run. */
  lemma {:induction false} RunKeeps<Data(!new)>(w: World<Data>, states: seq<State<Data>>, n: nat)
    requires IsRun(w, states) && Collisionless(w) && n < |states|
    ensures Inv(w, states[n])
  {
    if n > 0 {
      RunKeeps(w, states, n - 1);
      assert Follows(w, states, n);
      NextKeeps(w, states[n - 1], states[n]);
    }
  }

  /**
   In every run, a verdict that a call returned is the one the eligibility check gives at a sequence the channel
   had during the call, no older than the sequence the call read; and every stored entry is at least as new as
   the last sequence of its cache.
   */
  lemma VerdictsAreFresh<Data(!new)>(w: World<Data>, states: seq<State<Data>>, n: nat)
    requires IsRun(w, states) && Collisionless(w) && n < |states|
    ensures forall t | t in states[n].calls && states[n].calls[t].pc.Returned? ::
      var call := states[n].calls[t];
      && call.pc.verdict == w.eligible(call.channel, call.pc.s, call.data)
      && call.began <= call.pc.c <= call.pc.s <= states[n].sequence(call.channel)
    ensures forall i, k | 0 <= i < |states[n].caches| && k in states[n].caches[i].cache.entries ::
      k in states[n].caches[i].at && states[n].caches[i].at[k] >= states[n].caches[i].cache.lastSequence
  {
    RunKeeps(w, states, n);
    forall t | t in states[n].calls ensures CallInv(w, states[n], t, states[n].calls[t]) {
    }
    forall i | 0 <= i < |states[n].caches| ensures SharedInv(w, states[n].caches[i], states[n].sequence(states[n].caches[i].channel)) {
    }
  }

  // ---------------------------------------------------------------------------
  // Undisturbed calls
  // ---------------------------------------------------------------------------

  /** The call takes `n` steps, nothing else moves, and then it has returned. */
  ghost predicate Alone<Data(!new)>(w: World<Data>, s: State<Data>, t: nat, n: nat, s': State<Data>)
    decreases n
  {
    && t in s.calls
    && if n == 0 then s' == s && s.calls[t].pc.Returned?
       else exists m :: CallStep(w, s, t, m) && Alone(w, m, t, n - 1, s')
  }

  lemma NextAlone<Data(!new)>(w: World<Data>, s: State<Data>, t: nat, n: nat, s': State<Data>) returns (m: State<Data>)
    requires Alone(w, s, t, n, s') && !s.calls[t].pc.Returned?
    ensures n > 0 && CallStep(w, s, t, m) && Alone(w, m, t, n - 1, s')
  {
    m :| CallStep(w, s, t, m) && Alone(w, m, t, n - 1, s');
  }

  lemma ReturnedStays<Data(!new)>(w: World<Data>, s: State<Data>, t: nat, n: nat, s': State<Data>)
    requires Alone(w, s, t, n, s') && s.calls[t].pc.Returned?
    ensures s' == s
  {
    assert forall m :: !CallStep(w, s, t, m);
  }

  /** The call stands at `pc`, and its cache is `cache`; the rest of it and the sequence of its channel are as in `s`. */
  ghost predicate Stands<Data>(s: State<Data>, t: nat, id: nat, m: State<Data>, pc: Pc, cache: Cache) {
    && t in s.calls && t in m.calls && m.calls[t] == s.calls[t].(pc := pc)
    && m.sequence(s.calls[t].channel) == s.sequence(s.calls[t].channel)
    && id < |m.caches| && m.caches[id].cache == cache
  }

  /** What an undisturbed call answers. */
  function Answer<Data>(w: World<Data>, s: State<Data>, t: nat): Verdict
    requires t in s.calls
  {
    w.eligible(s.calls[t].channel, s.sequence(s.calls[t].channel), s.calls[t].data)
  }

  /** The cache after an undisturbed call that computed its answer. */
  function Kept<Data>(w: World<Data>, s: State<Data>, t: nat, c: nat, cache: Cache): Cache
    requires t in s.calls
  {
    if c == s.sequence(s.calls[t].channel) then Stored(cache, KeyOf(w, s.calls[t]), Answer(w, s, t)) else cache
  }

  /** The call has returned its answer and left the cache as it should. */
  ghost predicate Finished<Data>(w: World<Data>, s: State<Data>, t: nat, id: nat, c: nat, cache: Cache, s': State<Data>)
    requires t in s.calls
  {
    Stands(s, t, id, s', Returned(Answer(w, s, t), c, s.sequence(s.calls[t].channel)), Kept(w, s, t, c, cache))
  }

  lemma ComputingStep<Data>(w: World<Data>, s: State<Data>, t: nat, m: State<Data>, id: nat, c: nat, cache: Cache, m': State<Data>)
    requires Stands(s, t, id, m, Computing(id, c), cache) && CallStep(w, m, t, m')
    ensures Stands(s, t, id, m', Storing(id, c, Answer(w, s, t), s.sequence(s.calls[t].channel)), cache)
  {
  }

  lemma StoringStep<Data>(w: World<Data>, s: State<Data>, t: nat, m: State<Data>, id: nat, c: nat, verdict: Verdict, at: nat, cache: Cache, m': State<Data>)
    requires Stands(s, t, id, m, Storing(id, c, verdict, at), cache) && CallStep(w, m, t, m')
    ensures Stands(s, t, id, m', if c == s.sequence(s.calls[t].channel) then Committing(id, c, verdict, at) else Returned(verdict, c, at), cache)
  {
  }

  lemma CommittingStep<Data>(w: World<Data>, s: State<Data>, t: nat, m: State<Data>, id: nat, c: nat, verdict: Verdict, at: nat, cache: Cache, m': State<Data>)
    requires Stands(s, t, id, m, Committing(id, c, verdict, at), cache) && CallStep(w, m, t, m')
    ensures Stands(s, t, id, m', Returned(verdict, c, at), Stored(cache, KeyOf(w, s.calls[t]), verdict))
  {
  }

  lemma FromComputing<Data(!new)>(w: World<Data>, s: State<Data>, t: nat, m: State<Data>, id: nat, c: nat, cache: Cache, n: nat, s': State<Data>)
    requires Stands(s, t, id, m, Computing(id, c), cache) && Alone(w, m, t, n, s')
    ensures Finished(w, s, t, id, c, cache, s')
  {
    var m1 := NextAlone(w, m, t, n, s');
    ComputingStep(w, s, t, m, id, c, cache, m1);
    FromStoring(w, s, t, m1, id, c, cache, n - 1, s');
  }

  lemma FromStoring<Data(!new)>(w: World<Data>, s: State<Data>, t: nat, m: State<Data>, id: nat, c: nat, cache: Cache, n: nat, s': State<Data>)
    requires t in s.calls && Stands(s, t, id, m, Storing(id, c, Answer(w, s, t), s.sequence(s.calls[t].channel)), cache) && Alone(w, m, t, n, s')
    ensures Finished(w, s, t, id, c, cache, s')
  {
    var verdict, at := Answer(w, s, t), s.sequence(s.calls[t].channel);
    var m1 := NextAlone(w, m, t, n, s');
    StoringStep(w, s, t, m, id, c, verdict, at, cache, m1);
    if c == at {
      var m2 := NextAlone(w, m1, t, n - 1, s');
      CommittingStep(w, s, t, m1, id, c, verdict, at, cache, m2);
      ReturnedStays(w, m2, t, n - 2, s');
    } else {
      ReturnedStays(w, m1, t, n - 1, s');
    }
  }

  lemma SizingStep<Data>(w: World<Data>, s: State<Data>, t: nat, m: State<Data>, id: nat, c: nat, cache: Cache, m': State<Data>)
    requires Stands(s, t, id, m, Sizing(id, c), cache) && CallStep(w, m, t, m')
    ensures Stands(s, t, id, m', if PurgeNeeded(cache, w.maxCacheSize) then Purging(id, c) else Computing(id, c), cache)
  {
  }

  lemma PurgeAlone<Data>(w: World<Data>, s: State<Data>, t: nat, m: State<Data>, id: nat, c: nat, cache: Cache, m': State<Data>)
    returns (purged: Cache)
    requires Stands(s, t, id, m, Purging(id, c), cache) && CallStep(w, m, t, m')
    ensures Evicted(cache, purged, w.toEvict) && Stands(s, t, id, m', Computing(id, c), purged)
  {
    var p, at :| EvictedWith(m.caches[id], p, at, w.toEvict)
                 && m' == At(WithCache(m, id, m.caches[id].(cache := p, at := at)), t, Computing(id, c));
    purged := p;
  }

  lemma FromPurging<Data(!new)>(w: World<Data>, s: State<Data>, t: nat, m: State<Data>, id: nat, c: nat, cache: Cache, n: nat, s': State<Data>)
    returns (purged: Cache)
    requires Stands(s, t, id, m, Purging(id, c), cache) && Alone(w, m, t, n, s')
    ensures Evicted(cache, purged, w.toEvict) && Finished(w, s, t, id, c, purged, s')
  {
    var m1 := NextAlone(w, m, t, n, s');
    purged := PurgeAlone(w, s, t, m, id, c, cache, m1);
    FromComputing(w, s, t, m1, id, c, purged, n - 1, s');
  }

  lemma FromSizing<Data(!new)>(w: World<Data>, s: State<Data>, t: nat, m: State<Data>, id: nat, c: nat, cache: Cache, n: nat, s': State<Data>)
    returns (purged: Cache)
    requires Stands(s, t, id, m, Sizing(id, c), cache) && Alone(w, m, t, n, s')
    ensures SomeEvicted(cache, purged, w.maxCacheSize, w.toEvict) && Finished(w, s, t, id, c, purged, s')
  {
    var m1 := NextAlone(w, m, t, n, s');
    SizingStep(w, s, t, m, id, c, cache, m1);
    if PurgeNeeded(cache, w.maxCacheSize) {
      purged := FromPurging(w, s, t, m1, id, c, cache, n - 1, s');
    } else {
      purged := cache;
      FromComputing(w, s, t, m1, id, c, cache, n - 1, s');
    }
  }

  /** After the validity check, and the lookup or the invalidation, the call has a hit or goes on with the cache consulted. */
  ghost predicate Consulting<Data>(w: World<Data>, s: State<Data>, t: nat, id: nat, c: nat, m: State<Data>)
    requires t in s.calls && id < |s.caches|
  {
    var cache, key := s.caches[id].cache, KeyOf(w, s.calls[t]);
    if key in Consulted(cache, c).entries
    then t in m.calls && m.calls[t].pc.Returned? && m.calls[t].pc.verdict == cache.entries[key] && Stands(s, t, id, m, m.calls[t].pc, cache)
    else Stands(s, t, id, m, Sizing(id, c), Consulted(cache, c))
  }

  /** The call is about to check a cache that keeps its invariant. */
  ghost predicate Ready<Data>(w: World<Data>, s: State<Data>, t: nat) {
    && t in s.calls && s.calls[t].pc.Checking? && s.calls[t].pc.id < |s.caches|
    && SharedInv(w, s.caches[s.calls[t].pc.id], s.sequence(s.caches[s.calls[t].pc.id].channel))
  }

  lemma InvReady<Data>(w: World<Data>, s: State<Data>, t: nat)
    requires Inv(w, s) && t in s.calls && s.calls[t].pc.Checking?
    ensures Ready(w, s, t)
  {
    assert CallInv(w, s, t, s.calls[t]);
  }

  lemma Consults<Data>(w: World<Data>, s: State<Data>, t: nat, m: State<Data>, m': State<Data>)
    requires Ready(w, s, t) && CallStep(w, s, t, m) && CallStep(w, m, t, m')
    ensures Consulting(w, s, t, s.calls[t].pc.id, s.calls[t].pc.c, m')
  {
  }

  lemma FromChecking<Data(!new)>(w: World<Data>, s: State<Data>, t: nat, n: nat, s': State<Data>) returns (m: State<Data>)
    requires Ready(w, s, t) && Alone(w, s, t, n, s')
    ensures Consulting(w, s, t, s.calls[t].pc.id, s.calls[t].pc.c, m)
    ensures n >= 2 && Alone(w, m, t, n - 2, s')
  {
    var m' := NextAlone(w, s, t, n, s');
    m := NextAlone(w, m', t, n - 1, s');
    Consults(w, s, t, m', m);
  }

  /** A cache of the state, as it is or empty where there is none. */
  function CacheAt<Data>(s: State<Data>, id: nat): Cache {
    if id < |s.caches| then s.caches[id].cache else Cache(0, map[])
  }

  /** What a call returned, if it has. */
  function Result<Data>(s: State<Data>, t: nat): Option<Verdict> {
    if t in s.calls && s.calls[t].pc.Returned? then Some(s.calls[t].pc.verdict) else None
  }

  /** The effect of a whole call that began its work on the cache in `s` and has returned in `s'`. */
  ghost predicate CalledAlone<Data>(w: World<Data>, s: State<Data>, t: nat, id: nat, c: nat, s': State<Data>)
    requires t in s.calls
  {
    exists verdict ::
      && Result(s', t) == Some(verdict)
      && Called(CacheAt(s, id), CacheAt(s', id), w.maxCacheSize, w.toEvict, KeyOf(w, s.calls[t]), c,
                Answer(w, s, t), s.sequence(s.calls[t].channel), verdict)
  }

  lemma AloneHit<Data(!new)>(w: World<Data>, s: State<Data>, t: nat, id: nat, c: nat, m: State<Data>, n: nat, s': State<Data>)
    requires t in s.calls && id < |s.caches| && Consulting(w, s, t, id, c, m) && Alone(w, m, t, n, s')
    requires KeyOf(w, s.calls[t]) in Consulted(s.caches[id].cache, c).entries
    ensures CalledAlone(w, s, t, id, c, s')
  {
    ReturnedStays(w, m, t, n, s');
    assert Result(s', t) == Some(CacheAt(s, id).entries[KeyOf(w, s.calls[t])]);
  }

  lemma AloneMiss<Data(!new)>(w: World<Data>, s: State<Data>, t: nat, id: nat, c: nat, m: State<Data>, n: nat, s': State<Data>)
    requires t in s.calls && id < |s.caches| && Consulting(w, s, t, id, c, m) && Alone(w, m, t, n, s')
    requires KeyOf(w, s.calls[t]) !in Consulted(s.caches[id].cache, c).entries
    ensures CalledAlone(w, s, t, id, c, s')
  {
    var cache, key := s.caches[id].cache, KeyOf(w, s.calls[t]);
    var purged := FromSizing(w, s, t, m, id, c, Consulted(cache, c), n, s');
    Missed(cache, purged, w.maxCacheSize, w.toEvict, key, c, Answer(w, s, t), s.sequence(s.calls[t].channel));
    assert Result(s', t) == Some(Answer(w, s, t));
  }

  /** A call that nothing interrupts does to its cache, and answers, what the code run on its own does. */
  lemma AloneIsCalled<Data(!new)>(w: World<Data>, s: State<Data>, t: nat, n: nat, s': State<Data>)
    requires Ready(w, s, t) && Alone(w, s, t, n, s')
    ensures CalledAlone(w, s, t, s.calls[t].pc.id, s.calls[t].pc.c, s')
  {
    var m := FromChecking(w, s, t, n, s');
    FromConsulting(w, s, t, s.calls[t].pc.id, s.calls[t].pc.c, m, n - 2, s');
  }

  lemma FromConsulting<Data(!new)>(w: World<Data>, s: State<Data>, t: nat, id: nat, c: nat, m: State<Data>, n: nat, s': State<Data>)
    requires t in s.calls && id < |s.caches| && Consulting(w, s, t, id, c, m) && Alone(w, m, t, n, s')
    ensures CalledAlone(w, s, t, id, c, s')
  {
    if KeyOf(w, s.calls[t]) in Consulted(s.caches[id].cache, c).entries {
      AloneHit(w, s, t, id, c, m, n, s');
    } else {
      AloneMiss(w, s, t, id, c, m, n, s');
    }
  }

  /** A call without a hit, as a relation between caches. */
  lemma Missed(c: Cache, purged: Cache, maxCacheSize: int, toEvict: int, key: string, currSeq: nat, computed: Verdict, seqNow: nat)
    requires key !in Consulted(c, currSeq).entries && SomeEvicted(Consulted(c, currSeq), purged, maxCacheSize, toEvict)
    ensures Called(c, if currSeq == seqNow then Stored(purged, key, computed) else purged,
                   maxCacheSize, toEvict, key, currSeq, computed, seqNow, computed)
  {
  }

  /** From every state that a run reaches, a call that nothing interrupts from its check on is a call of the code on its own. */
  lemma UninterruptedIsCalled<Data(!new)>(w: World<Data>, states: seq<State<Data>>, k: nat, t: nat, n: nat, s': State<Data>)
    requires IsRun(w, states) && Collisionless(w) && k < |states|
    requires t in states[k].calls && states[k].calls[t].pc.Checking? && Alone(w, states[k], t, n, s')
    ensures CalledAlone(w, states[k], t, states[k].calls[t].pc.id, states[k].calls[t].pc.c, s')
  {
    RunKeeps(w, states, k);
    InvReady(w, states[k], t);
    AloneIsCalled(w, states[k], t, n, s');
  }
}
