/**
 How far concurrent calls can overgrow the authorisation cache (discovery/authcache.go): the size is checked before a
 verdict is computed, and the verdict stored afterwards, so other calls may store in between.
 */
module AuthCacheSizes {
  import opened AuthCache
  import opened AuthCacheRuns

  /** The call has checked, or reduced, the size of the cache and has not stored its verdict yet. */
  predicate Pends(pc: Pc, id: nat) {
    match pc
    case Computing(i, _) => i == id
    case Storing(i, _, _, _) => i == id
    case Committing(i, _, _, _) => i == id
    case _ => false
  }

  ghost function Pending<Data>(s: State<Data>, id: nat): set<nat> {
    set t | t in s.calls && Pends(s.calls[t].pc, id)
  }

  function Size<Data>(s: State<Data>, id: nat): nat {
    if id < |s.caches| then |s.caches[id].cache.entries| else 0
  }

  /** The entries and the calls that may still add one stay within the bound for `k` calls at a time. */
  ghost predicate Within<Data>(w: World<Data>, s: State<Data>, id: nat, k: nat) {
    Size(s, id) + |Pending(s, id)| <= w.maxCacheSize - 1 + k
  }

  /** The step of call `t` to `pc` adds or takes away at most that call. */
  lemma PendingMoves<Data>(s: State<Data>, s': State<Data>, t: nat, id: nat)
    requires t in s.calls && t in s'.calls && s'.calls == s.calls[t := s'.calls[t]]
    ensures Pending(s', id) == if Pends(s'.calls[t].pc, id) then Pending(s, id) + {t} else Pending(s, id) - {t}
    ensures |Pending(s', id)| <= |Pending(s, id)| + 1
    ensures Pends(s.calls[t].pc, id) || !Pends(s'.calls[t].pc, id) ==> |Pending(s', id)| <= |Pending(s, id)|
    ensures Pends(s.calls[t].pc, id) && !Pends(s'.calls[t].pc, id) ==> |Pending(s', id)| == |Pending(s, id)| - 1
  {
    var p := Pending(s, id);
    assert t in p <==> Pends(s.calls[t].pc, id);
    assert Pending(s', id) == if Pends(s'.calls[t].pc, id) then p + {t} else p - {t};
    if t in p {
      assert p + {t} == p;
    } else {
      assert p - {t} == p;
    }
  }

  /** Checking finds room for one more entry; purging makes it. */
  lemma RoomMade<Data>(w: World<Data>, s: State<Data>, t: nat, s': State<Data>, id: nat, k: nat)
    requires w.maxCacheSize >= 1 && w.toEvict != 0 && t in s.calls && CallStep(w, s, t, s') && |Pending(s', id)| <= k && Within(w, s, id, k)
    requires s.calls[t].pc.Sizing? || s.calls[t].pc.Purging?
    ensures Within(w, s', id, k)
  {
    PendingMoves(s, s', t, id);
    if s.calls[t].pc.id == id && s.calls[t].pc.Purging? && Size(s, id) > 0 {
      assert Size(s', id) <= Size(s, id) - 1;
    }
  }

  /** Storing uses the room of its own call. */
  lemma RoomUsed<Data>(w: World<Data>, s: State<Data>, t: nat, s': State<Data>, id: nat, k: nat)
    requires t in s.calls && CallStep(w, s, t, s') && Within(w, s, id, k) && s.calls[t].pc.Committing?
    ensures Within(w, s', id, k)
  {
    PendingMoves(s, s', t, id);
    var pc := s.calls[t].pc;
    if pc.id == id {
      StoredSize(s.caches[id].cache, KeyOf(w, s.calls[t]), pc.verdict);
    }
  }

  lemma StoredSize(c: Cache, key: string, verdict: Verdict)
    ensures |Stored(c, key, verdict).entries| <= |c.entries| + 1
  {
    var entries := Stored(c, key, verdict).entries;
    assert entries.Keys == c.entries.Keys + {key};
    assert |entries| == |entries.Keys| && |c.entries| == |c.entries.Keys|;
  }

  /** Every other step leaves the cache alone or empties it, and makes no call pend. */
  lemma NothingAdded<Data>(w: World<Data>, s: State<Data>, t: nat, s': State<Data>, id: nat)
    requires t in s.calls && CallStep(w, s, t, s')
    requires !s.calls[t].pc.Sizing? && !s.calls[t].pc.Purging? && !s.calls[t].pc.Committing?
    ensures t in s'.calls && s'.calls == s.calls[t := s'.calls[t]]
    ensures Size(s', id) <= Size(s, id) && (Pends(s.calls[t].pc, id) || !Pends(s'.calls[t].pc, id))
  {
    match s.calls[t].pc
    case Creating =>
      assert id < |s.caches| ==> s'.caches[id] == s.caches[id];
    case Changing(_, _) =>
    case Storing(_, _, _, _) =>
    case _ =>
  }

  lemma CallStepWithin<Data>(w: World<Data>, s: State<Data>, t: nat, s': State<Data>, id: nat, k: nat)
    requires w.maxCacheSize >= 1 && w.toEvict != 0 && t in s.calls && CallStep(w, s, t, s') && |Pending(s', id)| <= k && Within(w, s, id, k)
    ensures Within(w, s', id, k)
  {
    var pc := s.calls[t].pc;
    if pc.Sizing? || pc.Purging? {
      RoomMade(w, s, t, s', id, k);
    } else if pc.Committing? {
      RoomUsed(w, s, t, s', id, k);
    } else {
      NothingAdded(w, s, t, s', id);
      PendingMoves(s, s', t, id);
    }
  }

  lemma NextWithin<Data(!new)>(w: World<Data>, s: State<Data>, s': State<Data>, id: nat, k: nat)
    requires w.maxCacheSize >= 1 && w.toEvict != 0 && Next(w, s, s') && |Pending(s', id)| <= k && Within(w, s, id, k)
    ensures Within(w, s', id, k)
  {
    if t :| t in s.calls && CallStep(w, s, t, s') {
      CallStepWithin(w, s, t, s', id, k);
    } else {
      assert Pending(s', id) == Pending(s, id);
    }
  }

  lemma {:induction false} RunWithin<Data(!new)>(w: World<Data>, states: seq<State<Data>>, id: nat, k: nat, n: nat)
    requires w.maxCacheSize >= 1 && w.toEvict != 0 && AuthCacheRuns.IsRun(w, states) && n < |states|
    requires forall i | 0 <= i < |states| :: |Pending(states[i], id)| <= k
    ensures Within(w, states[n], id, k)
  {
    if n > 0 {
      RunWithin(w, states, id, k, n - 1);
      assert Follows(w, states, n);
      NextWithin(w, states[n - 1], states[n], id, k);
    } else {
      assert Pending(states[0], id) == {};
    }
  }

  /**
   In every interleaving, when at most `k` calls at a time are between the check of a cache's size and the store, the
   cache exceeds its maximum size by at most `k - 1`, provided the maximum is positive and a purge evicts something.
   */
  lemma OvergrowthBounded<Data(!new)>(w: World<Data>, states: seq<State<Data>>, id: nat, k: nat, n: nat)
    requires w.maxCacheSize >= 1 && w.toEvict != 0 && AuthCacheRuns.IsRun(w, states) && n < |states| && id < |states[n].caches|
    requires forall i | 0 <= i < |states| :: |Pending(states[i], id)| <= k
    ensures |states[n].caches[id].cache.entries| <= w.maxCacheSize - 1 + k
  {
    RunWithin(w, states, id, k, n);
  }
}
