/**
 The authorisation cache of the discovery service (discovery/authcache.go).  Calls run concurrently; every
 section under a lock, every read of the configuration sequence and every eligibility check is one atomic step.
 */
module AuthCache {
  import opened Wrappers

  /** An error, or `None` for eligible. */
  type Verdict = Option<string>

  /** An `accessCache`. */
  datatype Cache = Cache(lastSequence: nat, entries: map<string, Verdict>)

  // ---------------------------------------------------------------------------
  // The sections under the lock
  // ---------------------------------------------------------------------------

  /** Conversion of a floating point number to an integer drops the fraction. */
  function Truncate(x: real): int {
    if x >= 0.0 then x.Floor else -((-x).Floor)
  }

  /** `retained` is the product of the retention ratio and the maximum, as floating point gives it. */
  function EntriesToEvict(maxCacheSize: int, retained: real): int {
    maxCacheSize - Truncate(retained)
  }

  predicate PurgeNeeded(c: Cache, maxCacheSize: int) {
    |c.entries| + 1 > maxCacheSize
  }

  /** How many entries the eviction loop leaves; a count that starts below zero never stops it. */
  function Left(size: nat, toEvict: int): nat {
    if toEvict < 0 || toEvict >= size then 0 else size - toEvict
  }

  /** Some entries were evicted. */
  ghost predicate Evicted(c: Cache, c': Cache, toEvict: int) {
    && c'.lastSequence == c.lastSequence
    && c'.entries.Keys <= c.entries.Keys && (forall k | k in c'.entries :: c'.entries[k] == c.entries[k])
    && |c'.entries| == Left(|c.entries|, toEvict)
  }

  function Stored(c: Cache, key: string, verdict: Verdict): Cache {
    Cache(c.lastSequence, c.entries[key := verdict])
  }

  class AccessCache {
    const maxCacheSize: int
    const retained: real
    var lastSequence: nat
    var entries: map<string, Verdict>

    constructor (maxCacheSize: int, retained: real)
      ensures this.maxCacheSize == maxCacheSize && this.retained == retained
      ensures View() == Cache(0, map[])
    {
      this.maxCacheSize, this.retained := maxCacheSize, retained;
      lastSequence, entries := 0, map[];
    }

    function View(): Cache
      reads this
    {
      Cache(lastSequence, entries)
    }

    method ConfigChange(currSeq: nat)
      modifies this
      ensures View() == Cache(currSeq, map[])
    {
      lastSequence := currSeq;
      entries := map[];
    }

    /** The locked part of `purgeEntriesIfNeeded`, with its loop over the map in any order. */
    method Purge()
      modifies this
      ensures Evicted(old(View()), View(), EntriesToEvict(maxCacheSize, retained))
    {
      var toEvict := EntriesToEvict(maxCacheSize, retained);
      var todo := entries.Keys;
      ghost var evicted := 0;
      while todo != {}
        invariant todo <= entries.Keys <= old(entries).Keys && lastSequence == old(lastSequence)
        invariant forall k | k in entries :: entries[k] == old(entries)[k]
        invariant toEvict == EntriesToEvict(maxCacheSize, retained) - evicted
        invariant |entries.Keys| == |old(entries)| - evicted && |todo| == |old(entries)| - evicted
        invariant EntriesToEvict(maxCacheSize, retained) >= 0 ==> toEvict >= 0
        decreases todo
      {
        if toEvict == 0 {
          return;
        }
        var key :| key in todo;
        toEvict, evicted := toEvict - 1, evicted + 1;
        todo := todo - {key};
        assert (entries - {key}).Keys == entries.Keys - {key};
        entries := entries - {key};
      }
    }

    /**
     `EligibleForService` run without interference.  `currSeq` and `seqNow` are the sequences read before and
     after the eligibility check, whose answer is `computed`.
     */
    method EligibleForService(key: Option<string>, currSeq: nat, computed: Verdict, seqNow: nat) returns (err: Verdict)
      modifies this
      ensures key.None? ==> err.Some? && View() == old(View())
      ensures key.Some? ==>
        Called(old(View()), View(), maxCacheSize, EntriesToEvict(maxCacheSize, retained), key.value, currSeq, computed, seqNow, err)
    {
      if key.None? {
        return Some("failed computing key of signed data");
      }
      if currSeq == lastSequence {
        if key.value in entries {
          return entries[key.value];
        }
      } else {
        ConfigChange(currSeq);
      }
      ghost var consulted := View();
      if PurgeNeeded(View(), maxCacheSize) {
        Purge();
      }
      assert SomeEvicted(consulted, View(), maxCacheSize, EntriesToEvict(maxCacheSize, retained));
      err := computed;
      if currSeq == seqNow {
        entries := entries[key.value := err];
      }
    }
  }

  /** The cache after the validity check: emptied when the sequence changed. */
  function Consulted(c: Cache, currSeq: nat): Cache {
    if currSeq == c.lastSequence then c else Cache(currSeq, map[])
  }

  ghost predicate SomeEvicted(c: Cache, c': Cache, maxCacheSize: int, toEvict: int) {
    if PurgeNeeded(c, maxCacheSize) then Evicted(c, c', toEvict) else c' == c
  }

  /** What one undisturbed call does to the cache and answers. */
  ghost predicate Called(c: Cache, c': Cache, maxCacheSize: int, toEvict: int,
                         key: string, currSeq: nat, computed: Verdict, seqNow: nat, err: Verdict)
  {
    if key in Consulted(c, currSeq).entries then c' == c && err == c.entries[key]
    else
      && err == computed
      && exists purged :: SomeEvicted(Consulted(c, currSeq), purged, maxCacheSize, toEvict)
                          && c' == if currSeq == seqNow then Stored(purged, key, computed) else purged
  }

  /** Every undisturbed call keeps the cache within its maximum size. */
  ghost predicate SizeBounded(maxCacheSize: int, toEvict: int) {
    forall c: Cache, c': Cache, key: string, currSeq: nat, computed: Verdict, seqNow: nat, err: Verdict
      | |c.entries| <= maxCacheSize && Called(c, c', maxCacheSize, toEvict, key, currSeq, computed, seqNow, err)
      :: |c'.entries| <= maxCacheSize
  }

  /** The size bound holds exactly when the maximum is positive and a purge evicts something (no cache is within a negative one). */
  lemma SizeBoundIff(maxCacheSize: int, toEvict: int)
    ensures SizeBounded(maxCacheSize, toEvict) <==> maxCacheSize < 0 || (maxCacheSize >= 1 && toEvict != 0)
  {
    if maxCacheSize >= 1 && toEvict != 0 {
      forall c: Cache, c': Cache, key: string, currSeq: nat, computed: Verdict, seqNow: nat, err: Verdict
        | |c.entries| <= maxCacheSize && Called(c, c', maxCacheSize, toEvict, key, currSeq, computed, seqNow, err)
        ensures |c'.entries| <= maxCacheSize
      {
        SizeKept(c, c', maxCacheSize, toEvict, key, currSeq, computed, seqNow, err);
      }
    } else if maxCacheSize >= 0 {
      FillerSize(maxCacheSize);
      var full := Cache(0, Filler(maxCacheSize));
      StoredSize(full, "new", None);
      assert SomeEvicted(Consulted(full, 0), full, maxCacheSize, toEvict);
      assert Called(full, Stored(full, "new", None), maxCacheSize, toEvict, "new", 0, None, 0, None);
    }
  }

  /** In terms of the configuration: the product of retention ratio and maximum must not round down to the maximum. */
  lemma SizeBoundRatio(maxCacheSize: int, retained: real)
    ensures RunsBounded(maxCacheSize, EntriesToEvict(maxCacheSize, retained))
       <==> maxCacheSize >= 1 && !(maxCacheSize as real <= retained < maxCacheSize as real + 1.0)
  {
    RunSizeBoundIff(maxCacheSize, EntriesToEvict(maxCacheSize, retained));
    if maxCacheSize >= 1 {
      TruncatesTo(retained, maxCacheSize);
    }
  }

  /** Truncation goes towards zero. */
  lemma TruncatesTo(x: real, n: int)
    ensures Truncate(x) == n <==>
      if n >= 1 then n as real <= x < n as real + 1.0
      else if n == 0 then -1.0 < x < 1.0
      else n as real - 1.0 < x <= n as real
  {
    if x >= 0.0 {
      assert x.Floor as real <= x < x.Floor as real + 1.0;
    } else {
      assert (-x).Floor as real <= -x < (-x).Floor as real + 1.0;
    }
  }

  /** A purge of a full cache leaves the number of entries to retain, rounded down. */
  lemma PurgeRetains(c: Cache, c': Cache, maxCacheSize: int, retained: real)
    requires |c.entries| == maxCacheSize && 0.0 <= retained < maxCacheSize as real + 1.0
    requires Evicted(c, c', EntriesToEvict(maxCacheSize, retained))
    ensures |c'.entries| as real <= retained < |c'.entries| as real + 1.0
  {
    TruncatesTo(retained, |c'.entries|);
  }

  function Zeros(n: nat): string {
    seq(n, _ => '0')
  }

  /** A cache content of any size. */
  function Filler(n: nat): map<string, Verdict> {
    if n == 0 then map[] else Filler(n - 1)[Zeros(n) := None]
  }

  lemma {:induction false} FillerSize(n: nat)
    ensures |Filler(n)| == n && forall k | k in Filler(n) :: |k| <= n && k == Zeros(|k|)
    ensures "new" !in Filler(n)
  {
    if n > 0 {
      FillerSize(n - 1);
      assert Filler(n).Keys == Filler(n - 1).Keys + {Zeros(n)};
    }
    assert "new"[0] != Zeros(3)[0];
  }

  lemma SizeKept(c: Cache, c': Cache, maxCacheSize: int, toEvict: int, key: string, currSeq: nat, computed: Verdict, seqNow: nat, err: Verdict)
    requires maxCacheSize >= 1 && toEvict != 0 && |c.entries| <= maxCacheSize
    requires Called(c, c', maxCacheSize, toEvict, key, currSeq, computed, seqNow, err)
    ensures |c'.entries| <= maxCacheSize
  {
    var before := Consulted(c, currSeq);
    if key !in before.entries {
      var purged :| SomeEvicted(before, purged, maxCacheSize, toEvict)
                    && c' == if currSeq == seqNow then Stored(purged, key, computed) else purged;
      assert |purged.entries| + 1 <= maxCacheSize;
      StoredSize(purged, key, computed);
    }
  }

  lemma StoredSize(c: Cache, key: string, verdict: Verdict)
    ensures |Stored(c, key, verdict).entries| == if key in c.entries then |c.entries| else |c.entries| + 1
  {
    assert Stored(c, key, verdict).entries.Keys == c.entries.Keys + {key};
  }

  // ---------------------------------------------------------------------------
  // What a call answers
  // ---------------------------------------------------------------------------

  /** At a new sequence a call answers what it computes, whatever the cache holds, and the cache then holds nothing else. */
  lemma NewSequenceComputes(c: Cache, c': Cache, maxCacheSize: int, toEvict: int, key: string, currSeq: nat, computed: Verdict, seqNow: nat, err: Verdict)
    requires currSeq != c.lastSequence && Called(c, c', maxCacheSize, toEvict, key, currSeq, computed, seqNow, err)
    ensures err == computed && c'.lastSequence == currSeq
    ensures c'.entries == if seqNow == currSeq then map[key := computed] else map[]
  {
    var purged :| SomeEvicted(Consulted(c, currSeq), purged, maxCacheSize, toEvict)
                  && c' == if currSeq == seqNow then Stored(purged, key, computed) else purged;
    assert purged.entries.Keys <= {};
    assert purged.entries == map[];
  }

  /** A verdict computed while the sequence did not change answers the next call for it at that sequence, which computes nothing. */
  lemma NextCallHits(c: Cache, c': Cache, c'': Cache, maxCacheSize: int, toEvict: int, key: string, sequence: nat, computed: Verdict, err: Verdict,
                     again: Verdict, seqNow: nat, err': Verdict)
    requires Called(c, c', maxCacheSize, toEvict, key, sequence, computed, sequence, err)
    requires Called(c', c'', maxCacheSize, toEvict, key, sequence, again, seqNow, err')
    ensures err' == err && c'' == c'
    ensures err == if sequence == c.lastSequence && key in c.entries then c.entries[key] else computed
  {
  }

  // ---------------------------------------------------------------------------
  // Runs of undisturbed calls
  // ---------------------------------------------------------------------------

  /** A call: its key, the sequences it reads before and after the eligibility check, and the check's answer. */
  datatype Request = Request(key: string, currSeq: nat, computed: Verdict, seqNow: nat)

  ghost predicate Serves(c: Cache, r: Request, c': Cache, maxCacheSize: int, toEvict: int) {
    exists err :: Called(c, c', maxCacheSize, toEvict, r.key, r.currSeq, r.computed, r.seqNow, err)
  }

  /** The caches that a series of calls leaves behind, from a new cache on. */
  ghost predicate IsRun(cs: seq<Cache>, rs: seq<Request>, maxCacheSize: int, toEvict: int) {
    && |cs| == |rs| + 1 && cs[0] == Cache(0, map[])
    && forall i {:trigger rs[i]} | 0 <= i < |rs| :: Serves(cs[i], rs[i], cs[i + 1], maxCacheSize, toEvict)
  }

  /** No series of calls takes a new cache past its maximum size. */
  ghost predicate RunsBounded(maxCacheSize: int, toEvict: int) {
    forall cs: seq<Cache>, rs: seq<Request>, i: int | IsRun(cs, rs, maxCacheSize, toEvict) && 0 <= i < |cs| :: |cs[i].entries| <= maxCacheSize
  }

  lemma {:induction false} RunSize(cs: seq<Cache>, rs: seq<Request>, maxCacheSize: int, toEvict: int, i: nat)
    requires IsRun(cs, rs, maxCacheSize, toEvict) && i < |cs| && maxCacheSize >= 1 && toEvict != 0
    ensures |cs[i].entries| <= maxCacheSize
  {
    if i > 0 {
      RunSize(cs, rs, maxCacheSize, toEvict, i - 1);
      var r := rs[i - 1];
      assert Serves(cs[i - 1], r, cs[i - 1 + 1], maxCacheSize, toEvict);
      var err :| Called(cs[i - 1], cs[i], maxCacheSize, toEvict, r.key, r.currSeq, r.computed, r.seqNow, err);
      SizeKept(cs[i - 1], cs[i], maxCacheSize, toEvict, r.key, r.currSeq, r.computed, r.seqNow, err);
    }
  }

  /** The caches and calls that add one entry after the other. */
  function Fillings(n: nat): seq<Cache> {
    seq(n + 1, (i: nat) => Cache(0, Filler(i)))
  }

  function FillingRequests(n: nat): seq<Request> {
    seq(n, (i: nat) => Request(Zeros(i + 1), 0, None, 0))
  }

  /** A call that finds room or nothing to evict adds its entry. */
  lemma FillingServed(i: nat, maxCacheSize: int, toEvict: int)
    requires toEvict == 0 || i == 0 || i < maxCacheSize
    ensures Serves(Cache(0, Filler(i)), Request(Zeros(i + 1), 0, None, 0), Cache(0, Filler(i + 1)), maxCacheSize, toEvict)
  {
    FillerSize(i);
    var c := Cache(0, Filler(i));
    assert SomeEvicted(Consulted(c, 0), c, maxCacheSize, toEvict);
    assert Called(c, Cache(0, Filler(i + 1)), maxCacheSize, toEvict, Zeros(i + 1), 0, None, 0, None);
  }

  /** `n` calls can fill a new cache with `n` entries up to its maximum size, and past it when a purge evicts nothing. */
  lemma GrowsWithoutBound(maxCacheSize: int, toEvict: int, n: nat)
    requires toEvict == 0 || n <= 1 || n <= maxCacheSize
    ensures IsRun(Fillings(n), FillingRequests(n), maxCacheSize, toEvict) && |Fillings(n)[n].entries| == n
  {
    var cs, rs := Fillings(n), FillingRequests(n);
    assert cs[0] == Cache(0, Filler(0)) && Filler(0) == map[];
    forall i {:trigger rs[i]} | 0 <= i < |rs| ensures Serves(cs[i], rs[i], cs[i + 1], maxCacheSize, toEvict) {
      FillingServed(i, maxCacheSize, toEvict);
    }
    FillerSize(n);
  }

  /** Every series of undisturbed calls stays within the maximum size exactly when that is positive and a purge evicts something. */
  lemma RunSizeBoundIff(maxCacheSize: int, toEvict: int)
    ensures RunsBounded(maxCacheSize, toEvict) <==> maxCacheSize >= 1 && toEvict != 0
  {
    if maxCacheSize >= 1 && toEvict != 0 {
      forall cs: seq<Cache>, rs: seq<Request>, i: int | IsRun(cs, rs, maxCacheSize, toEvict) && 0 <= i < |cs| ensures |cs[i].entries| <= maxCacheSize {
        RunSize(cs, rs, maxCacheSize, toEvict, i);
      }
    } else {
      var n := if maxCacheSize < 0 then 0 else if maxCacheSize == 0 then 1 else maxCacheSize + 1;
      GrowsWithoutBound(maxCacheSize, toEvict, n);
      assert |Fillings(n)[n].entries| > maxCacheSize;
    }
  }
}
