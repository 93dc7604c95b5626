/**
 * The replay cache over whole runs (internal/spa/verifier.go:131-150). A run is the sequence of entries
 * into the locked section; each carries the hash of its packet and the clock sampled before the lock.
 */
module Replay {
  import opened Bytes
  import opened Crypto
  import opened Totp

  const MAX_TIME_DIFF := 300
  const CLEANUP_ABOVE := 1000

  type Cache = map<Hash32, Clock>

  datatype Commit = Commit(key: Hash32, clock: Clock)

  type Run = seq<Commit>

  /** The locked section's cleanup: only a cache of more than 1000 entries is pruned. */
  function Cleaned(cache: Cache, now: Clock): Cache {
    if |cache| > CLEANUP_ABOVE then map k | k in cache && now - cache[k] <= MAX_TIME_DIFF :: cache[k] else cache
  }

  predicate Fresh(cache: Cache, c: Commit) {
    c.key !in Cleaned(cache, c.clock)
  }

  function After(cache: Cache, c: Commit): Cache {
    var kept := Cleaned(cache, c.clock);
    if c.key in kept then kept else kept[c.key := c.clock]
  }

  /** The cache once the whole run is done, starting empty. */
  function CacheAfter(run: Run): Cache {
    if run == [] then map[] else After(CacheAfter(run[..|run| - 1]), run[|run| - 1])
  }

  function CacheBefore(run: Run, i: nat): Cache
    requires i <= |run|
  {
    CacheAfter(run[..i])
  }

  predicate Accepted(run: Run, i: nat)
    requires i < |run|
  {
    Fresh(CacheBefore(run, i), run[i])
  }

  /** A commit that prunes the cache. */
  predicate CleansUp(run: Run, x: nat)
    requires x < |run|
  {
    |CacheBefore(run, x)| > CLEANUP_ABOVE
  }

  /** No commit's clock is more than `lag` seconds behind that of a commit that took the lock before it. */
  ghost predicate AlmostOrdered(run: Run, lag: nat) {
    forall i, j :: 0 <= i <= j < |run| ==> run[i].clock <= run[j].clock + lag
  }

  lemma CacheStep(run: Run, i: nat)
    requires i < |run|
    ensures CacheBefore(run, i + 1) == After(CacheBefore(run, i), run[i])
  {
    assert run[..i + 1][..i] == run[..i];
  }

  /** The exact verdict of one commit: refused if and only if its hash is cached and not pruned on the way in. */
  lemma RefusedExactly(cache: Cache, c: Commit)
    ensures !Fresh(cache, c) <==>
            c.key in cache && (|cache| <= CLEANUP_ABOVE || c.clock - cache[c.key] <= MAX_TIME_DIFF)
  {
  }

  // ---------------------------------------------------------------- between two acceptances

  /** A cleanup between i and j whose clock is more than 300 s past that of commit i. */
  ghost predicate CleanupPast(run: Run, i: nat, j: nat)
    requires i < j <= |run|
  {
    exists x :: i < x < j && CleansUp(run, x) && run[x].clock - run[i].clock > MAX_TIME_DIFF
  }

  /** The entry commit i made is still there before commit j. */
  predicate StillCached(run: Run, i: nat, j: nat)
    requires i < |run| && j <= |run|
  {
    run[i].key in CacheBefore(run, j) && CacheBefore(run, j)[run[i].key] == run[i].clock
  }

  lemma CachedByAcceptance(run: Run, i: nat)
    requires i < |run| && Accepted(run, i)
    ensures StillCached(run, i, i + 1)
  {
    CacheStep(run, i);
  }

  /** One commit keeps the entry, or is a cleanup more than 300 s later. */
  lemma KeptOrCleaned(run: Run, i: nat, j: nat)
    requires i < j < |run| && StillCached(run, i, j)
    ensures StillCached(run, i, j + 1) || (CleansUp(run, j) && run[j].clock - run[i].clock > MAX_TIME_DIFF)
  {
    CacheStep(run, j);
  }

  lemma CleanupPastLonger(run: Run, i: nat, j: nat)
    requires i < j < |run| && CleanupPast(run, i, j)
    ensures CleanupPast(run, i, j + 1)
  {
    var x :| i < x < j && CleansUp(run, x) && run[x].clock - run[i].clock > MAX_TIME_DIFF;
    assert i < x < j + 1;
  }

  /** An accepted hash stays cached with its clock until a cleanup more than 300 s later removes it. */
  lemma {:induction false} StaysUntilCleanup(run: Run, i: nat, j: nat)
    requires i < j <= |run| && Accepted(run, i)
    ensures CleanupPast(run, i, j) || StillCached(run, i, j)
    decreases j
  {
    hide CacheBefore, CacheAfter, After, Cleaned;
    if j == i + 1 {
      CachedByAcceptance(run, i);
    } else {
      StaysUntilCleanup(run, i, j - 1);
      if CleanupPast(run, i, j - 1) {
        CleanupPastLonger(run, i, j - 1);
      } else {
        KeptOrCleaned(run, i, j - 1);
      }
    }
  }

  /**
   * In any interleaving: between two acceptances of one hash lies a cleanup, at the latest the second
   * acceptance's own, whose sampled clock is more than 300 s past that of the first acceptance.
   */
  lemma CleanupBetweenAcceptances(run: Run, i: nat, j: nat)
    requires i < j < |run| && run[i].key == run[j].key
    requires Accepted(run, i) && Accepted(run, j)
    ensures CleanupPast(run, i, j + 1)
  {
    StaysUntilCleanup(run, i, j);
    if CleanupPast(run, i, j) {
      var x :| i < x < j && CleansUp(run, x) && run[x].clock - run[i].clock > MAX_TIME_DIFF;
      assert i < x < j + 1;
    } else {
      RefusedExactly(CacheBefore(run, j), run[j]);
      assert i < j < j + 1 && CleansUp(run, j);
    }
  }

  /** The hash is not cached before commit j. */
  predicate Forgotten(run: Run, k: Hash32, j: nat)
    requires j <= |run|
  {
    k !in CacheBefore(run, j)
  }

  /** A commit that does not accept the hash cannot bring it into the cache. */
  lemma StaysForgotten(run: Run, k: Hash32, j: nat)
    requires j < |run| && Forgotten(run, k, j) && !(run[j].key == k && Accepted(run, j))
    ensures run[j].key != k && Forgotten(run, k, j + 1)
  {
    CacheStep(run, j);
  }

  /** A cleanup late enough removes the entry, unless that very commit is a new acceptance. */
  lemma CleanupRemoves(run: Run, i: nat, x: nat)
    requires i < x < |run| && StillCached(run, i, x)
    requires CleansUp(run, x) && run[x].clock - run[i].clock > MAX_TIME_DIFF
    requires !(run[x].key == run[i].key && Accepted(run, x))
    ensures Forgotten(run, run[i].key, x + 1)
  {
    CacheStep(run, x);
  }

  /** Commit i is the latest acceptance of its hash before commit j. */
  ghost predicate LatestAcceptance(run: Run, i: nat, j: nat)
    requires i < j <= |run|
  {
    Accepted(run, i) && forall m :: i < m < j && run[m].key == run[i].key ==> !Accepted(run, m)
  }

  /** Until it is accepted again, a hash is cached or forgotten according to whether a late cleanup has been. */
  lemma {:induction false} CachedUnlessCleaned(run: Run, i: nat, j: nat)
    requires i < j <= |run| && LatestAcceptance(run, i, j)
    ensures if CleanupPast(run, i, j) then Forgotten(run, run[i].key, j) else StillCached(run, i, j)
    decreases j
  {
    hide CacheBefore, CacheAfter, After, Cleaned;
    if j == i + 1 {
      CachedByAcceptance(run, i);
    } else {
      var m := j - 1;
      CachedUnlessCleaned(run, i, m);
      if CleanupPast(run, i, m) {
        CleanupPastLonger(run, i, m);
        StaysForgotten(run, run[i].key, m);
      } else if CleansUp(run, m) && run[m].clock - run[i].clock > MAX_TIME_DIFF {
        assert i < m < j;
        CleanupRemoves(run, i, m);
      } else {
        KeptOrCleaned(run, i, m);
        NoNewCleanup(run, i, m);
      }
    }
  }

  lemma NoNewCleanup(run: Run, i: nat, m: nat)
    requires i < m < |run| && !CleanupPast(run, i, m)
    requires !(CleansUp(run, m) && run[m].clock - run[i].clock > MAX_TIME_DIFF)
    ensures !CleanupPast(run, i, m + 1)
  {
  }

  /**
   * The exact condition, in every interleaving: a commit of a hash accepted before is accepted if and only if a
   * cleanup more than 300 s past the latest acceptance has been since, at the latest its own.
   */
  lemma AcceptedAgainExactly(run: Run, i: nat, j: nat)
    requires i < j < |run| && run[i].key == run[j].key && LatestAcceptance(run, i, j)
    ensures Accepted(run, j) <==> CleanupPast(run, i, j + 1)
  {
    CachedUnlessCleaned(run, i, j);
    if CleanupPast(run, i, j) {
      CleanupPastLonger(run, i, j);
    } else if CleansUp(run, j) && run[j].clock - run[i].clock > MAX_TIME_DIFF {
      assert i < j < j + 1;
    } else {
      NoNewCleanup(run, i, j);
    }
  }

  /** With commits at most `lag` seconds out of clock order, two acceptances of one hash are over 300 - lag s apart. */
  lemma AcceptancesFarApart(run: Run, lag: nat, i: nat, j: nat)
    requires i < j < |run| && run[i].key == run[j].key
    requires Accepted(run, i) && Accepted(run, j)
    requires AlmostOrdered(run, lag)
    ensures run[j].clock - run[i].clock > MAX_TIME_DIFF - lag
  {
    CleanupBetweenAcceptances(run, i, j);
    var x :| i < x < j + 1 && CleansUp(run, x) && run[x].clock - run[i].clock > MAX_TIME_DIFF;
  }

  // ---------------------------------------------------------------- against a set that never forgets

  /** The verdict of a cache from which nothing is ever deleted: new means never committed before. */
  predicate NeverSeen(run: Run, i: nat)
    requires i < |run|
  {
    forall j :: 0 <= j < i ==> run[j].key != run[i].key
  }

  /** No hash comes back more than 300 - lag seconds after an earlier commit of it. */
  ghost predicate NoLateRepeat(run: Run, lag: nat) {
    forall i, j :: 0 <= i < j < |run| && run[i].key == run[j].key ==> run[j].clock - run[i].clock <= MAX_TIME_DIFF - lag
  }

  lemma {:induction false} CachedWasCommitted(run: Run, i: nat, k: Hash32)
    requires i <= |run| && k in CacheBefore(run, i)
    ensures exists j :: 0 <= j < i && run[j].key == k
    decreases i
  {
    if i > 0 {
      CacheStep(run, i - 1);
      if k in CacheBefore(run, i - 1) {
        CachedWasCommitted(run, i - 1, k);
      }
    }
  }

  /** A hash that was ever committed was accepted the first time. */
  lemma {:induction false} FirstCommitAccepted(run: Run, j: nat) returns (f: nat)
    requires j < |run|
    ensures f <= j && run[f].key == run[j].key && Accepted(run, f)
    ensures NeverSeen(run, f)
    decreases j
  {
    if NeverSeen(run, j) {
      f := j;
      if !Accepted(run, j) {
        CachedWasCommitted(run, j, run[j].key);
      }
    } else {
      var k :| 0 <= k < j && run[k].key == run[j].key;
      f := FirstCommitAccepted(run, k);
    }
  }

  /** Forgetting is then not observable: every commit gets the verdict of the set that never forgets. */
  lemma RefinesNeverForgetting(run: Run, lag: nat, i: nat)
    requires i < |run| && AlmostOrdered(run, lag) && NoLateRepeat(run, lag)
    ensures Accepted(run, i) <==> NeverSeen(run, i)
  {
    var f := FirstCommitAccepted(run, i);
    if f < i && Accepted(run, i) {
      AcceptancesFarApart(run, lag, f, i);
    }
  }

  // ---------------------------------------------------------------- size of the cache

  /** Acceptances whose clock is at or after `since`. */
  function AcceptedSince(run: Run, since: int): nat {
    if run == [] then 0
    else
      var last := |run| - 1;
      AcceptedSince(run[..last], since)
      + (if Fresh(CacheAfter(run[..last]), run[last]) && run[last].clock >= since then 1 else 0)
  }

  function Recent(cache: Cache, since: int): set<Hash32> {
    set k | k in cache && cache[k] >= since
  }

  /** However commits interleave, the cache never holds more recent entries than there were recent acceptances. */
  lemma {:induction false} RecentEntriesBounded(run: Run, since: int)
    ensures |Recent(CacheAfter(run), since)| <= AcceptedSince(run, since)
  {
    if run != [] {
      var last := |run| - 1;
      var before, c := CacheAfter(run[..last]), run[last];
      RecentEntriesBounded(run[..last], since);
      RecentAfterStep(before, c, since);
    }
  }

  lemma RecentAfterStep(before: Cache, c: Commit, since: int)
    ensures |Recent(After(before, c), since)|
            <= |Recent(before, since)| + (if Fresh(before, c) && c.clock >= since then 1 else 0)
  {
    var kept := Cleaned(before, c.clock);
    var limit := Recent(before, since) + (if Fresh(before, c) && c.clock >= since then {c.key} else {});
    SubsetSize(Recent(After(before, c), since), limit);
  }

  lemma {:induction false} SubsetSize<T>(a: set<T>, b: set<T>)
    requires a <= b
    ensures |a| <= |b|
  {
    if a != {} {
      var x :| x in a;
      SubsetSize(a - {x}, b - {x});
    }
  }

  /**
   * After every commit, in any interleaving, the cache holds at most 1001 entries or no more than the
   * acceptances of the last 300 s, this one included.
   */
  lemma CacheBound(run: Run, since: int)
    requires run != [] && since == run[|run| - 1].clock - MAX_TIME_DIFF
    ensures |CacheAfter(run)| <= CLEANUP_ABOVE + 1 || |CacheAfter(run)| <= AcceptedSince(run, since)
  {
    var before, c := CacheAfter(run[..|run| - 1]), run[|run| - 1];
    assert CacheAfter(run) == After(before, c);
    RecentEntriesBounded(run, since);
    if |before| > CLEANUP_ABOVE {
      CleanedIsRecent(before, c, since);
    } else {
      SmallStep(before, c);
    }
  }

  lemma CleanedIsRecent(before: Cache, c: Commit, since: int)
    requires |before| > CLEANUP_ABOVE && since == c.clock - MAX_TIME_DIFF
    ensures |Recent(After(before, c), since)| == |After(before, c)|
  {
    var all := After(before, c);
    assert Recent(all, since) == all.Keys;
  }

  lemma SmallStep(before: Cache, c: Commit)
    requires |before| <= CLEANUP_ABOVE
    ensures |After(before, c)| <= CLEANUP_ABOVE + 1
  {
    SubsetSize(After(before, c).Keys, before.Keys + {c.key});
  }

  // ---------------------------------------------------------------- the cache alone does forget

  function NthKey(n: nat): Hash32 {
    seq(30, _ => 0) + BigEndian(2, n)
  }

  lemma KeysDiffer(m: nat, n: nat)
    requires m < n < 0x1_0000
    ensures NthKey(m) != NthKey(n)
  {
    Pow256Widths();
    ValueOfBigEndian(2, m);
    ValueOfBigEndian(2, n);
    assert NthKey(m)[30..] == BigEndian(2, m) && NthKey(n)[30..] == BigEndian(2, n);
  }

  /** The first n commits carry different hashes, all with the same clock. */
  ghost predicate Distinct(run: Run, n: nat, clock: Clock)
    requires n <= |run|
  {
    && (forall i :: 0 <= i < n ==> run[i].clock == clock)
    && (forall i, j :: 0 <= i < j < n ==> run[i].key != run[j].key)
  }

  lemma {:induction false} DistinctFillsCache(run: Run, n: nat, clock: Clock)
    requires n <= |run| && n <= CLEANUP_ABOVE + 1 && Distinct(run, n, clock)
    ensures |CacheBefore(run, n)| == n
    ensures forall k :: k in CacheBefore(run, n) ==> CacheBefore(run, n)[k] == clock
  {
    if n > 0 {
      DistinctFillsCache(run, n - 1, clock);
      CacheStep(run, n - 1);
      var before := CacheBefore(run, n - 1);
      if run[n - 1].key in before {
        CachedWasCommitted(run, n - 1, run[n - 1].key);
      }
      InsertFresh(before, run[n - 1]);
    }
  }

  lemma InsertFresh(cache: Cache, c: Commit)
    requires |cache| <= CLEANUP_ABOVE && c.key !in cache
    ensures After(cache, c) == cache[c.key := c.clock] && |After(cache, c)| == |cache| + 1
  {
    assert cache[c.key := c.clock].Keys == cache.Keys + {c.key};
  }

  /**
   * One hash more than the limit at one time, a new one 301 s later, which empties the cache, and then the first one
   * again with a clock up to 301 s behind.
   */
  ghost predicate FloodThenRepeat(run: Run, clock: Clock, behind: nat) {
    && |run| == CLEANUP_ABOVE + 3 && behind <= 301
    && (forall i :: 0 <= i <= CLEANUP_ABOVE ==> run[i] == Commit(NthKey(i), clock))
    && run[CLEANUP_ABOVE + 1].key == NthKey(CLEANUP_ABOVE + 1) && run[CLEANUP_ABOVE + 1].clock == clock + 301
    && run[CLEANUP_ABOVE + 2].key == NthKey(0) && run[CLEANUP_ABOVE + 2].clock == clock + 301 - behind
  }

  /** Such a run is as far out of clock order as its last clock is behind, and accepts the first hash twice. */
  lemma FloodForgotten(run: Run, clock: Clock, behind: nat)
    requires FloodThenRepeat(run, clock, behind)
    ensures AlmostOrdered(run, behind) && Accepted(run, 0) && Accepted(run, CLEANUP_ABOVE + 2)
  {
    hide NthKey;
    var n := CLEANUP_ABOVE + 1;
    forall i, j | 0 <= i < j <= n
      ensures run[i].key != run[j].key
    {
      KeysDiffer(i, j);
    }
    DistinctFillsCache(run, n, clock);
    EmptiedByCleanup(CacheBefore(run, n), run[n]);
    CacheStep(run, n);
    assert run[..0] == [];
  }

  /** A cleanup that finds every entry too old leaves only the commit's own. */
  lemma EmptiedByCleanup(cache: Cache, c: Commit)
    requires |cache| > CLEANUP_ABOVE && forall k :: k in cache ==> c.clock - cache[k] > MAX_TIME_DIFF
    ensures After(cache, c) == map[c.key := c.clock]
  {
  }

  /** What the packet-level checks must rule out: by itself the cache accepts the same hash again after 301 s. */
  lemma CacheAloneForgets()
    ensures exists run: Run, i: nat, j: nat :: i < j < |run| && AlmostOrdered(run, 0) && run[i].key == run[j].key
                                              && Accepted(run, i) && Accepted(run, j)
  {
    var n := CLEANUP_ABOVE + 1;
    var run := seq(n, i requires 0 <= i < n => Commit(NthKey(i), 0)) + [Commit(NthKey(n), 301), Commit(NthKey(0), 301)];
    FloodForgotten(run, 0, 0);
  }
}
