/**
 * No packet is accepted twice: how the timestamp window, the TOTP window and the self-cleaning cache
 * interact over whole runs of verifications (internal/spa/verifier.go:59-88 and 131-150).
 */
module ReplaySafety {
  import opened Arithmetic
  import opened Bytes
  import opened Crypto
  import opened Totp
  import opened Packet
  import opened Verifier
  import Replay

  /** The verifications that reached the locked section, in the order they took the lock. */
  type History = seq<Attempt>

  ghost predicate AllChecked(c: Primitives, cfg: Config, h: History) {
    forall i :: 0 <= i < |h| ==> Sampled(cfg, h[i]) && Precheck(c, cfg, h[i]) == Passed
  }

  function RunOf(c: Primitives, h: History): (run: Replay.Run)
    ensures |run| == |h|
    ensures forall i :: 0 <= i < |h| ==> run[i] == CommitOf(c, h[i])
  {
    seq(|h|, i requires 0 <= i < |h| => CommitOf(c, h[i]))
  }

  predicate Accepted(c: Primitives, h: History, i: nat)
    requires i < |h|
  {
    Replay.Accepted(RunOf(c, h), i)
  }

  /**
   * No clock sample is more than `lag` seconds behind that of an attempt that took the lock before. Every packet has a
   * goroutine of its own, which samples the clock first and takes the lock later.
   */
  ghost predicate AlmostOrdered(h: History, lag: nat) {
    forall i, j :: 0 <= i <= j < |h| ==> h[i].clock <= h[j].clock + lag
  }

  function Timestamp(a: Attempt): int64
    requires Parse(a.data).Parsed?
  {
    Parse(a.data).packet.timestamp
  }

  lemma CheckedParses(c: Primitives, cfg: Config, a: Attempt)
    requires Sampled(cfg, a) && Precheck(c, cfg, a) == Passed
    ensures Parse(a.data).Parsed? && TimestampOk(a.clock, Timestamp(a))
    ensures TotpOk(c, cfg, a, Parse(a.data).packet.totp)
  {
  }

  // ---------------------------------------------------------------- with no assumption on the codes

  lemma FarApart(c: Primitives, h: History, lag: nat, i: nat, j: nat)
    requires i < j < |h| && h[i].data == h[j].data && AlmostOrdered(h, lag)
    requires Accepted(c, h, i) && Accepted(c, h, j)
    ensures h[j].clock - h[i].clock > 300 - lag
  {
    Replay.AcceptancesFarApart(RunOf(c, h), lag, i, j);
  }

  /** A second acceptance is possible only for a packet first accepted before its own timestamp, up to the lag. */
  lemma OnceUnlessEarly(c: Primitives, cfg: Config, h: History, lag: nat, i: nat, j: nat)
    requires AllChecked(c, cfg, h) && AlmostOrdered(h, lag) && lag <= 300
    requires i < j < |h| && h[i].data == h[j].data
    requires Accepted(c, h, i) && Accepted(c, h, j)
    ensures Parse(h[i].data).Parsed?
    ensures Timestamp(h[i]) - 300 <= h[i].clock < Timestamp(h[i]) + lag
    ensures Timestamp(h[i]) - lag < h[j].clock <= Timestamp(h[i]) + 300
  {
    FarApart(c, h, lag, i, j);
    CheckedTimestamps(c, cfg, h[i], h[j]);
  }

  /** The same bytes were accepted at each of these positions, in this order. */
  ghost predicate AcceptedAt(c: Primitives, h: History, at: seq<nat>) {
    && (forall m, n :: 0 <= m < n < |at| ==> at[m] < at[n])
    && (forall m :: 0 <= m < |at| ==> at[m] < |h| && h[at[m]].data == h[at[0]].data && Accepted(c, h, at[m]))
  }

  lemma {:induction false} SpreadOut(c: Primitives, h: History, lag: nat, at: seq<nat>)
    requires AlmostOrdered(h, lag) && AcceptedAt(c, h, at) && at != []
    ensures h[at[|at| - 1]].clock - h[at[0]].clock >= (|at| - 1) * (301 - lag)
  {
    hide AlmostOrdered, Accepted;
    if |at| > 1 {
      var init := at[..|at| - 1];
      SpreadOut(c, h, lag, init);
      FarApart(c, h, lag, init[|init| - 1], at[|at| - 1]);
      OneGapMore(|init| - 1, 301 - lag);
    }
  }

  lemma OneGapMore(n: int, gap: int)
    ensures (n + 1) * gap == n * gap + gap
  {
  }

  /** However often the codes repeat, the acceptances of one packet are so far apart that few fit its ten minutes. */
  lemma AcceptancesBounded(c: Primitives, cfg: Config, h: History, lag: nat, at: seq<nat>)
    requires AllChecked(c, cfg, h) && AlmostOrdered(h, lag) && AcceptedAt(c, h, at) && at != []
    ensures (|at| - 1) * (301 - lag) <= 600
  {
    SpreadOut(c, h, lag, at);
    CheckedTimestamps(c, cfg, h[at[0]], h[at[|at| - 1]]);
  }

  /** In clock order, no packet is ever accepted more than twice. */
  lemma AtMostTwice(c: Primitives, cfg: Config, h: History, i: nat, j: nat, k: nat)
    requires AllChecked(c, cfg, h) && AlmostOrdered(h, 0)
    requires i < j < k < |h| && h[i].data == h[j].data == h[k].data
    ensures !(Accepted(c, h, i) && Accepted(c, h, j) && Accepted(c, h, k))
  {
    if Accepted(c, h, i) && Accepted(c, h, j) && Accepted(c, h, k) {
      CheckedTimestamps(c, cfg, h[i], h[k]);
      hide AlmostOrdered, Accepted, Precheck;
      FarApart(c, h, 0, i, j);
      FarApart(c, h, 0, j, k);
      assert false;
    }
  }

  // ---------------------------------------------------------------- with codes that belong to one counter

  /** Every TOTP validation of the attempt samples the clock within `delay` seconds after the timestamp check did. */
  ghost predicate Prompt(a: Attempt, delay: nat) {
    forall i :: 0 <= i < |a.totpClocks| ==> a.clock <= a.totpClocks[i] <= a.clock + delay
  }

  /** Counters whose window can meet the timestamp window of a packet stamped t. */
  predicate CounterNear(cfg: Config, delay: nat, t: int64, k: int) {
    var reach := 300 + delay + (cfg.totpTolerance + 1) * cfg.totpTimeStep;
    -reach <= k * cfg.totpTimeStep - t <= reach
  }

  /** Around its timestamp, the packet's code is produced by one counter only, whatever the secret. */
  ghost predicate CodeHasOneCounter(c: Primitives, cfg: Config, delay: nat, p: SpaPacket) {
    forall s, s', k, k' ::
      && s in TotpSecrets(cfg) && s' in TotpSecrets(cfg)
      && CounterNear(cfg, delay, p.timestamp, k) && CounterNear(cfg, delay, p.timestamp, k')
      && Code(c, s, k) == p.totp && Code(c, s', k') == p.totp
      ==> k == k'
  }

  /** Two windows' worth of clock, plus what sampling and locking may delay, fit the time the cache surely remembers. */
  predicate WindowFits(cfg: Config, slack: nat) {
    && WindowDefined(cfg)
    && (2 * cfg.totpTolerance + 1) * cfg.totpTimeStep + slack <= 301
  }

  predicate WindowDefined(cfg: Config) {
    cfg.totpTimeStep > 0 && cfg.totpTolerance >= 0
  }

  /** A counter in the window of a clock close to the timestamp is near the timestamp. */
  lemma NearTimestamp(cfg: Config, delay: nat, t: int64, now: Clock, sample: Clock, k: int)
    requires cfg.totpTimeStep > 0 && cfg.totpTolerance >= 0
    requires -300 <= now - t <= 300 && now <= sample <= now + delay
    requires CounterInWindow(cfg.totpTimeStep, cfg.totpTolerance, sample, k)
    ensures CounterNear(cfg, delay, t, k)
  {
    CounterNearClock(cfg.totpTimeStep, cfg.totpTolerance, sample, k);
    assert (cfg.totpTolerance + 1) * cfg.totpTimeStep == cfg.totpTolerance * cfg.totpTimeStep + cfg.totpTimeStep;
  }

  /** The counter that let an attempt through. */
  lemma CounterOf(c: Primitives, cfg: Config, a: Attempt) returns (i: nat, k: int)
    requires Sampled(cfg, a) && Precheck(c, cfg, a) == Passed
    ensures Parse(a.data).Parsed? && i < |TotpSecrets(cfg)|
    ensures CounterInWindow(cfg.totpTimeStep, cfg.totpTolerance, a.totpClocks[i], k)
    ensures Code(c, TotpSecrets(cfg)[i], k) == Parse(a.data).packet.totp
  {
    CheckedParses(c, cfg, a);
    i, k := WindowCounter(c, cfg, a, Parse(a.data).packet.totp);
  }

  lemma WindowCounter(c: Primitives, cfg: Config, a: Attempt, code: u32) returns (i: nat, k: int)
    requires Sampled(cfg, a) && TotpOk(c, cfg, a, code)
    ensures i < |TotpSecrets(cfg)|
    ensures CounterInWindow(cfg.totpTimeStep, cfg.totpTolerance, a.totpClocks[i], k)
    ensures Code(c, TotpSecrets(cfg)[i], k) == code
  {
    i :| 0 <= i < |TotpSecrets(cfg)|
         && InWindow(c, TotpSecrets(cfg)[i], cfg.totpTimeStep, cfg.totpTolerance, a.totpClocks[i], code);
    k :| CounterInWindow(cfg.totpTimeStep, cfg.totpTolerance, a.totpClocks[i], k)
         && Code(c, TotpSecrets(cfg)[i], k) == code;
  }

  /** Two verifications of the same bytes that pass all checks are less than a window and the sampling delay apart. */
  lemma PassesCloseTogether(c: Primitives, cfg: Config, delay: nat, a: Attempt, b: Attempt)
    requires Sampled(cfg, a) && Precheck(c, cfg, a) == Passed && Prompt(a, delay)
    requires Sampled(cfg, b) && Precheck(c, cfg, b) == Passed && Prompt(b, delay)
    requires a.data == b.data && WindowDefined(cfg)
    requires Parse(a.data).Parsed? ==> CodeHasOneCounter(c, cfg, delay, Parse(a.data).packet)
    ensures b.clock - a.clock < (2 * cfg.totpTolerance + 1) * cfg.totpTimeStep + delay
  {
    CheckedTimestamps(c, cfg, a, b);
    if b.clock != a.clock {
      var i, k := CounterOf(c, cfg, a);
      var j, l := CounterOf(c, cfg, b);
      NearTimestamp(cfg, delay, Timestamp(a), a.clock, a.totpClocks[i], k);
      NearTimestamp(cfg, delay, Timestamp(a), b.clock, b.totpClocks[j], l);
      SameCounter(c, cfg, delay, Parse(a.data).packet, TotpSecrets(cfg)[i], TotpSecrets(cfg)[j], k, l);
      SharedCounterClose(cfg, delay, a, b, i, j, k);
    } else {
      MulAtLeast(2 * cfg.totpTolerance + 1, cfg.totpTimeStep);
    }
  }

  lemma SharedCounterClose(cfg: Config, delay: nat, a: Attempt, b: Attempt, i: nat, j: nat, k: int)
    requires WindowDefined(cfg) && Prompt(a, delay) && Prompt(b, delay)
    requires i < |a.totpClocks| && j < |b.totpClocks|
    requires CounterInWindow(cfg.totpTimeStep, cfg.totpTolerance, a.totpClocks[i], k)
    requires CounterInWindow(cfg.totpTimeStep, cfg.totpTolerance, b.totpClocks[j], k)
    ensures b.clock - a.clock < (2 * cfg.totpTolerance + 1) * cfg.totpTimeStep + delay
  {
    WindowWidth(cfg.totpTimeStep, cfg.totpTolerance, a.totpClocks[i], b.totpClocks[j], k);
  }

  /** Away from each other, both clocks are within five minutes of the shared timestamp. */
  lemma CheckedTimestamps(c: Primitives, cfg: Config, a: Attempt, b: Attempt)
    requires Sampled(cfg, a) && Precheck(c, cfg, a) == Passed
    requires Sampled(cfg, b) && Precheck(c, cfg, b) == Passed
    requires a.data == b.data
    ensures Parse(a.data).Parsed?
    ensures b.clock == a.clock
            || (-300 <= a.clock - Timestamp(a) <= 300 && -300 <= b.clock - Timestamp(a) <= 300)
  {
    CheckedParses(c, cfg, a);
    CheckedParses(c, cfg, b);
    TimestampExactly(a.clock, Timestamp(a));
    TimestampExactly(b.clock, Timestamp(a));
  }

  lemma SameCounter(c: Primitives, cfg: Config, delay: nat, p: SpaPacket, s: seq<byte>, s': seq<byte>, k: int, k': int)
    requires CodeHasOneCounter(c, cfg, delay, p)
    requires s in TotpSecrets(cfg) && s' in TotpSecrets(cfg)
    requires CounterNear(cfg, delay, p.timestamp, k) && CounterNear(cfg, delay, p.timestamp, k')
    requires Code(c, s, k) == p.totp && Code(c, s', k') == p.totp
    ensures k == k'
  {
  }

  ghost predicate OneCounterEach(c: Primitives, cfg: Config, delay: nat, h: History) {
    forall i :: 0 <= i < |h| ==>
      Prompt(h[i], delay) && (Parse(h[i].data).Parsed? ==> CodeHasOneCounter(c, cfg, delay, Parse(h[i].data).packet))
  }

  /**
   * No bytes are accepted twice, when the window fits with the sampling delay and the lock lag. No assumption on hash
   * collisions is needed.
   */
  lemma AtMostOnce(c: Primitives, cfg: Config, delay: nat, lag: nat, h: History, i: nat, j: nat)
    requires AllChecked(c, cfg, h) && AlmostOrdered(h, lag)
    requires WindowFits(cfg, delay + lag) && OneCounterEach(c, cfg, delay, h)
    requires i < j < |h| && h[i].data == h[j].data
    ensures !(Accepted(c, h, i) && Accepted(c, h, j))
  {
    if Accepted(c, h, i) && Accepted(c, h, j) {
      FarApart(c, h, lag, i, j);
      PassesCloseTogether(c, cfg, delay, h[i], h[j]);
      assert false;
    }
  }

  ghost predicate NoCollision(c: Primitives, h: History) {
    forall i, j :: 0 <= i < |h| && 0 <= j < |h| && c.sha256(h[i].data) == c.sha256(h[j].data) ==>
      h[i].data == h[j].data
  }

  /**
   * Replay refinement: every verdict of the self-cleaning cache is the verdict of a verifier that remembers
   * every packet for ever.
   */
  lemma RefinesPerfectMemory(c: Primitives, cfg: Config, delay: nat, lag: nat, h: History, i: nat)
    requires AllChecked(c, cfg, h) && AlmostOrdered(h, lag) && NoCollision(c, h)
    requires WindowFits(cfg, delay + lag) && OneCounterEach(c, cfg, delay, h)
    requires i < |h|
    ensures Accepted(c, h, i) <==> forall j :: 0 <= j < i ==> h[j].data != h[i].data
  {
    var run := RunOf(c, h);
    forall m, n | 0 <= m < n < |run| && run[m].key == run[n].key
      ensures run[n].clock - run[m].clock <= Replay.MAX_TIME_DIFF - lag
    {
      PassesCloseTogether(c, cfg, delay, h[m], h[n]);
    }
    Replay.RefinesNeverForgetting(run, lag, i);
    assert Replay.NeverSeen(run, i) <==> forall j :: 0 <= j < i ==> h[j].data != h[i].data;
  }
}
