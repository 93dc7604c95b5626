/**
 * That the assumptions of ReplaySafety.AtMostOnce are needed: histories of sealed packets in which a verifier
 * accepts the same bytes twice (internal/spa/verifier.go:59-150).
 */
module ReplayWitness {
  import opened Arithmetic
  import opened Bytes
  import opened Crypto
  import opened Totp
  import opened Packet
  import opened Verifier
  import opened ReplaySafety
  import Replay

  const SECRET: seq<byte> := [7]
  const SENDER: seq<byte> := [0, 0, 0, 0]
  const FLOOD := Replay.CLEANUP_ABOVE + 1

  /** Two acceptances of the same bytes by a verifier that made every check, with no hash collision to blame. */
  ghost predicate AcceptedTwice(c: Primitives, cfg: Config, lag: nat, h: History, i: nat, j: nat)
    requires i < j < |h|
  {
    && AllChecked(c, cfg, h) && AlmostOrdered(h, lag) && NoCollision(c, h)
    && h[i].data == h[j].data && Accepted(c, h, i) && Accepted(c, h, j)
  }

  // ---------------------------------------------------------------- a flood of packets and a late repetition

  /**
   * The flood arrives at `flood` and its codes are checked at `sample`. Another packet comes 301 s after the flood, and
   * the first one again with a clock `behind` seconds before that.
   */
  datatype Plan = Plan(flood: Clock, sample: Clock, behind: nat, code: u32, lastCode: u32)
  {
    predicate Early() {
      flood <= 100_000 && behind <= 301
    }

    function Stamp(): Clock
      requires Early()
    {
      flood + 300
    }

    function Again(): Clock
      requires Early()
    {
      flood + 301 - behind
    }

    function Last(): Clock
      requires Early()
    {
      flood + 301
    }

    /** Which packet attempt i brings, and the clock samples it is checked with. */
    function Number(i: nat): nat {
      if i <= FLOOD then i else 0
    }

    function ClockOf(i: nat): Clock
      requires Early()
    {
      if i < FLOOD then flood else if i == FLOOD then Last() else Again()
    }

    function SampleOf(i: nat): Clock
      requires Early()
    {
      if i < FLOOD then sample else ClockOf(i)
    }

    function CodeOf(n: nat): u32 {
      if n == FLOOD then lastCode else code
    }
  }

  /** Packets that differ in their padding, and the last one in its code. */
  function FloodPacket(c: Primitives, p: Plan, n: nat): SpaPacket
    requires p.Early()
  {
    SealedPacket(c, Hmac, SECRET, p.CodeOf(n), p.Stamp(), SENDER, Replay.NthKey(n))
  }

  function Sent(c: Primitives, p: Plan, i: nat): Attempt
    requires p.Early()
  {
    Attempt(Encode(FloodPacket(c, p, p.Number(i))), SENDER, p.ClockOf(i), [p.SampleOf(i)])
  }

  /** One packet more than the cache's limit, a last one late enough for a cleanup, and the first one again. */
  function Flood(c: Primitives, p: Plan): (h: History)
    requires p.Early()
    ensures |h| == FLOOD + 2 && forall i :: 0 <= i < |h| ==> h[i] == Sent(c, p, i)
  {
    seq(FLOOD + 2, i requires 0 <= i < FLOOD + 2 => Sent(c, p, i))
  }

  /** The hash that reads off the padding. */
  function PaddingHash(data: seq<byte>): Hash32 {
    if |data| >= 62 then data[30..62] else seq(32, _ => 0)
  }

  lemma FloodHash(c: Primitives, p: Plan, n: nat)
    requires p.Early()
    ensures PaddingHash(Encode(FloodPacket(c, p, n))) == Replay.NthKey(n)
  {
    CreatedRoundTrip(c, Hmac, SECRET, p.CodeOf(n), p.Stamp(), SENDER, Replay.NthKey(n));
    EncodedFields(FloodPacket(c, p, n));
  }

  /** The server knows the one secret, for codes and for seals. */
  predicate KnowsSecret(cfg: Config) {
    cfg.mode.DynamicMode? && cfg.totpTimeStep > 0 && TotpSecrets(cfg) == [SECRET] && Keys(cfg) == [SECRET]
  }

  lemma SentPasses(c: Primitives, cfg: Config, p: Plan, i: nat)
    requires KnowsSecret(cfg) && p.Early()
    requires InWindow(c, SECRET, cfg.totpTimeStep, cfg.totpTolerance, p.SampleOf(i), p.CodeOf(p.Number(i)))
    ensures Sampled(cfg, Sent(c, p, i)) && Precheck(c, cfg, Sent(c, p, i)) == Passed
  {
    var a, n := Sent(c, p, i), p.Number(i);
    assert TotpSecrets(cfg)[0] == SECRET && a.totpClocks[0] == p.SampleOf(i);
    assert TotpOk(c, cfg, a, p.CodeOf(n));
    assert Keys(cfg)[0] == SECRET;
    SealedPasses(c, cfg, Hmac, SECRET, p.CodeOf(n), p.Stamp(), SENDER, Replay.NthKey(n), a);
  }

  lemma FloodRun(c: Primitives, p: Plan)
    requires c.sha256 == PaddingHash && p.Early()
    ensures Replay.FloodThenRepeat(RunOf(c, Flood(c, p)), p.flood, p.behind)
  {
    hide FloodPacket;
    var run := RunOf(c, Flood(c, p));
    forall i | 0 <= i < |run|
      ensures run[i] == Replay.Commit(Replay.NthKey(p.Number(i)), p.ClockOf(i))
    {
      FloodHash(c, p, p.Number(i));
    }
  }

  lemma FloodKeysDiffer(c: Primitives, p: Plan)
    requires c.sha256 == PaddingHash && p.Early()
    ensures NoCollision(c, Flood(c, p))
  {
    hide Flood, FloodPacket, RunOf, Replay.NthKey;
    var h := Flood(c, p);
    forall i, j | 0 <= i < |h| && 0 <= j < |h| && HashOf(c, h[i].data) == HashOf(c, h[j].data)
      ensures h[i].data == h[j].data
    {
      var m, n := p.Number(i), p.Number(j);
      FloodHash(c, p, m);
      FloodHash(c, p, n);
      if m < n {
        Replay.KeysDiffer(m, n);
      } else if n < m {
        Replay.KeysDiffer(n, m);
      }
    }
  }

  /** If every check finds its code in the window, the first packet is accepted twice. */
  lemma FloodAcceptedTwice(c: Primitives, cfg: Config, p: Plan)
    requires c.sha256 == PaddingHash && KnowsSecret(cfg) && p.Early()
    requires InWindow(c, SECRET, cfg.totpTimeStep, cfg.totpTolerance, p.sample, p.code)
    requires InWindow(c, SECRET, cfg.totpTimeStep, cfg.totpTolerance, p.Last(), p.lastCode)
    requires InWindow(c, SECRET, cfg.totpTimeStep, cfg.totpTolerance, p.Again(), p.code)
    ensures AcceptedTwice(c, cfg, p.behind, Flood(c, p), 0, FLOOD + 1)
  {
    hide Flood, FloodPacket, RunOf, Replay.NthKey, InWindow;
    var h := Flood(c, p);
    FloodRun(c, p);
    forall i | 0 <= i < |h|
      ensures Sampled(cfg, h[i]) && Precheck(c, cfg, h[i]) == Passed
    {
      SentPasses(c, cfg, p, i);
    }
    Replay.FloodForgotten(RunOf(c, h), p.flood, p.behind);
    FloodKeysDiffer(c, p);
  }

  // ---------------------------------------------------------------- primitives for the witnesses

  function ZeroMac20(key: seq<byte>, message: seq<byte>): Hash20 {
    seq(20, _ => 0)
  }

  function ZeroMac32(key: seq<byte>, message: seq<byte>): Hash32 {
    seq(32, _ => 0)
  }

  function ZeroSignature(key: seq<byte>, message: seq<byte>): Signature64 {
    seq(64, _ => 0)
  }

  predicate NoSignature(key: seq<byte>, message: seq<byte>, signature: Signature64) {
    false
  }

  function WithMac(mac: (seq<byte>, seq<byte>) -> Hash20): Primitives {
    Primitives(mac, ZeroMac32, PaddingHash, ZeroSignature, NoSignature)
  }

  function ServerConfig(timeStep: int, tolerance: int): Config {
    Config(DynamicMode, timeStep, tolerance, SECRET, [], [], [], SECRET, [], 60)
  }

  lemma {:induction false} ValueOfZeros(s: seq<byte>)
    requires forall i :: 0 <= i < |s| ==> s[i] == 0
    ensures Value(s) == 0
  {
    if s != [] {
      ValueOfZeros(s[..|s| - 1]);
    }
  }

  // ---------------------------------------------------------------- a code that comes back

  /**
   * In clock order and with the default step of 30 s and tolerance of 1, which satisfy WindowFits, but every counter
   * giving the same code.
   */
  lemma RepeatedCodeAcceptedTwice()
    ensures WindowFits(ServerConfig(30, 1), 0)
    ensures var c, p := WithMac(ZeroMac20), Plan(0, 0, 0, 0, 0);
            AcceptedTwice(c, ServerConfig(30, 1), 0, Flood(c, p), 0, FLOOD + 1)
  {
    hide Code;
    ZeroCode(0);
    ZeroCode(10);
    assert CounterInWindow(30, 1, 0, 0) && CounterInWindow(30, 1, 301, 10);
    FloodAcceptedTwice(WithMac(ZeroMac20), ServerConfig(30, 1), Plan(0, 0, 0, 0, 0));
  }

  lemma ZeroCode(k: int)
    ensures Code(WithMac(ZeroMac20), SECRET, k) == 0
  {
    ValueOfZeros(ZeroMac20(SECRET, BigEndian(8, Wrap64(k)))[0..4]);
  }

  // ---------------------------------------------------------------- a window too wide

  function MarkedMac(k: u64, l: u64, message: seq<byte>): Hash20 {
    [0, 0, 0, if message == BigEndian(8, k) then 1 else if message == BigEndian(8, l) then 2 else 0] + seq(16, _ => 0)
  }

  /** Counter k has code 1, counter l if it is another one code 2, and all other 64-bit counters code 0. */
  function Marked(k: u64, l: u64): Primitives {
    WithMac((key: seq<byte>, message: seq<byte>) => MarkedMac(k, l, message))
  }

  function MarkOf(k: u64, l: u64, x: u64): u32 {
    if x == k then 1 else if x == l then 2 else 0
  }

  lemma SameMessage(k: u64, l: u64)
    ensures BigEndian(8, k) == BigEndian(8, l) <==> k == l
  {
    Pow256Widths();
    ValueOfBigEndian(8, k);
    ValueOfBigEndian(8, l);
  }

  lemma MarkedCode(k: u64, l: u64, x: int)
    ensures Code(Marked(k, l), SECRET, x) == MarkOf(k, l, Wrap64(x))
  {
    hide Wrap64, BigEndian;
    SameMessage(Wrap64(x), k);
    SameMessage(Wrap64(x), l);
    var hash := MarkedMac(k, l, BigEndian(8, Wrap64(x)));
    assert hash[19] == 0;
    assert hash[0..4] == [0, 0, 0, hash[3]] && hash[0..4][..3] == [0, 0, 0];
    ValueOfZeros([0, 0, 0]);
  }

  /** The numbers the exclusion of replays depends on: step, tolerance, sampling delay and lock lag. */
  datatype Setting = Setting(timeStep: int, tolerance: nat, delay: nat, lag: nat)
  {
    predicate Sane() {
      timeStep > 0 && tolerance < 0x4000_0000_0000_0000 && delay < 0x4000_0000_0000_0000
    }

    function Server(): Config {
      ServerConfig(timeStep, tolerance)
    }

    predicate Fits() {
      WindowFits(Server(), delay + lag)
    }

    /** How far behind the repetition's clock is; more than 301 s is no use. */
    function Behind(): nat {
      if lag <= 301 then lag else 301
    }

    /** The latest sampling of the flood's codes, counted from its arrival; later than the repetition is no use. */
    function Late(): (d: nat)
      ensures d <= 301 - Behind()
    {
      if delay <= 301 - Behind() then delay else 301 - Behind()
    }

    /** The step the late samples are in. */
    function SampleStep(): (q: nat)
      ensures q <= 301
    {
      if timeStep > 301 then 0 else Late()
    }

    /** The flood arrives so that its late samples meet the start of a step, or all of it falls into step 0. */
    function Arrival(): (t: Clock)
      requires timeStep > 0
      ensures t <= 100_000
    {
      if timeStep > 301 then 0
      else
        ProductBound(timeStep - 1, 300, Late(), 301);
        (timeStep - 1) * Late()
    }

    /** The last counter that is in the window of the late samples. */
    function Mark(): (k: nat)
      ensures k <= tolerance + 301
    {
      SampleStep() + tolerance
    }

    /** The counter of the last packet's own clock. */
    function LastMark(): (k: nat)
      requires timeStep > 0
      ensures k <= 100_301
    {
      SmallerQuotient(Arrival() + 301, timeStep);
      (Arrival() + 301) / timeStep
    }

    function Schedule(): (p: Plan)
      requires timeStep > 0
      ensures p.Early() && p.behind == Behind() && p.sample == p.flood + Late()
    {
      Plan(Arrival(), Arrival() + Late(), Behind(), 1, if LastMark() == Mark() then 1 else 2)
    }

    function Hashes(): Primitives
      requires Sane()
    {
      Marked(Mark(), LastMark())
    }

    function Packets(): History
      requires Sane()
    {
      Flood(Hashes(), Schedule())
    }
  }

  lemma SmallerQuotient(x: nat, d: int)
    requires d > 0
    ensures 0 <= x / d <= x
  {
    FloorBounds(x, d);
    StretchedAtLeast(x / d, d);
  }

  lemma ProductBound(x: nat, xMax: nat, y: nat, yMax: nat)
    requires x <= xMax && y <= yMax
    ensures 0 <= x * y <= xMax * yMax
  {
    assert x * y <= xMax * y && xMax * y <= xMax * yMax;
  }

  lemma SampleStepIs(s: Setting)
    requires s.timeStep > 0
    ensures GoDiv(s.Schedule().sample, s.timeStep) == s.SampleStep()
  {
    var q, sample := s.SampleStep(), s.Schedule().sample;
    if s.timeStep <= 301 {
      Distribute(s.timeStep - 1, 1, q);
      assert sample == s.timeStep * q == q * s.timeStep;
    }
    FloorUnique(sample, s.timeStep, q);
  }

  /** If the windows do not fit, one counter is in the window of the late samples and of the repetition's clock. */
  lemma WideWindows(s: Setting)
    requires s.timeStep > 0 && !s.Fits()
    ensures CounterInWindow(s.timeStep, s.tolerance, s.Schedule().sample, s.Mark())
    ensures CounterInWindow(s.timeStep, s.tolerance, s.Schedule().Again(), s.Mark())
  {
    var p, q, d := s.Schedule(), s.SampleStep(), s.timeStep;
    SampleStepIs(s);
    if d > 301 {
      FloorUnique(p.Again(), d, 0);
    } else {
      Distribute(d - 1, 1, q);
      assert p.sample == d * q == q * d;
      MulAtLeast(2 * s.tolerance + 1, d);
      assert p.Again() < q * d + (2 * s.tolerance + 1) * d;
      StepsReached(p.Again(), q, 2 * s.tolerance + 1, d);
    }
  }

  /** A clock less than n steps after the start of step q is in one of them. */
  lemma StepsReached(now: Clock, q: int, n: nat, timeStep: int)
    requires timeStep > 0 && q * timeStep <= now < q * timeStep + n * timeStep
    ensures q <= now / timeStep < q + n
  {
    var r := now / timeStep;
    FloorBounds(now, timeStep);
    StepsBetween(q, r, n, timeStep);
    StepsBetween(r, q, 1, timeStep);
  }

  lemma StepsBetween(q: int, r: int, n: nat, timeStep: int)
    requires timeStep > 0 && r * timeStep < q * timeStep + n * timeStep
    ensures r < q + n
  {
    assert (r - q - n) * timeStep == r * timeStep - q * timeStep - n * timeStep;
    NegativeFactor(r - q - n, timeStep);
  }

  lemma NegativeFactor(x: int, d: int)
    requires d > 0 && x * d < 0
    ensures x < 0
  {
  }

  /** No counter near the packets' timestamp but the marked one itself has the marked one's 64-bit value. */
  lemma OneMarkedCounter(s: Setting, x: int, k: nat)
    requires s.Sane() && k <= s.tolerance + 100_301
    requires CounterNear(s.Server(), s.delay, s.Schedule().Stamp(), x) && Wrap64(x) == k
    ensures x == k
  {
    CounterSmall(s.timeStep, s.tolerance, s.delay, s.Schedule().Stamp(), x);
  }

  lemma CounterSmall(timeStep: int, tolerance: nat, delay: nat, stamp: Clock, x: int)
    requires timeStep > 0 && CounterNear(ServerConfig(timeStep, tolerance), delay, stamp, x)
    ensures -(300 + delay + stamp + tolerance + 2) < x < 300 + delay + stamp + tolerance + 2
  {
    var slack, n := 300 + delay + stamp, tolerance + 1;
    StretchedAtLeast(slack, timeStep);
    Distribute(slack, n, timeStep);
    Distribute(slack + n, 1, timeStep);
    assert (-x) * timeStep == -(x * timeStep);
    StepsBetween(0, x, slack + n + 1, timeStep);
    StepsBetween(0, -x, slack + n + 1, timeStep);
  }

  lemma StretchedAtLeast(x: nat, d: int)
    requires d > 0
    ensures x * d >= x
  {
    assert x * (d - 1) >= 0;
  }

  lemma MarkedHasOneCounter(s: Setting, p: SpaPacket)
    requires s.Sane() && p.timestamp == s.Schedule().Stamp() && p.totp in {1, 2}
    ensures CodeHasOneCounter(s.Hashes(), s.Server(), s.delay, p)
  {
    var k, l := s.Mark(), s.LastMark();
    hide Code, Marked, CounterNear, Wrap64, Setting.Schedule;
    var only := if p.totp == 1 then k else l;
    forall x | CounterNear(s.Server(), s.delay, p.timestamp, x) && Code(s.Hashes(), SECRET, x) == p.totp
      ensures x == only
    {
      MarkedCode(k, l, x);
      OneMarkedCounter(s, x, only);
    }
  }

  lemma FloodHasOneCounter(s: Setting)
    requires s.Sane()
    ensures OneCounterEach(s.Hashes(), s.Server(), s.delay, s.Packets())
  {
    var p, c := s.Schedule(), s.Hashes();
    assert p.CodeOf(FLOOD) in {1, 2} && p.CodeOf(0) == 1;
    hide CodeHasOneCounter, Parse, Encode, SealedPacket, Replay.NthKey, Setting.Hashes, Setting.Schedule;
    var h := Flood(c, p);
    forall i | 0 <= i < |h|
      ensures Prompt(h[i], s.delay)
      ensures Parse(h[i].data).Parsed?
      ensures CodeHasOneCounter(c, s.Server(), s.delay, Parse(h[i].data).packet)
    {
      var n := p.Number(i);
      CreatedRoundTrip(c, Hmac, SECRET, p.CodeOf(n), p.Stamp(), SENDER, Replay.NthKey(n));
      MarkedHasOneCounter(s, FloodPacket(c, p, n));
    }
  }

  lemma MarkedInWindow(timeStep: int, tolerance: nat, k: u64, l: u64, now: Clock, x: u64)
    requires timeStep > 0 && CounterInWindow(timeStep, tolerance, now, x)
    ensures InWindow(Marked(k, l), SECRET, timeStep, tolerance, now, MarkOf(k, l, x))
  {
    hide Code;
    MarkedCode(k, l, x);
  }

  /** Every check of the schedule finds its code in the window. */
  lemma CodesInWindow(s: Setting)
    requires s.Sane() && !s.Fits()
    ensures var p, c := s.Schedule(), s.Hashes();
            && InWindow(c, SECRET, s.timeStep, s.tolerance, p.sample, p.code)
            && InWindow(c, SECRET, s.timeStep, s.tolerance, p.Again(), p.code)
            && InWindow(c, SECRET, s.timeStep, s.tolerance, p.Last(), p.lastCode)
  {
    var p, k, l := s.Schedule(), s.Mark(), s.LastMark();
    WideWindows(s);
    assert CounterInWindow(s.timeStep, s.tolerance, p.Last(), l);
    hide CounterInWindow, InWindow, Marked;
    MarkedInWindow(s.timeStep, s.tolerance, k, l, p.sample, k);
    MarkedInWindow(s.timeStep, s.tolerance, k, l, p.Again(), k);
    MarkedInWindow(s.timeStep, s.tolerance, k, l, p.Last(), l);
  }

  /** Whenever the windows do not fit, some packet with a code of one counter is accepted twice. */
  lemma WideWindowAcceptedTwice(s: Setting)
    requires s.Sane() && !s.Fits()
    ensures OneCounterEach(s.Hashes(), s.Server(), s.delay, s.Packets())
    ensures AcceptedTwice(s.Hashes(), s.Server(), s.lag, s.Packets(), 0, FLOOD + 1)
  {
    assert s.Server().totpTimeStep == s.timeStep && s.Server().totpTolerance == s.tolerance && KnowsSecret(s.Server());
    assert s.Hashes().sha256 == PaddingHash && s.Behind() <= s.lag;
    CodesInWindow(s);
    FloodHasOneCounter(s);
    hide InWindow, Flood, AllChecked, NoCollision, AlmostOrdered, Accepted, OneCounterEach, KnowsSecret, Setting.Server;
    hide Setting.Hashes, Setting.Schedule, Setting.Behind;
    FloodAcceptedTwice(s.Hashes(), s.Server(), s.Schedule());
    LongerLag(s.Packets(), s.Behind(), s.lag);
  }

  lemma LongerLag(h: History, lag: nat, lag': nat)
    requires AlmostOrdered(h, lag) && lag <= lag'
    ensures AlmostOrdered(h, lag')
  {
    forall i, j | 0 <= i <= j < |h|
      ensures h[i].clock <= h[j].clock + lag'
    {
      assert h[i].clock <= h[j].clock + lag;
    }
  }

  /**
   * Some history of packets whose codes belong to one counter holds two acceptances of the same bytes, with codes
   * sampled up to `delay` seconds late and locks taken up to `lag` seconds out of clock order.
   */
  ghost predicate CanRepeat(cfg: Config, delay: nat, lag: nat) {
    exists c, h, i, j ::
      0 <= i < j < |h| && OneCounterEach(c, cfg, delay, h) && AcceptedTwice(c, cfg, lag, h, i, j)
  }

  /** The exact condition: replays are excluded if and only if the window, the delay and the lag fit 301 s together. */
  lemma ReplayExcludedExactly(s: Setting)
    requires s.Sane()
    ensures s.Fits() <==> !CanRepeat(s.Server(), s.delay, s.lag)
  {
    hide OneCounterEach, Flood, Marked, Setting.Server;
    var cfg := s.Server();
    if !s.Fits() {
      WideWindowAcceptedTwice(s);
    } else if CanRepeat(cfg, s.delay, s.lag) {
      var c, h, i, j :| 0 <= i < j < |h| && OneCounterEach(c, cfg, s.delay, h) && AcceptedTwice(c, cfg, s.lag, h, i, j);
      AtMostOnce(c, cfg, s.delay, s.lag, h, i, j);
    }
  }
}
