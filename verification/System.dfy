/**
 * The kernel gate and the user-space verifier running together. A run is any sequence of XDP frames, verification
 * begin and lock steps, whitelist writes and map evictions; verifications of different packets overlap freely
 * (internal/spa/handler.go:161, internal/spa/verifier.go:60 and 135).
 */
module System {
  import opened Bytes
  import opened Crypto
  import opened Packet
  import opened Verifier
  import opened Handler
  import Gate
  import opened GateMeaning
  import Replay
  import ReplaySafety

  /** What stays fixed during a run. */
  datatype World = World(primitives: Primitives, cfg: Config, ports: Gate.PortTable, staticToken: seq<byte>)

  datatype Event =
    | Frame(frame: Gate.Frame, now: u64)        // the XDP program runs on a frame
    | Begin(id: nat, attempt: Attempt)          // a goroutine makes every check up to the lock
    | Lock(id: nat)                             // it takes the lock and consults the replay cache
    | Write(id: nat, uptime: Uptime)            // it writes the whitelist entry
    | Evict(addr: u32)                          // the LRU map, or RemoveWhitelistIP, drops an entry

  datatype State = State(gate: Gate.State, cache: Replay.Cache, pending: map<nat, Attempt>, accepted: map<nat, Attempt>)

  type Run = seq<Event>

  const INITIAL: State := State(Gate.State(map[], 0, 0, 0, 0), map[], map[], map[])

  /** The attempt gets to the lock. */
  ghost predicate ReachesLock(w: World, a: Attempt) {
    && !IsStaticPacket(w.staticToken, a.data)
    && Sampled(w.cfg, a)
    && Precheck(w.primitives, w.cfg, a) == Passed
  }

  ghost function Step(w: World, st: State, e: Event): State {
    match e
    case Frame(f, now) => st.(gate := Gate.Step(w.ports, st.gate, f, now).state)
    case Begin(id, a) =>
      if id !in st.pending && id !in st.accepted && ReachesLock(w, a) then st.(pending := st.pending[id := a]) else st
    case Lock(id) =>
      if id !in st.pending then st
      else
        var a := st.pending[id];
        var commit := CommitOf(w.primitives, a);
        st.(pending := st.pending - {id},
            cache := Replay.After(st.cache, commit),
            accepted := if Replay.Fresh(st.cache, commit) then st.accepted[id := a] else st.accepted)
    case Write(id, uptime) =>
      if id !in st.accepted then st
      else
        st.(accepted := st.accepted - {id},
            gate := if To4(st.accepted[id].clientIp) == [] then st.gate
                    else Gate.PutExpiry(st.gate, WhitelistKey(To4(st.accepted[id].clientIp)),
                                        WhitelistExpiry(uptime, w.cfg.replayWindowSeconds)))
    case Evict(addr) => st.(gate := Gate.Evicted(st.gate, addr))
  }

  ghost function StateAfter(w: World, run: Run): State {
    if run == [] then INITIAL else Step(w, StateAfter(w, run[..|run| - 1]), run[|run| - 1])
  }

  // ---------------------------------------------------------------- grants

  datatype Grant = NoGrant | Grant(addr: u32, expiry: u64)

  /** Thirty seconds from now, in 64-bit nanoseconds. */
  function TokenExpiry(now: u64): u64 {
    (now + 30_000_000_000) % 0x1_0000_0000_0000_0000
  }

  /** The authorisation event n of the run makes, if it makes one. */
  ghost function GrantOf(w: World, st: State, e: Event): Grant {
    match e
    case Frame(f, now) => if TokenDatagram(f) then Grant(Sender(f), TokenExpiry(now)) else NoGrant
    case Write(id, uptime) =>
      if id in st.accepted && To4(st.accepted[id].clientIp) != [] then
        Grant(WhitelistKey(To4(st.accepted[id].clientIp)), WhitelistExpiry(uptime, w.cfg.replayWindowSeconds))
      else NoGrant
    case _ => NoGrant
  }

  ghost predicate GrantsAt(w: World, run: Run, n: nat, addr: u32)
    requires n < |run|
  {
    var g := GrantOf(w, StateAfter(w, run[..n]), run[n]);
    g.Grant? && g.addr == addr
  }

  /** Event n is the most recent authorisation of the address. */
  ghost predicate LastGrantAt(w: World, run: Run, n: nat, addr: u32)
    requires n < |run|
  {
    GrantsAt(w, run, n, addr) && forall m :: n < m < |run| ==> !GrantsAt(w, run, m, addr)
  }

  ghost function ExpiryAt(w: World, run: Run, n: nat): u64
    requires n < |run| && GrantOf(w, StateAfter(w, run[..n]), run[n]).Grant?
  {
    GrantOf(w, StateAfter(w, run[..n]), run[n]).expiry
  }

  /** The most recent authorisation has not yet expired. */
  ghost predicate Authorised(w: World, run: Run, addr: u32, now: u64) {
    exists n :: 0 <= n < |run| && LastGrantAt(w, run, n, addr) && now <= ExpiryAt(w, run, n)
  }

  ghost predicate NotEvictedSince(run: Run, n: nat, addr: u32) {
    forall m :: n < m < |run| ==> run[m] != Evict(addr)
  }

  /** The simple specification of the whitelist: that authorisation lasts, and the address was not evicted since. */
  ghost predicate Admitted(w: World, run: Run, addr: u32, now: u64) {
    exists n :: 0 <= n < |run| && LastGrantAt(w, run, n, addr) && NotEvictedSince(run, n, addr)
                && now <= ExpiryAt(w, run, n)
  }

  /** One step of the gate seen on the entry of one address. */
  lemma EntryStep(w: World, st: State, e: Event, addr: u32)
    ensures var g := GrantOf(w, st, e);
            var wl := Step(w, st, e).gate.whitelist;
            && (g.Grant? && g.addr == addr ==> addr in wl && wl[addr] == g.expiry)
            && (!(g.Grant? && g.addr == addr) && addr in wl ==>
                  addr in st.gate.whitelist && wl[addr] == st.gate.whitelist[addr])
            && (e == Evict(addr) ==> addr !in wl)
  {
    if e.Frame? {
      hide Gate.Step, TokenDatagram, Sender;
      StepMeaning(w.ports, st.gate, e.frame, e.now);
    }
  }

  /** An entry in the map always is the most recent authorisation of its address, not evicted since. */
  lemma {:induction false} EntryIsLastGrant(w: World, run: Run, addr: u32) returns (n: nat)
    requires addr in StateAfter(w, run).gate.whitelist
    ensures n < |run| && LastGrantAt(w, run, n, addr) && NotEvictedSince(run, n, addr)
    ensures StateAfter(w, run).gate.whitelist[addr] == ExpiryAt(w, run, n)
    decreases run
  {
    assert run != [];
    var last := |run| - 1;
    var st := StateAfter(w, run[..last]);
    EntryStep(w, st, run[last], addr);
    if GrantsAt(w, run, last, addr) {
      n := last;
    } else {
      n := EntryIsLastGrant(w, run[..last], addr);
      GrantsInPrefix(w, run, addr);
    }
  }

  lemma GrantsInPrefix(w: World, run: Run, addr: u32)
    requires run != []
    ensures forall m :: 0 <= m < |run| - 1 ==> run[..|run| - 1][..m] == run[..m]
    ensures forall m :: 0 <= m < |run| - 1 ==> (GrantsAt(w, run[..|run| - 1], m, addr) <==> GrantsAt(w, run, m, addr))
  {
    var p := run[..|run| - 1];
    forall m | 0 <= m < |p|
      ensures p[..m] == run[..m] && (GrantsAt(w, p, m, addr) <==> GrantsAt(w, run, m, addr))
    {
      assert p[..m] == run[..m];
    }
  }

  lemma LastGrantInPrefix(w: World, run: Run, n: nat, addr: u32)
    requires n < |run| && LastGrantAt(w, run, n, addr) && !GrantsAt(w, run, |run| - 1, addr)
    ensures n < |run| - 1 && LastGrantAt(w, run[..|run| - 1], n, addr)
    ensures ExpiryAt(w, run[..|run| - 1], n) == ExpiryAt(w, run, n)
  {
    GrantsInPrefix(w, run, addr);
    var p := run[..|run| - 1];
    assert p[..n] == run[..n];
    forall m | n < m < |p|
      ensures !GrantsAt(w, p, m, addr)
    {
      assert !GrantsAt(w, run, m, addr);
    }
  }

  /** Whatever is evicted and however clocks jump, an address is admitted only while its last authorisation lasts. */
  lemma WhitelistedImpliesAuthorised(w: World, run: Run, addr: u32, now: u64)
    requires Unexpired(StateAfter(w, run).gate.whitelist, addr, now)
    ensures Authorised(w, run, addr, now)
  {
    var n := EntryIsLastGrant(w, run, addr);
  }

  // ---------------------------------------------------------------- lazy deletion is never observable

  /** No frame of the run carries a kernel time later than `now`. */
  ghost predicate NotBefore(run: Run, now: u64) {
    forall m :: 0 <= m < |run| && run[m].Frame? ==> run[m].now <= now
  }

  /** Only an expired entry is ever deleted by a frame. */
  lemma DeletionStep(w: World, st: State, e: Event, addr: u32)
    requires e != Evict(addr) && addr in st.gate.whitelist && addr !in Step(w, st, e).gate.whitelist
    ensures e.Frame? && st.gate.whitelist[addr] < e.now
  {
    if e.Frame? {
      hide Gate.Step, TokenDatagram, Sender;
      StepMeaning(w.ports, st.gate, e.frame, e.now);
    }
  }

  /** A deleted entry had expired before the current kernel time. */
  lemma {:induction false} DeletedHadExpired(w: World, run: Run, addr: u32, n: nat, now: u64)
    requires n < |run| && LastGrantAt(w, run, n, addr) && NotEvictedSince(run, n, addr) && NotBefore(run, now)
    requires addr !in StateAfter(w, run).gate.whitelist
    ensures ExpiryAt(w, run, n) < now
    decreases run
  {
    var p := run[..|run| - 1];
    NotGrantedLast(w, run, addr);
    LastGrantInPrefix(w, run, n, addr);
    assert NotEvictedSince(p, n, addr) && NotBefore(p, now);
    if addr !in StateAfter(w, p).gate.whitelist {
      DeletedHadExpired(w, p, addr, n, now);
    } else {
      DeletedByFrame(w, run, addr, n);
    }
  }

  lemma NotGrantedLast(w: World, run: Run, addr: u32)
    requires run != [] && addr !in StateAfter(w, run).gate.whitelist
    ensures !GrantsAt(w, run, |run| - 1, addr)
  {
    EntryStep(w, StateAfter(w, run[..|run| - 1]), run[|run| - 1], addr);
  }

  /** The entry a frame deletes held the expiry of the latest authorisation, which had passed. */
  lemma DeletedByFrame(w: World, run: Run, addr: u32, n: nat)
    requires n < |run| - 1 && LastGrantAt(w, run[..|run| - 1], n, addr) && run[|run| - 1] != Evict(addr)
    requires addr in StateAfter(w, run[..|run| - 1]).gate.whitelist
    requires addr !in StateAfter(w, run).gate.whitelist
    ensures run[|run| - 1].Frame? && ExpiryAt(w, run[..|run| - 1], n) < run[|run| - 1].now
  {
    var p := run[..|run| - 1];
    DeletionStep(w, StateAfter(w, p), run[|run| - 1], addr);
    var m := EntryIsLastGrant(w, p, addr);
    SameLastGrant(w, p, addr, m, n);
  }

  lemma SameLastGrant(w: World, run: Run, addr: u32, m: nat, n: nat)
    requires m < |run| && n < |run| && LastGrantAt(w, run, m, addr) && LastGrantAt(w, run, n, addr)
    ensures m == n
  {
  }

  /**
   * The lazily deleted, overwritten-in-place map answers every query exactly as the predicate "the most recent
   * authorisation has not expired and the address was not evicted since" does.
   */
  lemma LazyDeletionInvisible(w: World, run: Run, addr: u32, now: u64)
    requires NotBefore(run, now)
    ensures Unexpired(StateAfter(w, run).gate.whitelist, addr, now) <==> Admitted(w, run, addr, now)
  {
    if Unexpired(StateAfter(w, run).gate.whitelist, addr, now) {
      var n := EntryIsLastGrant(w, run, addr);
    }
    if Admitted(w, run, addr, now) {
      var n :| 0 <= n < |run| && LastGrantAt(w, run, n, addr) && NotEvictedSince(run, n, addr)
               && now <= ExpiryAt(w, run, n);
      if addr !in StateAfter(w, run).gate.whitelist {
        DeletedHadExpired(w, run, addr, n, now);
      } else {
        var m := EntryIsLastGrant(w, run, addr);
        SameLastGrant(w, run, addr, m, n);
      }
    }
  }

  // ---------------------------------------------------------------- where grants come from

  /** Event b of the run starts the goroutine `id` on an attempt that reaches the lock. */
  ghost predicate BeganAt(w: World, run: Run, b: nat, id: nat, a: Attempt)
    requires b < |run|
  {
    && run[b] == Begin(id, a) && ReachesLock(w, a)
    && id !in StateAfter(w, run[..b]).pending && id !in StateAfter(w, run[..b]).accepted
  }

  /** The attempt waits under this goroutine for the lock. */
  ghost predicate PendingBefore(w: World, run: Run, l: nat, id: nat, a: Attempt)
    requires l <= |run|
  {
    id in StateAfter(w, run[..l]).pending && StateAfter(w, run[..l]).pending[id] == a
  }

  /** The attempt waits under this goroutine for its whitelist write. */
  ghost predicate AcceptedBefore(w: World, run: Run, n: nat, id: nat, a: Attempt)
    requires n <= |run|
  {
    id in StateAfter(w, run[..n]).accepted && StateAfter(w, run[..n]).accepted[id] == a
  }

  /** The attempt began at b and its own replay check at l found it new: VerifyPacket returned true. */
  ghost predicate VerifiedAt(w: World, run: Run, b: nat, l: nat, id: nat, a: Attempt)
    requires b < l < |run|
  {
    && BeganAt(w, run, b, id, a)
    && run[l] == Lock(id) && PendingBefore(w, run, l, id, a)
    && Replay.Fresh(StateAfter(w, run[..l]).cache, CommitOf(w.primitives, a))
  }

  lemma PendingStep(w: World, st: State, e: Event, id: nat)
    requires id in Step(w, st, e).pending
    ensures var a := Step(w, st, e).pending[id];
            || (id in st.pending && st.pending[id] == a)
            || (e == Begin(id, a) && ReachesLock(w, a) && id !in st.pending && id !in st.accepted)
  {
  }

  lemma AcceptedStep(w: World, st: State, e: Event, id: nat)
    requires id in Step(w, st, e).accepted
    ensures var a := Step(w, st, e).accepted[id];
            || (id in st.accepted && st.accepted[id] == a)
            || (e == Lock(id) && id in st.pending && st.pending[id] == a
                && Replay.Fresh(st.cache, CommitOf(w.primitives, a)))
  {
  }

  lemma {:induction false} PendingBegan(w: World, run: Run, id: nat) returns (b: nat)
    requires id in StateAfter(w, run).pending
    ensures b < |run| && BeganAt(w, run, b, id, StateAfter(w, run).pending[id])
    decreases run
  {
    assert run != [];
    var last := |run| - 1;
    var st := StateAfter(w, run[..last]);
    PendingStep(w, st, run[last], id);
    if id in st.pending && st.pending[id] == StateAfter(w, run).pending[id] {
      b := PendingBegan(w, run[..last], id);
      assert run[..last][..b] == run[..b];
    } else {
      b := last;
    }
  }

  lemma {:induction false} AcceptedVerified(w: World, run: Run, id: nat) returns (b: nat, l: nat)
    requires id in StateAfter(w, run).accepted
    ensures b < l < |run| && VerifiedAt(w, run, b, l, id, StateAfter(w, run).accepted[id])
    decreases run
  {
    assert run != [];
    var last := |run| - 1;
    var st := StateAfter(w, run[..last]);
    AcceptedStep(w, st, run[last], id);
    if id in st.accepted && StateAfter(w, run).accepted[id] == st.accepted[id] {
      b, l := AcceptedVerified(w, run[..last], id);
      assert run[..last][..l] == run[..l] && run[..last][..b] == run[..b];
    } else {
      b := PendingBegan(w, run[..last], id);
      l := last;
      assert run[..last][..b] == run[..b];
    }
  }

  /** The two ways an address can have been authorised by event n. */
  ghost predicate TokenGrant(run: Run, n: nat, addr: u32)
    requires n < |run|
  {
    run[n].Frame? && TokenDatagram(run[n].frame) && Sender(run[n].frame) == addr
  }

  /** Event n writes the address of the attempt that began at b, was found new at l and still awaited this write. */
  ghost predicate PacketGrantOf(w: World, run: Run, n: nat, addr: u32, b: nat, l: nat, a: Attempt)
    requires n < |run|
  {
    && run[n].Write? && b < l < n
    && VerifiedAt(w, run, b, l, run[n].id, a) && AcceptedBefore(w, run, n, run[n].id, a)
    && To4(a.clientIp) != [] && WhitelistKey(To4(a.clientIp)) == addr
  }

  lemma GrantHasCause(w: World, run: Run, n: nat, addr: u32)
    requires n < |run| && GrantsAt(w, run, n, addr)
    ensures TokenGrant(run, n, addr) || exists b, l, a :: PacketGrantOf(w, run, n, addr, b, l, a)
    ensures TokenGrant(run, n, addr) ==> ExpiryAt(w, run, n) == TokenExpiry(run[n].now)
    ensures !TokenGrant(run, n, addr) ==>
              ExpiryAt(w, run, n) == WhitelistExpiry(run[n].uptime, w.cfg.replayWindowSeconds)
  {
    if run[n].Write? {
      var st := StateAfter(w, run[..n]);
      var id := run[n].id;
      var b, l := AcceptedVerified(w, run[..n], id);
      assert run[..n][..l] == run[..l] && run[..n][..b] == run[..b];
      assert PacketGrantOf(w, run, n, addr, b, l, st.accepted[id]);
    }
  }

  /** A packet's authorisation has not ended: at the latest the replay window plus one second past the uptime sample. */
  predicate StillGranted(w: World, uptime: Uptime, now: u64) {
    && now <= WhitelistExpiry(uptime, w.cfg.replayWindowSeconds)
    && (uptime.Known? && w.cfg.replayWindowSeconds >= -1 ==>
          now <= uptime.ns + (w.cfg.replayWindowSeconds + 1) * 1_000_000_000)
  }

  /** The attempt is genuine and about the frame's sender; for version 2 the sender is the address that was sealed. */
  ghost predicate SpeaksFor(w: World, a: Attempt, f: Gate.Frame)
    requires |f| >= 34
  {
    && Sampled(w.cfg, a) && Parse(a.data).Parsed?
    && var p := Parse(a.data).packet;
       && Genuine(w.primitives, w.cfg, a, p)
       && f[26..30] == To4(a.clientIp)
       && (p.version == 2 ==> f[26..30] == p.clientIp[12..] == Body(p)[26..30])
  }

  /** What lets a frame through at event n: the token, or a packet that passed verification in this run. */
  ghost predicate Admits(w: World, run: Run, n: nat, f: Gate.Frame, now: u64)
    requires n < |run| && |f| >= 34
  {
    || (TokenGrant(run, n, Sender(f)) && now <= run[n].now + 30_000_000_000)
    || (run[n].Write? && StillGranted(w, run[n].uptime, now)
        && exists b, l, a :: PacketGrantOf(w, run, n, Sender(f), b, l, a) && SpeaksFor(w, a, f))
  }

  /**
   * End-to-end authorisation. In every run, whatever is evicted and however verifications overlap, a TCP frame
   * is let through to a critical port only if its source's most recent authorisation is the magic token at most
   * 30 s ago, or the unexpired whitelist write of a packet that began, passed every check, was found new at its own
   * lock and was the one waiting for this write; a version 2 packet had this very source address sealed into it.
   */
  lemma CriticalPortIsAuthorised(w: World, run: Run, f: Gate.Frame, now: u64)
    requires ToCritical(w.ports, f)
    requires Gate.Step(w.ports, StateAfter(w, run).gate, f, now).verdict == Gate.Pass
    ensures exists n :: 0 <= n < |run| && LastGrantAt(w, run, n, Sender(f)) && Admits(w, run, n, f, now)
  {
    hide Gate.Step, StateAfter, Admits, Sender;
    CriticalVerdict(w, StateAfter(w, run), f, now);
    WhitelistedImpliesAuthorised(w, run, Sender(f), now);
    var n :| 0 <= n < |run| && LastGrantAt(w, run, n, Sender(f)) && now <= ExpiryAt(w, run, n);
    GrantAdmits(w, run, n, f, now);
  }

  lemma GrantAdmits(w: World, run: Run, n: nat, f: Gate.Frame, now: u64)
    requires n < |run| && |f| >= 34 && LastGrantAt(w, run, n, Sender(f)) && now <= ExpiryAt(w, run, n)
    ensures Admits(w, run, n, f, now)
  {
    hide StateAfter, Sender, StillGranted, SpeaksFor, WhitelistExpiry, ReachesLock;
    GrantHasCause(w, run, n, Sender(f));
    if !TokenGrant(run, n, Sender(f)) {
      var b, l, a :| PacketGrantOf(w, run, n, Sender(f), b, l, a);
      PacketAuthorisationBound(w, run[n].uptime, now);
      AdmittedSourceIsSealed(w, f, a);
    }
  }

  /** A packet's authorisation lasts at most the replay window plus one second past the uptime sample. */
  lemma PacketAuthorisationBound(w: World, uptime: Uptime, now: u64)
    requires now <= WhitelistExpiry(uptime, w.cfg.replayWindowSeconds)
    ensures StillGranted(w, uptime, now)
  {
    if uptime.Known? {
      ExpiryBound(uptime.ns, w.cfg.replayWindowSeconds);
    }
  }

  /**
   * The authorising packet is genuine, and when it is of version 2, the admitted frame's source address is the
   * address inside the bytes that were sealed.
   */
  lemma AdmittedSourceIsSealed(w: World, f: Gate.Frame, a: Attempt)
    requires |f| >= 34 && ReachesLock(w, a)
    requires To4(a.clientIp) != [] && WhitelistKey(To4(a.clientIp)) == Sender(f)
    ensures SpeaksFor(w, a, f)
  {
    SameAddress(f, To4(a.clientIp));
    assert Parse(a.data).Parsed?;
    var p := Parse(a.data).packet;
    PassesExactly(w.primitives, w.cfg, a, p);
    if p.version == 2 {
      SealedAddressIsWhitelisted(w.primitives, w.cfg, a, p);
      EncodedFields(p);
      assert Body(p)[26..30] == a.data[26..30];
    }
  }

  // ---------------------------------------------------------------- honest clients get in

  lemma PrefixStep(w: World, run: Run, n: nat)
    requires n < |run|
    ensures StateAfter(w, run[..n + 1]) == Step(w, StateAfter(w, run[..n]), run[n])
  {
    assert run[..n + 1][..n] == run[..n];
  }

  lemma BeginPends(w: World, st: State, id: nat, a: Attempt)
    requires id !in st.pending && id !in st.accepted && ReachesLock(w, a)
    ensures var st' := Step(w, st, Begin(id, a)); id in st'.pending && st'.pending[id] == a
  {
  }

  lemma StaysPending(w: World, st: State, e: Event, id: nat)
    requires id in st.pending && e != Lock(id)
    ensures var st' := Step(w, st, e); id in st'.pending && st'.pending[id] == st.pending[id]
  {
  }

  /** A goroutine that began keeps its attempt until its own lock step. */
  lemma {:induction false} PendingUntilLock(w: World, run: Run, b: nat, l: nat, id: nat, a: Attempt)
    requires b < l <= |run| && BeganAt(w, run, b, id, a)
    requires forall k :: b < k < l ==> run[k] != Lock(id)
    ensures PendingBefore(w, run, l, id, a)
    decreases l
  {
    hide Step, StateAfter, ReachesLock;
    var st := StateAfter(w, run[..l - 1]);
    PrefixStep(w, run, l - 1);
    if l - 1 == b {
      BeginPends(w, st, id, a);
    } else {
      PendingUntilLock(w, run, b, l - 1, id, a);
      StaysPending(w, st, run[l - 1], id);
    }
  }

  /** The goroutine waits for its write, and is not before the lock again. */
  ghost predicate Waiting(st: State, id: nat, a: Attempt) {
    id in st.accepted && st.accepted[id] == a && id !in st.pending
  }

  lemma LockAccepts(w: World, st: State, id: nat)
    requires id in st.pending && Replay.Fresh(st.cache, CommitOf(w.primitives, st.pending[id]))
    ensures Waiting(Step(w, st, Lock(id)), id, st.pending[id])
  {
  }

  lemma StaysWaiting(w: World, st: State, e: Event, id: nat, a: Attempt)
    requires Waiting(st, id, a) && (e.Write? ==> e.id != id)
    ensures Waiting(Step(w, st, e), id, a)
  {
  }

  /** An attempt found new keeps its place until its own write. */
  lemma {:induction false} AcceptedUntilWrite(w: World, run: Run, l: nat, n: nat, id: nat, a: Attempt)
    requires l < n <= |run| && run[l] == Lock(id) && PendingBefore(w, run, l, id, a)
    requires Replay.Fresh(StateAfter(w, run[..l]).cache, CommitOf(w.primitives, a))
    requires forall k :: l < k < n && run[k].Write? ==> run[k].id != id
    ensures Waiting(StateAfter(w, run[..n]), id, a)
    decreases n
  {
    hide Step, StateAfter, Waiting, Replay.Fresh;
    var st := StateAfter(w, run[..n - 1]);
    PrefixStep(w, run, n - 1);
    if n - 1 == l {
      LockAccepts(w, st, id);
    } else {
      AcceptedUntilWrite(w, run, l, n - 1, id, a);
      StaysWaiting(w, st, run[n - 1], id, a);
    }
  }

  /** Event k neither evicts the entry nor overwrites it nor finds it expired. */
  ghost predicate Spares(w: World, run: Run, k: nat, addr: u32, expiry: u64)
    requires k < |run|
  {
    run[k] != Evict(addr) && !GrantsAt(w, run, k, addr) && (run[k].Frame? ==> run[k].now <= expiry)
  }

  lemma KeptOnStep(w: World, st: State, e: Event, addr: u32)
    requires addr in st.gate.whitelist && e != Evict(addr)
    requires e.Frame? ==> e.now <= st.gate.whitelist[addr]
    ensures addr in Step(w, st, e).gate.whitelist
  {
    if e.Frame? {
      hide Gate.Step, TokenDatagram, Sender;
      StepMeaning(w.ports, st.gate, e.frame, e.now);
    }
  }

  /** An entry stays as it was granted while it is spared. */
  lemma {:induction false} EntryUntilDisturbed(w: World, run: Run, n: nat, m: nat, addr: u32)
    requires n < m <= |run| && GrantsAt(w, run, n, addr)
    requires forall k :: n < k < m ==> Spares(w, run, k, addr, ExpiryAt(w, run, n))
    ensures var whitelist := StateAfter(w, run[..m]).gate.whitelist;
            addr in whitelist && whitelist[addr] == ExpiryAt(w, run, n)
    decreases m
  {
    hide Step, StateAfter, GrantOf;
    var st := StateAfter(w, run[..m - 1]);
    PrefixStep(w, run, m - 1);
    EntryStep(w, st, run[m - 1], addr);
    if m - 1 > n {
      EntryUntilDisturbed(w, run, n, m - 1, addr);
      assert Spares(w, run, m - 1, addr, ExpiryAt(w, run, n));
      KeptOnStep(w, st, run[m - 1], addr);
    }
  }

  /** The steps of one verification, taken in order, with anything else happening in between. */
  ghost predicate Verification(w: World, run: Run, b: nat, l: nat, n: nat, id: nat, a: Attempt, uptime: Uptime) {
    && b < l < n < |run|
    && run[b] == Begin(id, a) && run[l] == Lock(id) && run[n] == Write(id, uptime)
    && id !in StateAfter(w, run[..b]).pending && id !in StateAfter(w, run[..b]).accepted
    && (forall k :: b < k < l ==> run[k] != Lock(id))
    && (forall k :: l < k < n && run[k].Write? ==> run[k].id != id)
  }

  /** Passing every check and being new under the lock is enough for the write to grant the address. */
  lemma VerificationGrants(w: World, run: Run, b: nat, l: nat, n: nat, id: nat, a: Attempt, uptime: Uptime)
    requires Verification(w, run, b, l, n, id, a, uptime) && To4(a.clientIp) != []
    requires Sampled(w.cfg, a) && Precheck(w.primitives, w.cfg, a) == Passed
    requires Replay.Fresh(StateAfter(w, run[..l]).cache, CommitOf(w.primitives, a))
    ensures GrantsAt(w, run, n, WhitelistKey(To4(a.clientIp)))
    ensures ExpiryAt(w, run, n) == WhitelistExpiry(uptime, w.cfg.replayWindowSeconds)
  {
    assert Parse(a.data).Parsed?;
    StaticExactly(w.staticToken, a.data);
    PendingUntilLock(w, run, b, l, id, a);
    AcceptedUntilWrite(w, run, l, n, id, a);
  }

  /**
   * End-to-end completeness: an honest client gets in. If a client packet made with a known key and secret, and with
   * clocks close enough to the server's, comes from its bound IPv4 address and is new under the lock, then once its
   * verification's steps are done every TCP frame from that address to a critical port is let through until the entry
   * expires, as long as nothing evicts or overwrites it, whatever else happens in between.
   */
  lemma HonestClientAdmitted(w: World, run: Run, b: nat, l: nat, n: nat, id: nat, a: Attempt, uptime: Uptime,
                             client: Client, f: Gate.Frame, now: u64)
    requires Verification(w, run, b, l, n, id, a, uptime)
    requires HonestPacket(w.primitives, w.cfg, client, a) && To4(a.clientIp) != []
    requires Replay.Fresh(StateAfter(w, run[..l]).cache, CommitOf(w.primitives, a))
    requires forall k :: n < k < |run| ==>
               Spares(w, run, k, WhitelistKey(To4(a.clientIp)), WhitelistExpiry(uptime, w.cfg.replayWindowSeconds))
    requires ToCritical(w.ports, f) && f[26..30] == To4(a.clientIp)
    ensures Gate.Step(w.ports, StateAfter(w, run).gate, f, now).verdict == Gate.Pass
            <==> now <= WhitelistExpiry(uptime, w.cfg.replayWindowSeconds)
  {
    ClientPacketPasses(w.primitives, w.cfg, client, a);
    VerificationGrants(w, run, b, l, n, id, a, uptime);
    EntryUntilDisturbed(w, run, n, |run|, WhitelistKey(To4(a.clientIp)));
    assert run[..|run|] == run;
    SameAddress(f, To4(a.clientIp));
    CriticalVerdict(w, StateAfter(w, run), f, now);
  }

  lemma CriticalVerdict(w: World, st: State, f: Gate.Frame, now: u64)
    requires ToCritical(w.ports, f)
    ensures Gate.Step(w.ports, st.gate, f, now).verdict == Gate.Pass
            <==> Unexpired(st.gate.whitelist, Sender(f), now)
  {
    hide Gate.Step, Sender;
    DropMeaning(w.ports, st.gate, f, now);
  }

  /**
   * A token opens every critical port to its sender for 30 s and no longer, as long as its entry is neither evicted
   * nor overwritten, whatever else happens in between.
   */
  lemma TokenOpensPorts(w: World, run: Run, n: nat, f: Gate.Frame, now: u64)
    requires n < |run| && ToCritical(w.ports, f) && TokenGrant(run, n, Sender(f))
    requires forall k :: n < k < |run| ==> Spares(w, run, k, Sender(f), TokenExpiry(run[n].now))
    ensures Gate.Step(w.ports, StateAfter(w, run).gate, f, now).verdict == Gate.Pass
            <==> now <= (run[n].now + 30_000_000_000) % 0x1_0000_0000_0000_0000
  {
    hide Gate.Step, StateAfter;
    EntryUntilDisturbed(w, run, n, |run|, Sender(f));
    assert run[..|run|] == run;
    CriticalVerdict(w, StateAfter(w, run), f, now);
  }

  // ---------------------------------------------------------------- the fate of every frame

  /**
   * The verdict on every frame after every run, on its bytes and the run's authorisations alone: dropped are tokens,
   * segments to critical ports unless their sender's most recent authorisation lasts and was not evicted since, and
   * scans of ports that are neither critical nor decoy.
   */
  lemma DroppedExactly(w: World, run: Run, f: Gate.Frame, now: u64)
    requires NotBefore(run, now)
    ensures Gate.Step(w.ports, StateAfter(w, run).gate, f, now).verdict == Gate.Drop
            <==> || TokenDatagram(f)
                 || (ToCritical(w.ports, f) && !Admitted(w, run, Sender(f), now))
                 || (ToOther(w.ports, f) && ScanFlags(f[47]))
  {
    hide Gate.Step, StateAfter, TokenDatagram;
    DropMeaning(w.ports, StateAfter(w, run).gate, f, now);
    if ToCritical(w.ports, f) {
      LazyDeletionInvisible(w, run, Sender(f), now);
    }
  }

  /** Whatever has happened, a segment to a decoy port that is not critical passes unchanged, from any sender. */
  lemma DecoyPasses(w: World, run: Run, f: Gate.Frame, now: u64)
    requires ToDecoy(w.ports, f)
    ensures var o := Gate.Step(w.ports, StateAfter(w, run).gate, f, now); o.verdict == Gate.Pass && o.frame == f
  {
    hide Gate.Step, StateAfter;
    StepMeaning(w.ports, StateAfter(w, run).gate, f, now);
    SegmentIsNoToken(f);
  }

  lemma SegmentIsNoToken(f: Gate.Frame)
    ensures !(TokenDatagram(f) && TcpSegment(f))
  {
  }

  // ---------------------------------------------------------------- replay safety of the whole system

  /** The attempts that took the lock, in lock order. */
  ghost function LockHistory(w: World, run: Run): ReplaySafety.History {
    if run == [] then []
    else
      var last := |run| - 1;
      var st := StateAfter(w, run[..last]);
      LockHistory(w, run[..last])
      + if run[last].Lock? && run[last].id in st.pending then [st.pending[run[last].id]] else []
  }

  lemma {:induction false} HistoryIsChecked(w: World, run: Run)
    ensures ReplaySafety.AllChecked(w.primitives, w.cfg, LockHistory(w, run))
  {
    if run != [] {
      var last := |run| - 1;
      var st := StateAfter(w, run[..last]);
      HistoryIsChecked(w, run[..last]);
      if run[last].Lock? && run[last].id in st.pending {
        var b := PendingBegan(w, run[..last], run[last].id);
      }
    }
  }

  /** The system's cache is the cache of the commit run its lock steps make. */
  lemma {:induction false} CacheIsHistory(w: World, run: Run)
    ensures StateAfter(w, run).cache == Replay.CacheAfter(ReplaySafety.RunOf(w.primitives, LockHistory(w, run)))
  {
    if run != [] {
      var last := |run| - 1;
      var st := StateAfter(w, run[..last]);
      CacheIsHistory(w, run[..last]);
      if run[last].Lock? && run[last].id in st.pending {
        var h := LockHistory(w, run[..last]);
        var a := st.pending[run[last].id];
        RunOfAppend(w.primitives, h, a);
        assert LockHistory(w, run) == h + [a];
      } else {
        assert LockHistory(w, run) == LockHistory(w, run[..last]);
      }
    }
  }

  lemma RunOfAppend(c: Primitives, h: ReplaySafety.History, a: Attempt)
    ensures Replay.CacheAfter(ReplaySafety.RunOf(c, h + [a]))
            == Replay.After(Replay.CacheAfter(ReplaySafety.RunOf(c, h)), CommitOf(c, a))
  {
    var r := ReplaySafety.RunOf(c, h + [a]);
    assert r[..|h|] == ReplaySafety.RunOf(c, h);
  }

  lemma {:induction false} HistoryGrows(w: World, run: Run, n: nat)
    requires n <= |run|
    ensures |LockHistory(w, run[..n])| <= |LockHistory(w, run)|
    ensures LockHistory(w, run)[..|LockHistory(w, run[..n])|] == LockHistory(w, run[..n])
    decreases |run| - n
  {
    if n == |run| {
      assert run[..n] == run;
    } else {
      assert run[..n + 1][..n] == run[..n];
      HistoryGrows(w, run, n + 1);
      var k := |LockHistory(w, run[..n])|;
      assert LockHistory(w, run[..n + 1])[..k] == LockHistory(w, run[..n]);
    }
  }

  /** A lock step that accepts is an accepted commit of the history, at the position of its turn. */
  lemma LockIsCommit(w: World, run: Run, l: nat, a: Attempt) returns (i: nat)
    requires l < |run| && run[l].Lock?
    requires run[l].id in StateAfter(w, run[..l]).pending && StateAfter(w, run[..l]).pending[run[l].id] == a
    requires Replay.Fresh(StateAfter(w, run[..l]).cache, CommitOf(w.primitives, a))
    ensures i == |LockHistory(w, run[..l])| < |LockHistory(w, run[..l + 1])| <= |LockHistory(w, run)|
    ensures LockHistory(w, run)[i] == a && ReplaySafety.Accepted(w.primitives, LockHistory(w, run), i)
  {
    i := |LockHistory(w, run[..l])|;
    assert run[..l + 1][..l] == run[..l];
    HistoryGrows(w, run, l);
    HistoryGrows(w, run, l + 1);
    CacheIsHistory(w, run[..l]);
    var h := LockHistory(w, run);
    assert h[i] == LockHistory(w, run[..l + 1])[i];
    assert ReplaySafety.RunOf(w.primitives, h)[..i] == ReplaySafety.RunOf(w.primitives, h[..i]);
  }

  ghost predicate AcceptsAt(w: World, run: Run, l: nat, a: Attempt)
    requires l < |run|
  {
    && run[l].Lock?
    && run[l].id in StateAfter(w, run[..l]).pending && StateAfter(w, run[..l]).pending[run[l].id] == a
    && Replay.Fresh(StateAfter(w, run[..l]).cache, CommitOf(w.primitives, a))
  }

  /**
   * However frames, verifications, writes and evictions interleave, the same bytes are accepted once in a run,
   * provided TOTP codes belong to one counter and the window fits together with the sampling delay and with the lag by
   * which locks are taken out of clock order.
   */
  lemma BytesAcceptedOnce(w: World, delay: nat, lag: nat, run: Run, l: nat, m: nat, a: Attempt, b: Attempt)
    requires l < m < |run| && AcceptsAt(w, run, l, a) && AcceptsAt(w, run, m, b)
    requires ReplaySafety.AlmostOrdered(LockHistory(w, run), lag)
    requires ReplaySafety.WindowFits(w.cfg, delay + lag)
    requires ReplaySafety.OneCounterEach(w.primitives, w.cfg, delay, LockHistory(w, run))
    ensures a.data != b.data
  {
    var i, j := TwoCommits(w, run, l, m, a, b);
    HistoryIsChecked(w, run);
    if a.data == b.data {
      ReplaySafety.AtMostOnce(w.primitives, w.cfg, delay, lag, LockHistory(w, run), i, j);
    }
  }

  lemma TwoCommits(w: World, run: Run, l: nat, m: nat, a: Attempt, b: Attempt) returns (i: nat, j: nat)
    requires l < m < |run| && AcceptsAt(w, run, l, a) && AcceptsAt(w, run, m, b)
    ensures i < j < |LockHistory(w, run)| && LockHistory(w, run)[i] == a && LockHistory(w, run)[j] == b
    ensures ReplaySafety.Accepted(w.primitives, LockHistory(w, run), i)
    ensures ReplaySafety.Accepted(w.primitives, LockHistory(w, run), j)
  {
    i := LockIsCommit(w, run, l, a);
    j := LockIsCommit(w, run, m, b);
    HistoryOrdered(w, run, l + 1, m);
  }

  lemma HistoryOrdered(w: World, run: Run, l: nat, m: nat)
    requires l <= m <= |run|
    ensures |LockHistory(w, run[..l])| <= |LockHistory(w, run[..m])|
  {
    assert run[..m][..l] == run[..l];
    HistoryGrows(w, run[..m], l);
  }

  // ---------------------------------------------------------------- counters

  /** How many frames of the run were of the given kind. */
  function Frames(w: World, run: Run, k: Gate.Kind): nat {
    if run == [] then 0
    else
      var e := run[|run| - 1];
      Frames(w, run[..|run| - 1], k) + (if IsKind(w, e, k) then 1 else 0)
  }

  /** The program's counters account for the traffic, modulo 2^64; every redirected frame is also mutated. */
  lemma CountersMatchTraffic(w: World, run: Run)
    ensures var g := StateAfter(w, run).gate;
            && g.authSuccess == Wrap64(Frames(w, run, Gate.Token))
            && g.stealthDrops == Wrap64(Frames(w, run, Gate.Stealth))
            && g.osMutations == Wrap64(Frames(w, run, Gate.Redirected))
            && g.attackStats == Wrap64(Frames(w, run, Gate.Fake) + Frames(w, run, Gate.Redirected))
  {
    AuthCounter(w, run);
    DropCounter(w, run);
    MutationCounter(w, run);
    AttackCounter(w, run);
  }

  lemma {:induction false} AuthCounter(w: World, run: Run)
    ensures StateAfter(w, run).gate.authSuccess == Wrap64(Frames(w, run, Gate.Token))
  {
    if run != [] {
      var p, e := run[..|run| - 1], run[|run| - 1];
      AuthCounter(w, p);
      AuthStep(w, StateAfter(w, p), e, Frames(w, p, Gate.Token));
    }
  }

  lemma AuthStep(w: World, st: State, e: Event, n: nat)
    requires st.gate.authSuccess == Wrap64(n)
    ensures Step(w, st, e).gate.authSuccess == Wrap64(n + (if IsKind(w, e, Gate.Token) then 1 else 0))
  {
    CounterStep(w, st, e);
    Advance(n, IsKind(w, e, Gate.Token));
  }

  lemma {:induction false} DropCounter(w: World, run: Run)
    ensures StateAfter(w, run).gate.stealthDrops == Wrap64(Frames(w, run, Gate.Stealth))
  {
    if run != [] {
      var p, e := run[..|run| - 1], run[|run| - 1];
      DropCounter(w, p);
      DropStep(w, StateAfter(w, p), e, Frames(w, p, Gate.Stealth));
    }
  }

  lemma DropStep(w: World, st: State, e: Event, n: nat)
    requires st.gate.stealthDrops == Wrap64(n)
    ensures Step(w, st, e).gate.stealthDrops == Wrap64(n + (if IsKind(w, e, Gate.Stealth) then 1 else 0))
  {
    CounterStep(w, st, e);
    Advance(n, IsKind(w, e, Gate.Stealth));
  }

  lemma {:induction false} MutationCounter(w: World, run: Run)
    ensures StateAfter(w, run).gate.osMutations == Wrap64(Frames(w, run, Gate.Redirected))
  {
    if run != [] {
      var p, e := run[..|run| - 1], run[|run| - 1];
      MutationCounter(w, p);
      MutationStep(w, StateAfter(w, p), e, Frames(w, p, Gate.Redirected));
    }
  }

  lemma MutationStep(w: World, st: State, e: Event, n: nat)
    requires st.gate.osMutations == Wrap64(n)
    ensures Step(w, st, e).gate.osMutations == Wrap64(n + (if IsKind(w, e, Gate.Redirected) then 1 else 0))
  {
    CounterStep(w, st, e);
    Advance(n, IsKind(w, e, Gate.Redirected));
  }

  lemma {:induction false} AttackCounter(w: World, run: Run)
    ensures StateAfter(w, run).gate.attackStats == Wrap64(Frames(w, run, Gate.Fake) + Frames(w, run, Gate.Redirected))
  {
    if run != [] {
      var p, e := run[..|run| - 1], run[|run| - 1];
      AttackCounter(w, p);
      FramesStep(w, run, Gate.Redirected);
      FramesStep(w, run, Gate.Fake);
      AttackStep(w, StateAfter(w, p), e, Frames(w, p, Gate.Fake) + Frames(w, p, Gate.Redirected));
    }
  }

  lemma AttackStep(w: World, st: State, e: Event, n: nat)
    requires st.gate.attackStats == Wrap64(n)
    ensures Step(w, st, e).gate.attackStats
            == Wrap64(n + (if IsKind(w, e, Gate.Fake) || IsKind(w, e, Gate.Redirected) then 1 else 0))
  {
    CounterStep(w, st, e);
    Advance(n, IsKind(w, e, Gate.Fake) || IsKind(w, e, Gate.Redirected));
  }

  lemma FramesStep(w: World, run: Run, k: Gate.Kind)
    requires run != []
    ensures Frames(w, run, k) == Frames(w, run[..|run| - 1], k) + (if IsKind(w, run[|run| - 1], k) then 1 else 0)
  {
  }

  lemma Advance(n: nat, hit: bool)
    ensures (if hit then Wrap64(Wrap64(n) + 1) else Wrap64(n)) == Wrap64(n + (if hit then 1 else 0))
  {
  }

  predicate IsKind(w: World, e: Event, k: Gate.Kind) {
    e.Frame? && GateMeaning.IsKind(w.ports, e.frame, k)
  }

  lemma CounterStep(w: World, st: State, e: Event)
    ensures var g, g' := st.gate, Step(w, st, e).gate;
            && g'.authSuccess == (if IsKind(w, e, Gate.Token) then Wrap64(g.authSuccess + 1) else g.authSuccess)
            && g'.stealthDrops == (if IsKind(w, e, Gate.Stealth) then Wrap64(g.stealthDrops + 1) else g.stealthDrops)
            && g'.osMutations == (if IsKind(w, e, Gate.Redirected) then Wrap64(g.osMutations + 1) else g.osMutations)
            && g'.attackStats == (if IsKind(w, e, Gate.Fake) || IsKind(w, e, Gate.Redirected)
                                  then Wrap64(g.attackStats + 1) else g.attackStats)
  {
    if e.Frame? {
      hide Gate.Step, TokenDatagram, ScanFlags;
      StepMeaning(w.ports, st.gate, e.frame, e.now);
    }
  }
}
