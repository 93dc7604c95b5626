/**
 * What the XDP program decides for a frame and what it writes, in network byte order and on values
 * (internal/ebpf/programs/phantom.c). GateProgram holds the program itself, in host byte order and
 * in place, proved against this specification.
 */
module Gate {
  import opened Bytes
  import opened Checksum

  type Frame = seq<byte>

  const HONEYPOT_PORT: u16 := 9999
  const SPA_MAGIC_PORT: u16 := 1337
  const SECOND: nat := 1_000_000_000
  const SPA_WHITELIST_DURATION_NS: nat := 30 * SECOND

  // the bytes of "PHANTOM_GRID_SPA_2025"
  const SPA_TOKEN_LEN: nat := 21
  const SPA_SECRET_TOKEN: seq<byte> :=
    [80, 72, 65, 78, 84, 79, 77, 95, 71, 82, 73, 68, 95, 83, 80, 65, 95, 50, 48, 50, 53]

  datatype PortTable = PortTable(critical: set<u16>, fake: set<u16>)

  datatype State = State(whitelist: map<u32, u64>, attackStats: u64, stealthDrops: u64,
                         osMutations: u64, authSuccess: u64)

  datatype Verdict = Pass | Drop

  datatype Outcome = Outcome(state: State, frame: Frame, verdict: Verdict)

  /** The six things the program can do with a frame. */
  datatype Kind = Ignored | Token | Critical | Fake | Stealth | Redirected

  // ---------------------------------------------------------------- header fields

  predicate IsIPv4(f: Frame) {
    |f| >= 34 && GetWord(f, 12) == 0x0800
  }

  /** A TCP frame long enough for the fixed header; the IPv4 header is taken to be 20 bytes. */
  predicate IsTcp(f: Frame) {
    IsIPv4(f) && f[23] == 6 && |f| >= 54
  }

  predicate IsUdp(f: Frame) {
    IsIPv4(f) && f[23] == 17 && |f| >= 42
  }

  function Source(f: Frame): u32
    requires IsIPv4(f)
  {
    SourceInRange(f);
    Value(f[26..30])
  }

  lemma SourceInRange(f: Frame)
    requires |f| >= 34
    ensures Value(f[26..30]) < 0x1_0000_0000
  {
    Pow256Widths();
  }

  function DestPort(f: Frame): u16
    requires |f| >= 38
  {
    GetWord(f, 36)
  }

  /** A UDP datagram to the magic port whose payload starts with the token. */
  predicate IsMagic(f: Frame) {
    && IsUdp(f)
    && DestPort(f) == SPA_MAGIC_PORT
    && |f| >= 42 + SPA_TOKEN_LEN
    && f[42..42 + SPA_TOKEN_LEN] == SPA_SECRET_TOKEN
  }

  predicate IsStealthScan(flags: byte) {
    var fin, syn, rst := Bit(flags, 0x01), Bit(flags, 0x02), Bit(flags, 0x04);
    var psh, ack, urg := Bit(flags, 0x08), Bit(flags, 0x10), Bit(flags, 0x20);
    || (fin && urg && psh && !syn && !rst)
    || flags == 0
    || (fin && !syn && !rst && !psh && !ack && !urg)
    || (ack && !syn && !fin && !rst)
  }

  // ---------------------------------------------------------------- decision and effect

  function Classify(ports: PortTable, f: Frame): Kind {
    if IsMagic(f) then Token
    else if !IsTcp(f) || DestPort(f) == HONEYPOT_PORT then Ignored
    else if DestPort(f) in ports.critical then Critical
    else if DestPort(f) in ports.fake then Fake
    else if IsStealthScan(f[47]) then Stealth
    else Redirected
  }

  /** The expiry a token packet seen at kernel time `now` stores. */
  function TokenExpiry(now: u64): u64 {
    Wrap64(now + SPA_WHITELIST_DURATION_NS)
  }

  predicate Whitelisted(st: State, addr: u32, now: u64) {
    addr in st.whitelist && now <= st.whitelist[addr]
  }

  /** Looking an address up deletes its entry when the entry has expired. */
  function LookedUp(st: State, addr: u32, now: u64): State {
    if addr in st.whitelist && now > st.whitelist[addr] then
      st.(whitelist := map a | a in st.whitelist && a != addr :: st.whitelist[a])
    else st
  }

  function PutExpiry(st: State, addr: u32, expiry: u64): State {
    st.(whitelist := st.whitelist[addr := expiry])
  }

  function Evicted(st: State, addr: u32): State {
    st.(whitelist := map a | a in st.whitelist && a != addr :: st.whitelist[a])
  }

  datatype Personality = Personality(ttl: byte, window: u16)

  function PersonalityOf(srcPort: u16): Personality {
    match srcPort % 4
    case 0 => Personality(128, 65535)
    case 1 => Personality(64, 29200)
    case 2 => Personality(64, 65535)
    case _ => Personality(255, 29200)
  }

  function RedirectPort(f: Frame): (r: Frame)
    requires |f| >= 54
    ensures |r| == |f|
  {
    Edited(f, 50, 36, HONEYPOT_PORT, GetWord(f, 36), HONEYPOT_PORT)
  }

  /** The checksum update is given the TTL in the high byte and zero in place of the protocol. */
  function MutateTtl(f: Frame, ttl: byte): (r: Frame)
    requires |f| >= 54
    ensures |r| == |f|
  {
    if f[22] == ttl then f
    else Edited(f, 24, 22, Word(ttl, f[23]), Word(f[22], 0), Word(ttl, 0))
  }

  function MutateWindow(f: Frame, window: u16): (r: Frame)
    requires |f| >= 54
    ensures |r| == |f|
  {
    if GetWord(f, 48) == window then f
    else Edited(f, 50, 48, window, GetWord(f, 48), window)
  }

  function Redirect(f: Frame): (r: Frame)
    requires |f| >= 54
    ensures |r| == |f|
  {
    var p := PersonalityOf(GetWord(f, 34));
    MutateWindow(MutateTtl(RedirectPort(f), p.ttl), p.window)
  }

  function Step(ports: PortTable, st: State, f: Frame, now: u64): Outcome {
    match Classify(ports, f)
    case Ignored => Outcome(st, f, Pass)
    case Token =>
      Outcome(PutExpiry(st, Source(f), TokenExpiry(now)).(authSuccess := Wrap64(st.authSuccess + 1)), f, Drop)
    case Critical =>
      Outcome(LookedUp(st, Source(f), now), f, if Whitelisted(st, Source(f), now) then Pass else Drop)
    case Fake => Outcome(st.(attackStats := Wrap64(st.attackStats + 1)), f, Pass)
    case Stealth => Outcome(st.(stealthDrops := Wrap64(st.stealthDrops + 1)), f, Drop)
    case Redirected =>
      Outcome(st.(attackStats := Wrap64(st.attackStats + 1), osMutations := Wrap64(st.osMutations + 1)),
              Redirect(f), Pass)
  }

  // ---------------------------------------------------------------- single-frame results

  /** Only redirected frames are written, and what they become is let through to the honeypot untouched. */
  lemma RedirectSettles(ports: PortTable, st: State, f: Frame, now: u64, st': State, now': u64)
    ensures var o := Step(ports, st, f, now);
            && (o.frame != f ==> Classify(ports, f) == Redirected)
            && (Classify(ports, f) == Redirected ==> Step(ports, st', o.frame, now') == Outcome(st', o.frame, Pass))
  {
    if Classify(ports, f) == Redirected {
      RedirectFields(f);
    }
  }

  /** The frames agree outside the given offsets. */
  predicate SameExcept(f: Frame, r: Frame, offsets: set<nat>) {
    |r| == |f| && forall i: nat :: i < |f| && i !in offsets ==> r[i] == f[i]
  }

  lemma SameExceptChain(f: Frame, g: Frame, r: Frame, s: set<nat>, t: set<nat>)
    requires SameExcept(f, g, s) && SameExcept(g, r, t)
    ensures SameExcept(f, r, s + t)
  {
  }

  /** A redirected frame differs from the original only in destination port, TTL, window and the two checksums. */
  lemma RedirectFields(f: Frame)
    requires |f| >= 54
    ensures var r := Redirect(f);
            var p := PersonalityOf(GetWord(f, 34));
            && GetWord(r, 36) == HONEYPOT_PORT && r[22] == p.ttl && GetWord(r, 48) == p.window
            && SameExcept(f, r, {22, 24, 25, 36, 37, 48, 49, 50, 51})
  {
    var p := PersonalityOf(GetWord(f, 34));
    var a := RedirectPort(f);
    var b := MutateTtl(a, p.ttl);
    var r := MutateWindow(b, p.window);
    PortFields(f);
    TtlFields(a, p.ttl);
    WindowFields(b, p.window);
    SameExceptChain(f, a, b, {36, 37, 50, 51}, {22, 24, 25});
    SameExceptChain(f, b, r, {36, 37, 50, 51} + {22, 24, 25}, {48, 49, 50, 51});
    assert {36, 37, 50, 51} + {22, 24, 25} + {48, 49, 50, 51} == {22, 24, 25, 36, 37, 48, 49, 50, 51};
    assert b[36] == a[36] && b[37] == a[37] && r[36] == b[36] && r[37] == b[37] && r[22] == b[22];
  }

  lemma PortFields(f: Frame)
    requires |f| >= 54
    ensures GetWord(RedirectPort(f), 36) == HONEYPOT_PORT
    ensures SameExcept(f, RedirectPort(f), {36, 37, 50, 51})
  {
    EditedFields(f, 50, 36, HONEYPOT_PORT, GetWord(f, 36), HONEYPOT_PORT);
  }

  lemma TtlFields(f: Frame, ttl: byte)
    requires |f| >= 54
    ensures MutateTtl(f, ttl)[22] == ttl
    ensures SameExcept(f, MutateTtl(f, ttl), {22, 24, 25})
  {
    if f[22] != ttl {
      EditedFields(f, 24, 22, Word(ttl, f[23]), Word(f[22], 0), Word(ttl, 0));
      WordBytes(ttl, f[23]);
    }
  }

  lemma WindowFields(f: Frame, window: u16)
    requires |f| >= 54
    ensures GetWord(MutateWindow(f, window), 48) == window
    ensures SameExcept(f, MutateWindow(f, window), {48, 49, 50, 51})
  {
    if GetWord(f, 48) != window {
      EditedFields(f, 50, 48, window, GetWord(f, 48), window);
    }
  }

  lemma RedirectPortKeepsSource(f: Frame)
    requires |f| >= 54
    ensures GetWord(RedirectPort(f), 34) == GetWord(f, 34)
  {
    PortFields(f);
  }

  lemma EditedFields(m: seq<byte>, k: nat, j: nat, w: u16, old16: u16, new16: u16)
    requires k % 2 == 0 && k + 1 < |m| && j % 2 == 0 && j + 1 < |m| && j != k
    ensures var r := Edited(m, k, j, w, old16, new16);
            && GetWord(r, j) == w && r[j] == w / 256 && r[j + 1] == w % 256
            && SameExcept(m, r, {k, k + 1, j, j + 1})
  {
    var c := CsumReplace2(GetWord(m, k), old16, new16);
    PutFields(m, k, c);
    PutFields(PutWord(m, k, c), j, w);
    SameExceptChain(m, PutWord(m, k, c), PutWord(PutWord(m, k, c), j, w), {k, k + 1}, {j, j + 1});
    assert {k, k + 1} + {j, j + 1} == {k, k + 1, j, j + 1};
  }

  lemma PutFields(m: seq<byte>, k: nat, w: u16)
    requires k % 2 == 0 && k + 1 < |m|
    ensures GetWord(PutWord(m, k, w), k) == w
    ensures PutWord(m, k, w)[k] == w / 256 && PutWord(m, k, w)[k + 1] == w % 256
    ensures SameExcept(m, PutWord(m, k, w), {k, k + 1})
  {
    GetAfterPut(m, k, k, w);
  }

  lemma FrameAfterStep(ports: PortTable, st: State, f: Frame, now: u64)
    ensures Step(ports, st, f, now).frame == if Classify(ports, f) == Redirected then Redirect(f) else f
  {
  }
}
