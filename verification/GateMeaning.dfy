/**
 * What the XDP program does to a frame, said in terms of the frame's bytes, the whitelist and the port table alone
 * (internal/ebpf/programs/phantom.c:199-298). Gate says how the program decides; here is what that amounts to.
 */
module GateMeaning {
  import opened Bytes
  import opened Checksum
  import Gate

  /** The two bytes at offset i as a number. */
  function Short(f: seq<byte>, i: nat): u16
    requires i + 1 < |f|
  {
    var hi: int, lo: int := f[i], f[i + 1];
    256 * hi + lo
  }

  const TOKEN := "PHANTOM_GRID_SPA_2025"

  /** A UDP datagram to port 1337 that starts with the token. */
  predicate TokenDatagram(f: seq<byte>) {
    && |f| >= 63
    && f[12] == 0x08 && f[13] == 0x00 && f[23] == 17
    && Short(f, 36) == 1337
    && forall i :: 0 <= i < 21 ==> f[42 + i] == TOKEN[i] as int
  }

  predicate TcpSegment(f: seq<byte>) {
    |f| >= 54 && f[12] == 0x08 && f[13] == 0x00 && f[23] == 6
  }

  function Port(f: seq<byte>): u16
    requires TcpSegment(f)
  {
    Short(f, 36)
  }

  /** The source address as a number. */
  function Sender(f: seq<byte>): u32
    requires |f| >= 34
  {
    0x1_0000 * Short(f, 26) + Short(f, 28)
  }

  /** A segment to a port of the list; the honeypot's own port is never looked up. */
  predicate ToCritical(ports: Gate.PortTable, f: seq<byte>) {
    TcpSegment(f) && Port(f) != 9999 && Port(f) in ports.critical
  }

  predicate ToDecoy(ports: Gate.PortTable, f: seq<byte>) {
    TcpSegment(f) && Port(f) != 9999 && Port(f) !in ports.critical && Port(f) in ports.fake
  }

  predicate ToOther(ports: Gate.PortTable, f: seq<byte>) {
    TcpSegment(f) && Port(f) != 9999 && Port(f) !in ports.critical && Port(f) !in ports.fake
  }

  /**
   * The flag bytes of null, FIN, Xmas and ACK scans, from the lowest bit FIN, SYN, RST, PSH, ACK, URG: nothing at
   * all, or, whatever the two bits above, one of these seven combinations.
   */
  predicate ScanFlags(flags: byte) {
    flags == 0 || flags % 0x40 in {0x01, 0x29, 0x39, 0x10, 0x18, 0x30, 0x38}
  }

  predicate Unexpired(whitelist: map<u32, u64>, addr: u32, now: u64) {
    addr in whitelist && now <= whitelist[addr]
  }

  /** Whether the program drops the frame. */
  predicate Dropped(ports: Gate.PortTable, whitelist: map<u32, u64>, f: seq<byte>, now: u64) {
    || TokenDatagram(f)
    || (ToCritical(ports, f) && !Unexpired(whitelist, Sender(f), now))
    || (ToOther(ports, f) && ScanFlags(f[47]))
  }

  /** Whether the program sends the frame to the honeypot instead. */
  predicate Diverted(ports: Gate.PortTable, f: seq<byte>) {
    ToOther(ports, f) && !ScanFlags(f[47])
  }

  /** A token sets its sender's expiry 30 s ahead; an expired entry goes when its sender knocks at a critical port. */
  function WhitelistThen(ports: Gate.PortTable, whitelist: map<u32, u64>, f: seq<byte>, now: u64): map<u32, u64> {
    if TokenDatagram(f) then whitelist[Sender(f) := (now + 30_000_000_000) % 0x1_0000_0000_0000_0000]
    else if ToCritical(ports, f) && !Unexpired(whitelist, Sender(f), now) then whitelist - {Sender(f)}
    else whitelist
  }

  /** A counter after one frame. */
  function Counted(counter: u64, hit: bool): u64 {
    if hit then (counter + 1) % 0x1_0000_0000_0000_0000 else counter
  }

  /** Everything one run of the program does except how a diverted frame is rewritten. */
  ghost predicate Effect(ports: Gate.PortTable, st: Gate.State, f: seq<byte>, now: u64, o: Gate.Outcome) {
    && (o.verdict == Gate.Drop <==> Dropped(ports, st.whitelist, f, now))
    && o.state.whitelist == WhitelistThen(ports, st.whitelist, f, now)
    && o.state.authSuccess == Counted(st.authSuccess, TokenDatagram(f))
    && o.state.stealthDrops == Counted(st.stealthDrops, ToOther(ports, f) && ScanFlags(f[47]))
    && o.state.osMutations == Counted(st.osMutations, Diverted(ports, f))
    && o.state.attackStats == Counted(st.attackStats, ToDecoy(ports, f) || Diverted(ports, f))
    && (if Diverted(ports, f) then Rewritten(f, o.frame) else o.frame == f)
  }

  // ---------------------------------------------------------------- the rewritten frame

  /** The TTL and window a frame gets, by the low two bits of its source port: Windows, Linux, FreeBSD, Solaris. */
  const TTLS: seq<byte> := [128, 64, 64, 255]
  const WINDOWS: seq<u16> := [65535, 29200, 65535, 29200]

  /** Destination port 9999, TTL and window by the source port, and no other change but the two checksums. */
  predicate Rewritten(f: seq<byte>, r: seq<byte>)
    requires |f| >= 54
  {
    && |r| == |f|
    && Short(r, 36) == 9999
    && r[22] == TTLS[f[35] % 4]
    && Short(r, 48) == WINDOWS[f[35] % 4]
    && forall i :: 0 <= i < |f| && i !in {22, 24, 25, 36, 37, 48, 49, 50, 51} ==> r[i] == f[i]
  }

  lemma RedirectRewrites(f: Gate.Frame)
    requires |f| >= 54
    ensures Rewritten(f, Gate.Redirect(f))
  {
    hide Gate.Redirect;
    Gate.RedirectFields(f);
    LowBits(f[34], f[35]);
    var r := Gate.Redirect(f);
    assert Gate.SameExcept(f, r, {22, 24, 25, 36, 37, 48, 49, 50, 51});
    forall i | 0 <= i < |f| && i !in {22, 24, 25, 36, 37, 48, 49, 50, 51}
      ensures r[i] == f[i]
    {
    }
  }

  lemma LowBits(hi: byte, lo: byte)
    ensures Word(hi, lo) % 4 == lo % 4
  {
  }

  // ---------------------------------------------------------------- field by field

  lemma TokenMeaning(f: Gate.Frame)
    ensures Gate.IsMagic(f) <==> TokenDatagram(f)
  {
    if |f| >= 63 {
      var payload := f[42..63];
      assert |Gate.SPA_SECRET_TOKEN| == 21;
      assert forall i :: 0 <= i < 21 ==> Gate.SPA_SECRET_TOKEN[i] == TOKEN[i] as int by {
        TokenBytes();
      }
      assert forall i :: 0 <= i < 21 ==> payload[i] == f[42 + i];
      assert GetWord(f, 12) == 0x0800 <==> f[12] == 8 && f[13] == 0 by { WordBytes(f[12], f[13]); }
    }
  }

  lemma TokenBytes()
    ensures |TOKEN| == |Gate.SPA_SECRET_TOKEN| == 21
    ensures forall i :: 0 <= i < 21 ==> Gate.SPA_SECRET_TOKEN[i] == TOKEN[i] as int
  {
  }

  lemma SegmentMeaning(f: Gate.Frame)
    ensures Gate.IsTcp(f) <==> TcpSegment(f)
    ensures TcpSegment(f) ==> Gate.DestPort(f) == Port(f)
  {
    if |f| >= 54 {
      WordBytes(f[12], f[13]);
    }
  }

  lemma SenderMeaning(f: Gate.Frame)
    requires |f| >= 34
    ensures Value(f[26..30]) == Sender(f)
  {
    var s := f[26..30];
    assert s[..3] == [f[26], f[27], f[28]] && s[..3][..2] == [f[26], f[27]] && s[..3][..2][..1] == [f[26]];
    assert Value([f[26]]) == f[26];
    assert Value(s[..3][..2]) == Short(f, 26);
    assert Value(s[..3]) == 256 * Short(f, 26) + f[28];
  }

  lemma SourceMeaning(f: Gate.Frame)
    requires Gate.IsIPv4(f)
    ensures Gate.Source(f) == Sender(f)
  {
    SenderMeaning(f);
  }

  /** The four tests of is_stealth_scan on single flags pick out exactly those flag bytes. */
  lemma ScanMeaning(flags: byte)
    ensures Gate.IsStealthScan(flags) <==> ScanFlags(flags)
  {
    hide Bit;
    SixBits(flags);
    NoBits(flags);
  }

  function BitValue(flags: byte, mask: nat): nat
    requires mask > 0
  {
    if Bit(flags, mask) then mask else 0
  }

  lemma SixBits(flags: byte)
    ensures flags % 0x40 == BitValue(flags, 1) + BitValue(flags, 2) + BitValue(flags, 4) + BitValue(flags, 8)
                            + BitValue(flags, 16) + BitValue(flags, 32)
  {
    SixRemainders(flags);
  }

  lemma SixRemainders(n: int)
    ensures n % 0x40 == n % 2 + 2 * (n / 2 % 2) + 4 * (n / 4 % 2) + 8 * (n / 8 % 2) + 16 * (n / 16 % 2)
                        + 32 * (n / 32 % 2)
  {
    Remainder4(n);
    Remainder8(n);
    Remainder16(n);
    Remainder32(n);
    Remainder64(n);
  }

  lemma Remainder4(n: int)
    ensures n % 4 == n % 2 + 2 * (n / 2 % 2)
  {
  }

  lemma Remainder8(n: int)
    ensures n % 8 == n % 4 + 4 * (n / 4 % 2)
  {
  }

  lemma Remainder16(n: int)
    ensures n % 16 == n % 8 + 8 * (n / 8 % 2)
  {
  }

  lemma Remainder32(n: int)
    ensures n % 32 == n % 16 + 16 * (n / 16 % 2)
  {
  }

  lemma Remainder64(n: int)
    ensures n % 64 == n % 32 + 32 * (n / 32 % 2)
  {
  }

  lemma NoBits(flags: byte)
    ensures flags == 0 ==> flags % 0x40 == 0
  {
  }

  // ---------------------------------------------------------------- the whole program

  /** The six kinds of frames in terms of bytes. */
  predicate IsKind(ports: Gate.PortTable, f: seq<byte>, k: Gate.Kind) {
    match k
    case Token => TokenDatagram(f)
    case Critical => ToCritical(ports, f)
    case Fake => ToDecoy(ports, f)
    case Stealth => ToOther(ports, f) && ScanFlags(f[47])
    case Redirected => Diverted(ports, f)
    case Ignored => !TokenDatagram(f) && (TcpSegment(f) ==> Port(f) == 9999)
  }

  lemma KindMeaning(ports: Gate.PortTable, f: Gate.Frame)
    ensures forall k :: Gate.Classify(ports, f) == k <==> IsKind(ports, f, k)
  {
    hide Gate.IsMagic, Gate.IsTcp, Gate.DestPort, Gate.IsStealthScan, ScanFlags;
    TokenMeaning(f);
    SegmentMeaning(f);
    if |f| >= 54 {
      ScanMeaning(f[47]);
    }
  }

  lemma AddressedIsIPv4(f: Gate.Frame)
    ensures TokenDatagram(f) || TcpSegment(f) ==> Gate.IsIPv4(f)
    ensures !(TokenDatagram(f) && TcpSegment(f))
  {
    TokenMeaning(f);
    SegmentMeaning(f);
  }

  lemma RemovedByLookup(st: Gate.State, addr: u32, now: u64)
    ensures Gate.LookedUp(st, addr, now).whitelist
            == if Unexpired(st.whitelist, addr, now) then st.whitelist else st.whitelist - {addr}
  {
    assert addr !in st.whitelist ==> st.whitelist - {addr} == st.whitelist;
  }

  /**
   * What one run of the program does, for every frame, whitelist and port table: it drops exactly the token, segments
   * to critical ports from senders without an unexpired entry, and scans of ports that are neither critical nor decoy.
   */
  lemma StepMeaning(ports: Gate.PortTable, st: Gate.State, f: Gate.Frame, now: u64)
    ensures Effect(ports, st, f, now, Gate.Step(ports, st, f, now))
  {
    hide Rewritten, Gate.Redirect, Gate.Classify, Gate.Source, Sender, TokenDatagram, ScanFlags;
    KindMeaning(ports, f);
    var k := Gate.Classify(ports, f);
    assert IsKind(ports, f, k) && (k == Gate.Token || !IsKind(ports, f, Gate.Token));
    if k == Gate.Token || k == Gate.Critical {
      AddressedIsIPv4(f);
      SourceMeaning(f);
      RemovedByLookup(st, Sender(f), now);
    }
    if k == Gate.Redirected {
      RedirectRewrites(f);
    }
  }

  lemma DropMeaning(ports: Gate.PortTable, st: Gate.State, f: Gate.Frame, now: u64)
    ensures Effect(ports, st, f, now, Gate.Step(ports, st, f, now))
    ensures Gate.Step(ports, st, f, now).verdict == Gate.Drop <==> Dropped(ports, st.whitelist, f, now)
  {
    hide Dropped, Gate.Step;
    StepMeaning(ports, st, f, now);
  }
}
