/** Verification of SPA packets (internal/spa/verifier.go). */
module Verifier {
  import opened Bytes
  import opened Crypto
  import opened Totp
  import opened Packet
  import Replay

  datatype SpaMode = StaticMode | DynamicMode | AsymmetricMode

  /** The fields of the SPA configuration that verification reads; replayWindowSeconds sets the whitelist duration. */
  datatype Config = Config(mode: SpaMode, totpTimeStep: int, totpTolerance: int,
                           totpSecret: seq<byte>, totpSecrets: seq<seq<byte>>,
                           publicKey: seq<byte>, publicKeys: seq<seq<byte>>,
                           hmacSecret: seq<byte>, hmacSecrets: seq<seq<byte>>,
                           replayWindowSeconds: int64)

  datatype Refusal =
    | BadPacket(error: ParseError)
    | MissingIp
    | InvalidIp
    | IpMismatch
    | StaleTimestamp
    | InvalidTotp
    | InvalidSignature
    | UnsupportedMode
    | Replayed

  datatype Verdict = Passed | Refused(why: Refusal)

  /** Several secrets or keys if there are any, else the single legacy one if it is set. */
  function Choices(several: seq<seq<byte>>, single: seq<byte>): (r: seq<seq<byte>>) {
    if |several| > 0 then several else if |single| > 0 then [single] else []
  }

  function TotpSecrets(cfg: Config): seq<seq<byte>> {
    Choices(cfg.totpSecrets, cfg.totpSecret)
  }

  function Keys(cfg: Config): seq<seq<byte>> {
    match cfg.mode
    case AsymmetricMode => Choices(cfg.publicKeys, cfg.publicKey)
    case DynamicMode => Choices(cfg.hmacSecrets, cfg.hmacSecret)
    case StaticMode => []
  }

  // ---------------------------------------------------------------- timestamp window

  /** The signed 64-bit test of the timestamp, wrap-around included. */
  predicate TimestampOk(now: Clock, timestamp: int64) {
    var timeDiff: int := Signed64(now - timestamp);
    var magnitude := if timeDiff < 0 then Signed64(-timeDiff) else timeDiff;
    !(magnitude > Replay.MAX_TIME_DIFF)
  }

  /**
   * The test accepts the five minutes on either side, and besides exactly the one timestamp whose
   * difference wraps to the most negative integer, which negation leaves negative.
   */
  lemma TimestampExactly(now: Clock, timestamp: int64)
    ensures TimestampOk(now, timestamp) <==>
            -300 <= now - timestamp <= 300 || now - timestamp == 0x8000_0000_0000_0000
  {
    var d := now - timestamp;
    if d < 0x8000_0000_0000_0000 {
      SignedSmall(d);
      SignedSmall(-d);
    } else {
      SignedSmall(d - 0x1_0000_0000_0000_0000);
      WrapShift(d);
      if d > 0x8000_0000_0000_0000 {
        SignedSmall(0x1_0000_0000_0000_0000 - d);
      }
    }
  }

  lemma SignedSmall(x: int)
    requires -0x8000_0000_0000_0000 <= x < 0x8000_0000_0000_0000
    ensures Signed64(x) == x
  {
  }

  lemma WrapShift(x: int)
    ensures Signed64(x) == Signed64(x - 0x1_0000_0000_0000_0000)
    ensures Signed64(0x8000_0000_0000_0000) == -0x8000_0000_0000_0000
  {
  }

  /** For the timestamps clients produce, the window is exact. */
  lemma TimestampExactWhenNonNegative(now: Clock, timestamp: int64)
    requires timestamp >= 0
    ensures TimestampOk(now, timestamp) <==> -300 <= now - timestamp <= 300
  {
    TimestampExactly(now, timestamp);
  }

  // ---------------------------------------------------------------- the checks before the lock

  /** One packet on its way through verification: its bytes, its sender and the clock samples taken for it. */
  datatype Attempt = Attempt(data: seq<byte>, clientIp: seq<byte>, clock: Clock, totpClocks: seq<Clock>)

  /** Every secret's validation samples the clock again; the single legacy secret is tried when the list is empty. */
  predicate Sampled(cfg: Config, a: Attempt) {
    && cfg.totpTimeStep != 0
    && |a.totpClocks| == if cfg.totpSecrets != [] then |cfg.totpSecrets| else if cfg.totpSecret != [] then 1 else 0
  }

  ghost predicate TotpOk(c: Primitives, cfg: Config, a: Attempt, code: u32)
    requires Sampled(cfg, a)
  {
    exists i :: 0 <= i < |TotpSecrets(cfg)|
                && InWindow(c, TotpSecrets(cfg)[i], cfg.totpTimeStep, cfg.totpTolerance, a.totpClocks[i], code)
  }

  predicate SealMatches(c: Primitives, mode: SpaMode, key: seq<byte>, packet: SpaPacket, data: seq<byte>)
    requires |packet.signature| <= |data|
  {
    match mode
    case AsymmetricMode => VerifyAsymmetricPacket(c, key, packet, data)
    case DynamicMode => VerifyDynamicPacket(c, key, packet, data)
    case StaticMode => false
  }

  predicate SealOk(c: Primitives, cfg: Config, packet: SpaPacket, data: seq<byte>)
    requires |packet.signature| <= |data|
  {
    exists i :: 0 <= i < |Keys(cfg)| && SealMatches(c, cfg.mode, Keys(cfg)[i], packet, data)
  }

  function IpBinding(packet: SpaPacket, clientIp: seq<byte>): Verdict {
    if packet.version != 2 then Passed
    else if packet.clientIp == [] || clientIp == [] then Refused(MissingIp)
    else if To16(packet.clientIp) == [] || To16(clientIp) == [] then Refused(InvalidIp)
    else if To16(packet.clientIp) != To16(clientIp) then Refused(IpMismatch)
    else Passed
  }

  /** VerifyPacket up to the lock, in the order of its checks. */
  ghost function Precheck(c: Primitives, cfg: Config, a: Attempt): Verdict
    requires Sampled(cfg, a)
  {
    match Parse(a.data)
    case Malformed(error) => Refused(BadPacket(error))
    case Parsed(packet) =>
      EncodeOfParse(a.data);
      var binding := IpBinding(packet, a.clientIp);
      if binding.Refused? then binding
      else if !TimestampOk(a.clock, packet.timestamp) then Refused(StaleTimestamp)
      else if !TotpOk(c, cfg, a, packet.totp) then Refused(InvalidTotp)
      else if cfg.mode.StaticMode? then Refused(UnsupportedMode)
      else if !SealOk(c, cfg, packet, a.data) then Refused(InvalidSignature)
      else Passed
  }

  // ---------------------------------------------------------------- what passing means

  /** The code is one of a secret on the list, or of the legacy secret when the list is empty. */
  ghost predicate CodeConfigured(c: Primitives, cfg: Config, a: Attempt, code: u32)
    requires Sampled(cfg, a)
  {
    if cfg.totpSecrets != [] then
      exists i :: 0 <= i < |cfg.totpSecrets|
                  && InWindow(c, cfg.totpSecrets[i], cfg.totpTimeStep, cfg.totpTolerance, a.totpClocks[i], code)
    else
      && cfg.totpSecret != []
      && InWindow(c, cfg.totpSecret, cfg.totpTimeStep, cfg.totpTolerance, a.totpClocks[0], code)
  }

  /** Likewise for the key a signature or HMAC verifies with, and with the mode byte that goes with it. */
  ghost predicate SealConfigured(c: Primitives, cfg: Config, p: SpaPacket) {
    match cfg.mode
    case AsymmetricMode =>
      p.mode == 2
      && if cfg.publicKeys != [] then exists k :: k in cfg.publicKeys && c.Verify(k, Body(p), p.signature)
         else cfg.publicKey != [] && c.Verify(cfg.publicKey, Body(p), p.signature)
    case DynamicMode =>
      p.mode == 1
      && if cfg.hmacSecrets != [] then exists k :: k in cfg.hmacSecrets && c.hmacSha256(k, Body(p)) == p.signature
         else cfg.hmacSecret != [] && c.hmacSha256(cfg.hmacSecret, Body(p)) == p.signature
    case StaticMode => false
  }

  /** The conditions on the packet itself, in no order and without reference to parsing. */
  ghost predicate Genuine(c: Primitives, cfg: Config, a: Attempt, p: SpaPacket)
    requires Sampled(cfg, a)
  {
    && WellFormed(p) && Encode(p) == a.data
    && (p.version == 2 ==> To16(a.clientIp) == p.clientIp)
    && TimestampOk(a.clock, p.timestamp)
    && CodeConfigured(c, cfg, a, p.totp)
    && SealConfigured(c, cfg, p)
  }

  /** The list of candidates the loops go through is the configured one. */
  lemma CodeMeaning(c: Primitives, cfg: Config, a: Attempt, code: u32)
    requires Sampled(cfg, a)
    ensures TotpOk(c, cfg, a, code) <==> CodeConfigured(c, cfg, a, code)
  {
    if cfg.totpSecrets == [] && cfg.totpSecret != [] && CodeConfigured(c, cfg, a, code) {
      assert TotpSecrets(cfg)[0] == cfg.totpSecret;
    }
  }

  lemma ChoiceMeaning(several: seq<seq<byte>>, single: seq<byte>)
    ensures forall k :: k in Choices(several, single)
                        <==> if several != [] then k in several else single != [] && k == single
  {
  }

  /**
   * The checks pass exactly for genuine packets. The mode byte is never compared with the configured mode;
   * the length of the matching seal forces them to agree.
   */
  lemma PassesExactly(c: Primitives, cfg: Config, a: Attempt, p: SpaPacket)
    requires Sampled(cfg, a)
    ensures Genuine(c, cfg, a, p) <==> Parse(a.data) == Parsed(p) && Precheck(c, cfg, a) == Passed
  {
    ParseExactly(a.data, p);
    CodeMeaning(c, cfg, a, p.totp);
    if Parse(a.data) == Parsed(p) {
      EncodeOfParse(a.data);
      SealMeaning(c, cfg, a.data, p);
      assert p.version == 2 ==> To16(p.clientIp) == p.clientIp;
    }
  }

  /** A seal matches exactly for a configured key and the mode byte of the configured mode, forced by its length. */
  lemma SealMeaning(c: Primitives, cfg: Config, data: seq<byte>, p: SpaPacket)
    requires WellFormed(p) && |p.signature| <= |data| && SignedData(p, data) == Body(p)
    ensures SealOk(c, cfg, p, data) <==> SealConfigured(c, cfg, p)
  {
    SealByKey(c, cfg, data, p);
    match cfg.mode
    case AsymmetricMode =>
      ChoiceMeaning(cfg.publicKeys, cfg.publicKey);
      assert forall k :: SealMatches(c, cfg.mode, k, p, data) <==> c.Verify(k, Body(p), p.signature);
      if SealConfigured(c, cfg, p) {
        var k :| k in Keys(cfg) && c.Verify(k, Body(p), p.signature);
        assert SealMatches(c, cfg.mode, k, p, data);
      }
    case DynamicMode =>
      ChoiceMeaning(cfg.hmacSecrets, cfg.hmacSecret);
      assert forall k :: SealMatches(c, cfg.mode, k, p, data) <==> c.hmacSha256(k, Body(p)) == p.signature;
      if SealConfigured(c, cfg, p) {
        var k :| k in Keys(cfg) && c.hmacSha256(k, Body(p)) == p.signature;
        assert SealMatches(c, cfg.mode, k, p, data);
      }
    case StaticMode =>
  }

  lemma SealByKey(c: Primitives, cfg: Config, data: seq<byte>, p: SpaPacket)
    requires |p.signature| <= |data|
    ensures SealOk(c, cfg, p, data) <==> exists k :: k in Keys(cfg) && SealMatches(c, cfg.mode, k, p, data)
  {
    if SealOk(c, cfg, p, data) {
      var i :| 0 <= i < |Keys(cfg)| && SealMatches(c, cfg.mode, Keys(cfg)[i], p, data);
      assert Keys(cfg)[i] in Keys(cfg);
    }
    if exists k :: k in Keys(cfg) && SealMatches(c, cfg.mode, k, p, data) {
      var k :| k in Keys(cfg) && SealMatches(c, cfg.mode, k, p, data);
      var i :| 0 <= i < |Keys(cfg)| && Keys(cfg)[i] == k;
    }
  }

  /**
   * What a passed packet had, on the configuration's own fields: a code of a secret on the list, and of the single
   * legacy secret only when there is no list, and the same for the keys.
   */
  lemma PassedMeans(c: Primitives, cfg: Config, a: Attempt, p: SpaPacket)
    requires Sampled(cfg, a) && Parse(a.data) == Parsed(p) && Precheck(c, cfg, a) == Passed
    ensures cfg.totpSecrets != [] ==>
              exists i ::
                && 0 <= i < |cfg.totpSecrets|
                && InWindow(c, cfg.totpSecrets[i], cfg.totpTimeStep, cfg.totpTolerance, a.totpClocks[i], p.totp)
    ensures cfg.totpSecrets == [] ==>
              cfg.totpSecret != []
              && InWindow(c, cfg.totpSecret, cfg.totpTimeStep, cfg.totpTolerance, a.totpClocks[0], p.totp)
    ensures cfg.mode.AsymmetricMode? && cfg.publicKeys != [] ==>
              exists k :: k in cfg.publicKeys && c.Verify(k, Body(p), p.signature)
    ensures cfg.mode.AsymmetricMode? && cfg.publicKeys == [] ==>
              cfg.publicKey != [] && c.Verify(cfg.publicKey, Body(p), p.signature)
    ensures cfg.mode.DynamicMode? && cfg.hmacSecrets != [] ==>
              exists k :: k in cfg.hmacSecrets && c.hmacSha256(k, Body(p)) == p.signature
    ensures cfg.mode.DynamicMode? && cfg.hmacSecrets == [] ==>
              cfg.hmacSecret != [] && c.hmacSha256(cfg.hmacSecret, Body(p)) == p.signature
    ensures !cfg.mode.StaticMode?
  {
    PassesExactly(c, cfg, a, p);
  }

  /** Bound to the sender: version 1 is bound to nobody. */
  predicate BoundTo(p: SpaPacket, clientIp: seq<byte>) {
    p.version == 2 ==> To16(clientIp) == p.clientIp
  }

  predicate InTime(now: Clock, p: SpaPacket) {
    -300 <= now - p.timestamp <= 300 || now - p.timestamp == 0x8000_0000_0000_0000
  }

  /** Which refusal a packet that parses gets, cause by cause: the first thing wrong with it. */
  lemma RefusedExactly(c: Primitives, cfg: Config, a: Attempt, p: SpaPacket)
    requires Sampled(cfg, a) && Parse(a.data) == Parsed(p)
    ensures var v := Precheck(c, cfg, a);
            var bound := BoundTo(p, a.clientIp);
            var coded := bound && InTime(a.clock, p) && CodeConfigured(c, cfg, a, p.totp);
            && (v == Refused(MissingIp) <==> p.version == 2 && a.clientIp == [])
            && (v == Refused(InvalidIp) <==> p.version == 2 && |a.clientIp| !in {0, 4, 16})
            && (v == Refused(IpMismatch) <==> p.version == 2 && |a.clientIp| in {4, 16} && !bound)
            && (v == Refused(StaleTimestamp) <==> bound && !InTime(a.clock, p))
            && (v == Refused(InvalidTotp) <==> bound && InTime(a.clock, p) && !CodeConfigured(c, cfg, a, p.totp))
            && (v == Refused(UnsupportedMode) <==> coded && cfg.mode.StaticMode?)
            && (v == Refused(InvalidSignature) <==> coded && !cfg.mode.StaticMode? && !SealConfigured(c, cfg, p))
  {
    EncodeOfParse(a.data);
    TimestampExactly(a.clock, p.timestamp);
    CodeMeaning(c, cfg, a, p.totp);
    SealMeaning(c, cfg, a.data, p);
    hide CodeConfigured, SealConfigured, TotpOk, SealOk, TimestampOk;
    BindingExactly(p, a.clientIp);
  }

  lemma BindingExactly(p: SpaPacket, clientIp: seq<byte>)
    requires WellFormed(p)
    ensures var v, bound := IpBinding(p, clientIp), BoundTo(p, clientIp);
            && (v == Passed <==> bound)
            && (v == Refused(MissingIp) <==> p.version == 2 && clientIp == [])
            && (v == Refused(InvalidIp) <==> p.version == 2 && |clientIp| !in {0, 4, 16})
            && (v == Refused(IpMismatch) <==> p.version == 2 && |clientIp| in {4, 16} && !bound)
            && (v.Passed? || v.why in {MissingIp, InvalidIp, IpMismatch})
  {
    assert p.version == 2 ==> To16(p.clientIp) == p.clientIp;
  }

  /** For version 2, the address whitelisted later is the last four bytes of the sealed address field. */
  lemma SealedAddressIsWhitelisted(c: Primitives, cfg: Config, a: Attempt, p: SpaPacket)
    requires Sampled(cfg, a) && Genuine(c, cfg, a, p) && p.version == 2
    requires To4(a.clientIp) != []
    ensures To4(a.clientIp) == p.clientIp[12..] && p.clientIp[..12] == V4_IN_V6_PREFIX
    ensures p.clientIp[12..] == a.data[26..30]
  {
    EncodedFields(p);
    assert a.data[26..30] == a.data[14..30][12..];
  }

  // ---------------------------------------------------------------- completeness

  /** What a client puts into its packet. */
  datatype Client = Client(scheme: Scheme, key: seq<byte>, secret: seq<byte>, totpTime: Clock, stamp: Clock,
                           ip: seq<byte>, padding: seq<byte>)

  function ClientCode(c: Primitives, timeStep: int, client: Client): u32
    requires timeStep != 0
  {
    CodeAt(c, client.secret, timeStep, client.totpTime)
  }

  /** Its packet, with TOTP and timestamp sampled from the client's clock. */
  function ClientPacket(c: Primitives, timeStep: int, client: Client): SpaPacket
    requires timeStep != 0
  {
    SealedPacket(c, client.scheme, client.key, ClientCode(c, timeStep, client), client.stamp, client.ip, client.padding)
  }

  ghost predicate KeyKnown(c: Primitives, cfg: Config, m: Scheme, key: seq<byte>) {
    match m
    case Hmac =>
      cfg.mode.DynamicMode? && (key in cfg.hmacSecrets || (cfg.hmacSecrets == [] && key == cfg.hmacSecret && key != []))
    case Ed25519 =>
      && cfg.mode.AsymmetricMode?
      && ((exists pk :: pk in cfg.publicKeys && c.MatchingKeys(key, pk))
          || (cfg.publicKeys == [] && cfg.publicKey != [] && c.MatchingKeys(key, cfg.publicKey)))
  }

  /** The server has the client's secret, and its clock at that secret's turn is close enough to the client's. */
  ghost predicate SecretKnown(cfg: Config, client: Client, a: Attempt)
    requires Sampled(cfg, a)
  {
    || (exists i :: 0 <= i < |cfg.totpSecrets| && cfg.totpSecrets[i] == client.secret && Close(cfg, client, a, i))
    || (cfg.totpSecrets == [] && cfg.totpSecret == client.secret && client.secret != [] && Close(cfg, client, a, 0))
  }

  predicate Close(cfg: Config, client: Client, a: Attempt, i: nat)
    requires i < |a.totpClocks|
  {
    var skew := cfg.totpTolerance * cfg.totpTimeStep;
    -skew <= client.totpTime - a.totpClocks[i] <= skew
  }

  /** A sealed packet passes every check when its code is in some secret's window and its timestamp and sender fit. */
  lemma SealedPasses(c: Primitives, cfg: Config, m: Scheme, key: seq<byte>, code: u32, stamp: Clock,
                     ip: seq<byte>, padding: seq<byte>, a: Attempt)
    requires Sampled(cfg, a) && KeyKnown(c, cfg, m, key) && CodeConfigured(c, cfg, a, code)
    requires a.data == Encode(SealedPacket(c, m, key, code, stamp, ip, padding))
    requires To16(a.clientIp) == BoundIp(ip)
    requires -300 <= a.clock - stamp <= 300
    ensures Precheck(c, cfg, a) == Passed
  {
    var p := SealedPacket(c, m, key, code, stamp, ip, padding);
    CreatedRoundTrip(c, m, key, code, stamp, ip, padding);
    ParseOfEncode(p);
    EncodedFields(p);
    TimestampExactly(a.clock, stamp);
    assert p.signature == Seal(c, m, key, Body(p));
    assert Genuine(c, cfg, a, p);
    PassesExactly(c, cfg, a, p);
  }

  /** The attempt brings a packet of a client the server knows, from its bound address and with clocks close enough. */
  ghost predicate HonestPacket(c: Primitives, cfg: Config, client: Client, a: Attempt) {
    && Sampled(cfg, a) && cfg.totpTimeStep > 0 && cfg.totpTolerance >= 0
    && KeyKnown(c, cfg, client.scheme, client.key) && SecretKnown(cfg, client, a)
    && a.data == Encode(ClientPacket(c, cfg.totpTimeStep, client))
    && To16(a.clientIp) == BoundIp(client.ip)
    && -300 <= a.clock - client.stamp <= 300
  }

  lemma ClientCodeConfigured(c: Primitives, cfg: Config, client: Client, a: Attempt)
    requires Sampled(cfg, a) && cfg.totpTimeStep > 0 && cfg.totpTolerance >= 0 && SecretKnown(cfg, client, a)
    ensures CodeConfigured(c, cfg, a, ClientCode(c, cfg.totpTimeStep, client))
  {
    hide InWindow;
    var i := 0;
    if cfg.totpSecrets != [] {
      i :| 0 <= i < |cfg.totpSecrets| && cfg.totpSecrets[i] == client.secret && Close(cfg, client, a, i);
    }
    SkewCovered(c, client.secret, cfg.totpTimeStep, cfg.totpTolerance, client.totpTime, a.totpClocks[i]);
  }

  /** An honest packet passes every check, for every padding and both modes. */
  lemma ClientPacketPasses(c: Primitives, cfg: Config, client: Client, a: Attempt)
    requires HonestPacket(c, cfg, client, a)
    ensures Precheck(c, cfg, a) == Passed
  {
    ClientCodeConfigured(c, cfg, client, a);
    SealedPasses(c, cfg, client.scheme, client.key, ClientCode(c, cfg.totpTimeStep, client), client.stamp, client.ip,
                 client.padding, a);
  }

  // ---------------------------------------------------------------- the verifier object

  function HashOf(c: Primitives, data: seq<byte>): Hash32 {
    c.sha256(data)
  }

  function CommitOf(c: Primitives, a: Attempt): Replay.Commit {
    Replay.Commit(HashOf(c, a.data), a.clock)
  }

  /** VerifyPacket as a whole, given the cache it finds under the lock. */
  ghost function VerdictOf(c: Primitives, cfg: Config, cache: Replay.Cache, a: Attempt): Verdict
    requires Sampled(cfg, a)
  {
    var checked := Precheck(c, cfg, a);
    if checked.Passed? && !Replay.Fresh(cache, CommitOf(c, a)) then Refused(Replayed) else checked
  }

  /** It is accepted if and only if its hash is not cached or the cache, over its limit, drops the entry as too old. */
  lemma ClientPacketAccepted(c: Primitives, cfg: Config, client: Client, a: Attempt, cache: Replay.Cache)
    requires HonestPacket(c, cfg, client, a)
    ensures var h := c.sha256(a.data);
            VerdictOf(c, cfg, cache, a) == Passed
            <==> h !in cache || (|cache| > 1000 && a.clock - cache[h] > 300)
  {
    ClientPacketPasses(c, cfg, client, a);
    Replay.RefusedExactly(cache, CommitOf(c, a));
  }

  class PacketVerifier {
    const primitives: Primitives
    const spaConfig: Config
    var seenCache: map<Hash32, Clock>

    constructor (primitives: Primitives, spaConfig: Config)
      ensures this.primitives == primitives && this.spaConfig == spaConfig && seenCache == map[]
    {
      this.primitives, this.spaConfig := primitives, spaConfig;
      seenCache := map[];
    }

    /** The loop over the known TOTP secrets, or the one legacy secret when there are none. */
    method AnyTotp(a: Attempt, code: u32) returns (validTotp: bool)
      requires Sampled(spaConfig, a)
      ensures validTotp <==> CodeConfigured(primitives, spaConfig, a, code)
    {
      var secrets := spaConfig.totpSecrets;
      validTotp := false;
      if |secrets| > 0 {
        for i := 0 to |secrets|
          invariant !validTotp
          invariant forall j :: 0 <= j < i ==>
                      !InWindow(primitives, secrets[j], spaConfig.totpTimeStep, spaConfig.totpTolerance,
                                a.totpClocks[j], code)
        {
          validTotp := ValidateTotp(primitives, secrets[i], spaConfig.totpTimeStep, spaConfig.totpTolerance,
                                    a.totpClocks[i], code);
          if validTotp {
            break;
          }
        }
      } else if |spaConfig.totpSecret| > 0 {
        validTotp := ValidateTotp(primitives, spaConfig.totpSecret, spaConfig.totpTimeStep, spaConfig.totpTolerance,
                                  a.totpClocks[0], code);
      }
    }

    /** The loop over the known public keys or HMAC secrets, or the one legacy key when there are none. */
    method AnyKey(several: seq<seq<byte>>, single: seq<byte>, packet: SpaPacket, data: seq<byte>)
      returns (validSig: bool)
      requires |packet.signature| <= |data|
      ensures several != [] ==>
                (validSig <==> exists k :: k in several && SealMatches(primitives, spaConfig.mode, k, packet, data))
      ensures several == [] ==>
                (validSig <==> single != [] && SealMatches(primitives, spaConfig.mode, single, packet, data))
    {
      validSig := false;
      if |several| > 0 {
        for i := 0 to |several|
          invariant !validSig
          invariant forall j :: 0 <= j < i ==> !SealMatches(primitives, spaConfig.mode, several[j], packet, data)
        {
          if SealMatches(primitives, spaConfig.mode, several[i], packet, data) {
            validSig := true;
            break;
          }
        }
      } else if |single| > 0 {
        validSig := SealMatches(primitives, spaConfig.mode, single, packet, data);
      }
    }

    /** The switch over the mode. */
    method AnySeal(packet: SpaPacket, data: seq<byte>) returns (validSig: bool)
      requires |packet.signature| <= |data| && !spaConfig.mode.StaticMode?
      ensures validSig <==> SealOk(primitives, spaConfig, packet, data)
      ensures WellFormed(packet) && SignedData(packet, data) == Body(packet) ==>
                (validSig <==> SealConfigured(primitives, spaConfig, packet))
    {
      ChoiceMeaning(spaConfig.publicKeys, spaConfig.publicKey);
      ChoiceMeaning(spaConfig.hmacSecrets, spaConfig.hmacSecret);
      SealByKey(primitives, spaConfig, data, packet);
      if WellFormed(packet) && SignedData(packet, data) == Body(packet) {
        SealMeaning(primitives, spaConfig, data, packet);
      }
      if spaConfig.mode.AsymmetricMode? {
        validSig := AnyKey(spaConfig.publicKeys, spaConfig.publicKey, packet, data);
      } else {
        validSig := AnyKey(spaConfig.hmacSecrets, spaConfig.hmacSecret, packet, data);
      }
    }

    /** VerifyPacket up to the lock. */
    method Check(a: Attempt) returns (verdict: Verdict)
      requires Sampled(spaConfig, a)
      ensures verdict == Precheck(primitives, spaConfig, a)
    {
      var parsed := ParseSpaPacket(a.data);
      if parsed.Malformed? {
        return Refused(BadPacket(parsed.error));
      }
      EncodeOfParse(a.data);
      var packet := parsed.packet;
      var binding := IpBinding(packet, a.clientIp);
      if binding.Refused? {
        return binding;
      }
      if !TimestampOk(a.clock, packet.timestamp) {
        return Refused(StaleTimestamp);
      }
      var validTotp := AnyTotp(a, packet.totp);
      CodeMeaning(primitives, spaConfig, a, packet.totp);
      if !validTotp {
        return Refused(InvalidTotp);
      }
      if spaConfig.mode.StaticMode? {
        return Refused(UnsupportedMode);
      }
      var validSig := AnySeal(packet, a.data);
      if !validSig {
        return Refused(InvalidSignature);
      }
      return Passed;
    }

    /** The cleanup loop: entries are visited in some order and deleted one by one. */
    method CleanUp(currentTime: Clock)
      requires |seenCache| > Replay.CLEANUP_ABOVE
      modifies `seenCache
      ensures seenCache == Replay.Cleaned(old(seenCache), currentTime)
    {
      var unvisited := seenCache.Keys;
      while unvisited != {}
        invariant unvisited <= old(seenCache).Keys
        invariant forall k :: k in seenCache <==>
                    k in old(seenCache) && (k in unvisited || currentTime - old(seenCache)[k] <= Replay.MAX_TIME_DIFF)
        invariant forall k :: k in seenCache ==> seenCache[k] == old(seenCache)[k]
      {
        var k :| k in unvisited;
        unvisited := unvisited - {k};
        if currentTime - seenCache[k] > Replay.MAX_TIME_DIFF {
          seenCache := map x | x in seenCache && x != k :: seenCache[x];
        }
      }
    }

    /** The locked section, with the clock sampled before the lock was taken. */
    method CommitReplay(hash: Hash32, currentTime: Clock) returns (isNew: bool)
      modifies `seenCache
      ensures isNew <==> Replay.Fresh(old(seenCache), Replay.Commit(hash, currentTime))
      ensures seenCache == Replay.After(old(seenCache), Replay.Commit(hash, currentTime))
    {
      if |seenCache| > Replay.CLEANUP_ABOVE {
        CleanUp(currentTime);
      }
      if hash in seenCache {
        return false;
      }
      seenCache := seenCache[hash := currentTime];
      return true;
    }

    /** VerifyPacket without interference between its two halves. */
    method VerifyPacket(a: Attempt) returns (verdict: Verdict)
      requires Sampled(spaConfig, a)
      modifies `seenCache
      ensures verdict == VerdictOf(primitives, spaConfig, old(seenCache), a)
      ensures seenCache == if Precheck(primitives, spaConfig, a).Passed?
                           then Replay.After(old(seenCache), CommitOf(primitives, a)) else old(seenCache)
    {
      verdict := Check(a);
      if verdict.Passed? {
        var isNew := CommitReplay(HashOf(primitives, a.data), a.clock);
        if !isNew {
          verdict := Refused(Replayed);
        }
      }
    }
  }
}
