/** The user-space handler and the whitelist write (internal/spa/handler.go, internal/spa/map_loader.go). */
module Handler {
  import opened Bytes
  import opened Packet
  import opened Verifier
  import Gate
  import GateMeaning
  import GateProgram
  import Replay

  // ---------------------------------------------------------------- whitelist entries

  /** One address on both sides of the map. */
  function WhitelistKey(ipv4: seq<byte>): u32
    requires |ipv4| == 4
  {
    Pow256Widths();
    Value(ipv4)
  }

  /** A frame and a packet are about one address exactly when the address bytes agree. */
  lemma SameAddress(f: Gate.Frame, ipv4: seq<byte>)
    requires |f| >= 34 && |ipv4| == 4
    ensures GateMeaning.Sender(f) == WhitelistKey(ipv4) <==> f[26..30] == ipv4
  {
    GateMeaning.SenderMeaning(f);
    if Value(f[26..30]) == Value(ipv4) {
      ValueInjective(f[26..30], ipv4);
    }
  }

  /** Nanoseconds since boot, unless /proc/uptime could not be read. */
  datatype Uptime = Known(ns: u64) | Unreadable

  const FALLBACK_BASE_NS: u64 := 1_000_000_000_000_000_000

  /** The stored expiry, in 64-bit arithmetic: duration plus one second of slack. */
  function WhitelistExpiry(uptime: Uptime, durationSeconds: int64): u64 {
    var durationNs := Wrap64(Wrap64(durationSeconds) * Gate.SECOND);
    match uptime
    case Known(ns) => Wrap64(Wrap64(ns + durationNs) + Gate.SECOND)
    case Unreadable => Wrap64(FALLBACK_BASE_NS + durationNs)
  }

  lemma WrapStep(a: int, q: int)
    ensures Wrap64(a + 0x1_0000_0000_0000_0000 * q) == Wrap64(a)
  {
  }

  /**
   * The wrapping steps amount to one, for a negative duration as well; without the uptime the base is 10^18 ns and
   * there is no extra second.
   */
  lemma ExpiryValue(ns: u64, durationSeconds: int64)
    ensures WhitelistExpiry(Known(ns), durationSeconds)
            == (ns + (durationSeconds + 1) * 1_000_000_000) % 0x1_0000_0000_0000_0000
    ensures WhitelistExpiry(Unreadable, durationSeconds)
            == (1_000_000_000_000_000_000 + durationSeconds * 1_000_000_000) % 0x1_0000_0000_0000_0000
  {
    FallbackValue(durationSeconds);
    KnownValue(ns, durationSeconds);
  }

  lemma FallbackValue(durationSeconds: int64)
    ensures WhitelistExpiry(Unreadable, durationSeconds)
            == Wrap64(1_000_000_000_000_000_000 + durationSeconds * 1_000_000_000)
  {
    var w, q := WrapQuotient(durationSeconds);
    var d, r := WrapQuotient(w * Gate.SECOND);
    assert durationSeconds * 1_000_000_000 == d + 0x1_0000_0000_0000_0000 * (q * 1_000_000_000 + r);
    WrapStep(FALLBACK_BASE_NS + d, q * 1_000_000_000 + r);
  }

  lemma KnownValue(ns: u64, durationSeconds: int64)
    ensures WhitelistExpiry(Known(ns), durationSeconds) == Wrap64(ns + (durationSeconds + 1) * Gate.SECOND)
  {
    var w, q := WrapQuotient(durationSeconds);
    var d, r := WrapQuotient(w * Gate.SECOND);
    var e, t := WrapQuotient(ns + d);
    CombineQuotients(ns, durationSeconds, w, q, d, r, e, t);
  }

  lemma WrapQuotient(x: int) returns (w: int, q: int)
    ensures w == Wrap64(x) && x == w + 0x1_0000_0000_0000_0000 * q
  {
    w, q := Wrap64(x), x / 0x1_0000_0000_0000_0000;
  }

  lemma CombineQuotients(ns: int, duration: int, w: int, q: int, d: int, r: int, e: int, t: int)
    requires duration == w + 0x1_0000_0000_0000_0000 * q
    requires w * 1_000_000_000 == d + 0x1_0000_0000_0000_0000 * r
    requires ns + d == e + 0x1_0000_0000_0000_0000 * t
    ensures Wrap64(e + 1_000_000_000) == Wrap64(ns + (duration + 1) * 1_000_000_000)
  {
    var k := q * 1_000_000_000 + r + t;
    assert ns + (duration + 1) * 1_000_000_000 == e + 1_000_000_000 + 0x1_0000_0000_0000_0000 * k;
    WrapStep(e + 1_000_000_000, k);
  }

  /**
   * An entry lasts at most the duration plus one second past the uptime sample, unless a negative duration
   * reaches back before boot, in which case the expiry wraps around to the far future.
   */
  lemma ExpiryBound(ns: u64, durationSeconds: int64)
    ensures WhitelistExpiry(Known(ns), durationSeconds) <= ns + (durationSeconds + 1) * 1_000_000_000
            <==> ns + (durationSeconds + 1) * 1_000_000_000 >= 0
  {
    KnownValue(ns, durationSeconds);
    WrapBelow(ns + (durationSeconds + 1) * Gate.SECOND);
  }

  lemma WrapBelow(x: int)
    ensures Wrap64(x) <= x <==> x >= 0
  {
  }

  // ---------------------------------------------------------------- static tokens

  /** isStaticPacket: the length, then the first byte, then the bytes. */
  predicate IsStaticPacket(token: seq<byte>, data: seq<byte>) {
    && |data| == |token|
    && !(|data| > 0 && (data[0] == 1 || data[0] == 2))
    && data == token
  }

  /** Exactly the token, unless it starts like a packet; so nothing that parses is taken for a static token. */
  lemma StaticExactly(token: seq<byte>, data: seq<byte>)
    ensures IsStaticPacket(token, data) <==> data == token && (data == [] || data[0] !in {1, 2})
    ensures Parse(data).Parsed? ==> !IsStaticPacket(token, data)
  {
  }

  // ---------------------------------------------------------------- objects

  class MapLoader {
    const whitelistMap: GateProgram.XdpProgram?

    constructor (whitelistMap: GateProgram.XdpProgram?)
      ensures this.whitelistMap == whitelistMap
    {
      this.whitelistMap := whitelistMap;
    }

    /** WhitelistIP: overwrites the address's entry in the map the XDP program reads. */
    method WhitelistIp(ip: seq<byte>, durationSeconds: int64, uptime: Uptime) returns (ok: bool)
      modifies if whitelistMap == null then {} else {whitelistMap}
      ensures ok <==> whitelistMap != null && To4(ip) != []
      ensures ok ==>
                whitelistMap.spaWhitelist
                == old(whitelistMap.spaWhitelist)[WhitelistKey(To4(ip)) := WhitelistExpiry(uptime, durationSeconds)]
      ensures whitelistMap != null ==>
                whitelistMap.Contents() ==
                if ok then Gate.PutExpiry(old(whitelistMap.Contents()), WhitelistKey(To4(ip)),
                                          WhitelistExpiry(uptime, durationSeconds))
                else old(whitelistMap.Contents())
    {
      if whitelistMap == null {
        return false;
      }
      var ipv4 := To4(ip);
      if ipv4 == [] {
        return false;
      }
      var key := WhitelistKey(ipv4);
      var expiry: u64;
      var durationNs := Wrap64(Wrap64(durationSeconds) * Gate.SECOND);
      match uptime {
        case Unreadable =>
          expiry := Wrap64(FALLBACK_BASE_NS + durationNs);
        case Known(ns) =>
          expiry := Wrap64(ns + durationNs);
          expiry := Wrap64(expiry + Gate.SECOND);
      }
      whitelistMap.spaWhitelist := whitelistMap.spaWhitelist[key := expiry];
      return true;
    }

    /** RemoveWhitelistIP. */
    method RemoveWhitelistIp(ip: seq<byte>) returns (ok: bool)
      modifies if whitelistMap == null then {} else {whitelistMap}
      ensures ok ==> whitelistMap != null && To4(ip) != []
      ensures whitelistMap != null ==>
                whitelistMap.Contents() ==
                if ok then Gate.Evicted(old(whitelistMap.Contents()), WhitelistKey(To4(ip)))
                else old(whitelistMap.Contents())
      ensures whitelistMap != null && To4(ip) != [] ==>
                && (ok <==> WhitelistKey(To4(ip)) in old(whitelistMap.spaWhitelist))
                && whitelistMap.spaWhitelist == old(whitelistMap.spaWhitelist) - {WhitelistKey(To4(ip))}
    {
      if whitelistMap == null {
        return false;
      }
      var ipv4 := To4(ip);
      if ipv4 == [] {
        return false;
      }
      var key := WhitelistKey(ipv4);
      ok := key in whitelistMap.spaWhitelist;
      if ok {
        whitelistMap.spaWhitelist := map a | a in whitelistMap.spaWhitelist && a != key :: whitelistMap.spaWhitelist[a];
      }
    }
  }

  class SpaHandler {
    const verifier: PacketVerifier
    const mapLoader: MapLoader
    const staticToken: seq<byte>

    constructor (verifier: PacketVerifier, mapLoader: MapLoader, staticToken: seq<byte>)
      ensures this.verifier == verifier && this.mapLoader == mapLoader
      ensures this.staticToken == if staticToken == [] then Gate.SPA_SECRET_TOKEN else staticToken
    {
      this.verifier, this.mapLoader := verifier, mapLoader;
      this.staticToken := if staticToken == [] then Gate.SPA_SECRET_TOKEN else staticToken;
    }

    /** processPacket run without interference: the whitelist changes only for a packet that verified. */
    method ProcessPacket(a: Attempt, uptime: Uptime) returns (whitelisted: bool)
      requires Sampled(verifier.spaConfig, a)
      modifies verifier, if mapLoader.whitelistMap == null then {} else {mapLoader.whitelistMap}
      ensures whitelisted <==>
                && !IsStaticPacket(staticToken, a.data)
                && Precheck(verifier.primitives, verifier.spaConfig, a) == Passed
                && Replay.Fresh(old(verifier.seenCache), CommitOf(verifier.primitives, a))
                && mapLoader.whitelistMap != null && To4(a.clientIp) != []
      ensures mapLoader.whitelistMap != null ==>
                mapLoader.whitelistMap.Contents() ==
                if whitelisted
                then Gate.PutExpiry(old(mapLoader.whitelistMap.Contents()), WhitelistKey(To4(a.clientIp)),
                                    WhitelistExpiry(uptime, verifier.spaConfig.replayWindowSeconds))
                else old(mapLoader.whitelistMap.Contents())
    {
      if IsStaticPacket(staticToken, a.data) {
        return false;
      }
      var parsed := ParseSpaPacket(a.data);
      if parsed.Malformed? {
        return false;
      }
      var verdict := verifier.VerifyPacket(a);
      if verdict.Refused? {
        return false;
      }
      whitelisted := mapLoader.WhitelistIp(a.clientIp, verifier.spaConfig.replayWindowSeconds, uptime);
    }
  }
}
