/** The SPA packet format: creation, parsing and signature checks (internal/spa/packet.go). */
module Packet {
  import opened Bytes
  import opened Crypto
  import opened Totp
  import opened Wrappers

  const HEADER_SIZE_V1 := 14
  const HEADER_SIZE_V2 := 30
  const ED25519_SIGNATURE_SIZE := 64
  const HMAC_SIGNATURE_SIZE := 32
  const MIN_RANDOM_PADDING := 16
  const MAX_RANDOM_PADDING := 64

  /** The client address is empty in version 1. */
  datatype SpaPacket = SpaPacket(version: byte, mode: byte, timestamp: int64, totp: u32,
                                 clientIp: seq<byte>, randomData: seq<byte>, signature: seq<byte>)

  datatype ParseError =
    | TooShort
    | V2TooShort
    | UnsupportedVersion(version: byte)
    | UnknownMode(mode: byte)
    | TooShortForSignature

  datatype ParseResult = Parsed(packet: SpaPacket) | Malformed(error: ParseError)

  // ---------------------------------------------------------------- addresses

  const V4_IN_V6_PREFIX: seq<byte> := [0, 0, 0, 0, 0, 0, 0, 0, 0, 0, 0xFF, 0xFF]

  /** net.IP.To16; the empty sequence stands for nil. */
  function To16(ip: seq<byte>): (r: seq<byte>)
    ensures r == [] || |r| == 16
  {
    if |ip| == 4 then V4_IN_V6_PREFIX + ip else if |ip| == 16 then ip else []
  }

  /** net.IP.To4. */
  function To4(ip: seq<byte>): (r: seq<byte>)
    ensures r == [] || |r| == 4
  {
    if |ip| == 4 then ip
    else if |ip| == 16 && ip[..12] == V4_IN_V6_PREFIX then ip[12..]
    else []
  }

  /** The address a packet is bound to; one that has no 16-byte form is replaced by 0.0.0.0. */
  function BoundIp(ip: seq<byte>): (r: seq<byte>)
    ensures |r| == 16
  {
    if To16(ip) == [] then To16([0, 0, 0, 0]) else To16(ip)
  }

  /** Every IPv4 address has one 16-byte form, and goes back to its four bytes; no other 16 bytes have a 4-byte form. */
  lemma AddressForms(ip: seq<byte>, long: seq<byte>)
    requires |ip| == 4 && |long| == 16
    ensures To16(ip) == [0, 0, 0, 0, 0, 0, 0, 0, 0, 0, 0xFF, 0xFF] + ip
    ensures To4(long) == ip <==> long == To16(ip)
    ensures To16(long) == long && To4(ip) == ip && BoundIp(ip) == To16(ip)
    ensures BoundIp([]) == [0, 0, 0, 0, 0, 0, 0, 0, 0, 0, 0xFF, 0xFF, 0, 0, 0, 0]
  {
    assert To16(ip)[..12] == V4_IN_V6_PREFIX && To16(ip)[12..] == ip;
    if To4(long) == ip {
      assert long == long[..12] + long[12..];
    }
  }

  // ---------------------------------------------------------------- format

  function SignatureSize(mode: byte): nat {
    if mode == 1 then HMAC_SIGNATURE_SIZE else ED25519_SIGNATURE_SIZE
  }

  function HeaderSize(version: byte): nat {
    if version == 1 then HEADER_SIZE_V1 else HEADER_SIZE_V2
  }

  predicate WellFormed(p: SpaPacket) {
    && (p.version == 1 || p.version == 2)
    && (p.mode == 1 || p.mode == 2)
    && |p.clientIp| == HeaderSize(p.version) - HEADER_SIZE_V1
    && |p.signature| == SignatureSize(p.mode)
  }

  /** Header and padding: what gets signed. */
  function Body(p: SpaPacket): seq<byte> {
    [p.version, p.mode] + BigEndian(8, Wrap64(p.timestamp)) + BigEndian(4, p.totp) + p.clientIp + p.randomData
  }

  function Encode(p: SpaPacket): seq<byte> {
    Body(p) + p.signature
  }

  function Parse(data: seq<byte>): ParseResult {
    if |data| < HEADER_SIZE_V1 then Malformed(TooShort)
    else if data[0] == 2 && |data| < HEADER_SIZE_V2 then Malformed(V2TooShort)
    else if data[0] != 1 && data[0] != 2 then Malformed(UnsupportedVersion(data[0]))
    else if data[1] != 1 && data[1] != 2 then Malformed(UnknownMode(data[1]))
    else
      var header, sig := HeaderSize(data[0]), SignatureSize(data[1]);
      if |data| < header + sig then Malformed(TooShortForSignature)
      else
        Parsed(SpaPacket(data[0], data[1], Signed64(Value(data[2..10])), TotpField(data),
                         data[14..header], data[header..|data| - sig], data[|data| - sig..]))
  }

  function TotpField(data: seq<byte>): u32
    requires |data| >= HEADER_SIZE_V1
  {
    Pow256Widths();
    Value(data[10..14])
  }

  /** ParseSPAPacket, with the cause of each refusal. */
  method ParseSpaPacket(data: seq<byte>) returns (r: ParseResult)
    ensures r == Parse(data)
    ensures r == Malformed(TooShort) <==> |data| < 14
    ensures r == Malformed(V2TooShort) <==> 14 <= |data| < 30 && data[0] == 2
    ensures forall v: byte :: r == Malformed(UnsupportedVersion(v)) <==> |data| >= 14 && data[0] == v && v !in {1, 2}
    ensures forall m: byte :: r == Malformed(UnknownMode(m)) <==>
              |data| >= 14 && (data[0] == 1 || (data[0] == 2 && |data| >= 30)) && data[1] == m && m !in {1, 2}
    ensures r == Malformed(TooShortForSignature) <==>
              && |data| >= 14 && (data[0] == 1 || (data[0] == 2 && |data| >= 30)) && data[1] in {1, 2}
              && |data| < (if data[0] == 1 then 14 else 30) + (if data[1] == 1 then 32 else 64)
  {
    if |data| < HEADER_SIZE_V1 {
      return Malformed(TooShort);
    }
    var packet := SpaPacket(data[0], data[1], 0, 0, [], [], []);
    var headerSize: nat;
    if packet.version == 1 {
      headerSize := HEADER_SIZE_V1;
      packet := packet.(timestamp := Signed64(Value(data[2..10])));
      packet := packet.(totp := TotpField(data));
    } else if packet.version == 2 {
      headerSize := HEADER_SIZE_V2;
      if |data| < headerSize {
        return Malformed(V2TooShort);
      }
      packet := packet.(timestamp := Signed64(Value(data[2..10])));
      packet := packet.(totp := TotpField(data));
      packet := packet.(clientIp := data[14..30]);
    } else {
      return Malformed(UnsupportedVersion(packet.version));
    }
    var signatureSize: nat;
    if packet.mode == 1 {
      signatureSize := HMAC_SIGNATURE_SIZE;
    } else if packet.mode == 2 {
      signatureSize := ED25519_SIGNATURE_SIZE;
    } else {
      return Malformed(UnknownMode(packet.mode));
    }
    if |data| < headerSize + signatureSize {
      return Malformed(TooShortForSignature);
    }
    var paddingSize := |data| - headerSize - signatureSize;
    if paddingSize > 0 {
      packet := packet.(randomData := data[headerSize..headerSize + paddingSize]);
    }
    packet := packet.(signature := data[|data| - signatureSize..]);
    return Parsed(packet);
  }

  // ---------------------------------------------------------------- the codec is a bijection

  lemma TimestampField(t: int64)
    ensures Signed64(Value(BigEndian(8, Wrap64(t)))) == t
  {
    Pow256Widths();
    ValueOfBigEndian(8, Wrap64(t));
    SignedOfWrapped(t);
  }

  lemma TotpFieldRoundTrip(v: u32)
    ensures Value(BigEndian(4, v)) == v
  {
    Pow256Widths();
    ValueOfBigEndian(4, v);
  }

  /** Where the fields of an encoded packet lie. */
  lemma EncodedFields(p: SpaPacket)
    requires WellFormed(p)
    ensures var e := Encode(p);
            var header := HeaderSize(p.version);
            && |e| == header + |p.randomData| + |p.signature|
            && e[0] == p.version && e[1] == p.mode
            && e[2..10] == BigEndian(8, Wrap64(p.timestamp)) && e[10..14] == BigEndian(4, p.totp)
            && e[14..header] == p.clientIp
            && e[header..|e| - |p.signature|] == p.randomData
            && e[|e| - |p.signature|..] == p.signature
            && e[..|e| - |p.signature|] == Body(p)
  {
  }

  lemma ParseOfEncode(p: SpaPacket)
    requires WellFormed(p)
    ensures Parse(Encode(p)) == Parsed(p)
  {
    EncodedFields(p);
    TimestampField(p.timestamp);
    TotpFieldRoundTrip(p.totp);
  }

  lemma EncodeOfParse(data: seq<byte>)
    requires Parse(data).Parsed?
    ensures var p := Parse(data).packet;
            WellFormed(p) && Encode(p) == data && Body(p) == data[..|data| - |p.signature|]
  {
    var p := Parse(data).packet;
    assert BigEndian(8, Wrap64(p.timestamp)) == data[2..10] by {
      Pow256Widths();
      WrappedOfSigned(Value(data[2..10]));
      BigEndianOfValue(data[2..10]);
    }
    assert BigEndian(4, p.totp) == data[10..14] by {
      BigEndianOfValue(data[10..14]);
    }
    Pieces(data, HeaderSize(p.version), |p.signature|);
    EncodedFields(p);
  }

  lemma Pieces(data: seq<byte>, header: nat, sig: nat)
    requires 14 <= header && header + sig <= |data|
    ensures data == [data[0], data[1]] + data[2..10] + data[10..14] + data[14..header]
                    + data[header..|data| - sig] + data[|data| - sig..]
  {
  }

  /** The parser accepts exactly the encodings of well-formed packets, and no two packets share one. */
  lemma ParseExactly(data: seq<byte>, p: SpaPacket)
    ensures Parse(data) == Parsed(p) <==> WellFormed(p) && Encode(p) == data
  {
    if Parse(data) == Parsed(p) {
      EncodeOfParse(data);
    }
    if WellFormed(p) && Encode(p) == data {
      ParseOfEncode(p);
    }
  }

  // ---------------------------------------------------------------- creation

  /** How a created packet is sealed. */
  datatype Scheme = Hmac | Ed25519

  function ModeByte(m: Scheme): byte {
    if m.Hmac? then 1 else 2
  }

  function Seal(c: Primitives, m: Scheme, key: seq<byte>, body: seq<byte>): (s: seq<byte>)
    ensures |s| == SignatureSize(ModeByte(m))
  {
    if m.Hmac? then c.hmacSha256(key, body) else c.sign(key, body)
  }

  /** A version 2 packet with its seal over header and padding. */
  function SealedPacket(c: Primitives, m: Scheme, key: seq<byte>, code: u32, stamp: Clock, ip: seq<byte>,
                        padding: seq<byte>): (p: SpaPacket)
    ensures WellFormed(p)
  {
    var draft := SpaPacket(2, ModeByte(m), stamp, code, BoundIp(ip), padding, []);
    draft.(signature := Seal(c, m, key, Body(draft)))
  }

  function PaddingSize(enableObfuscation: bool, randByte: byte): nat {
    if enableObfuscation then MIN_RANDOM_PADDING + randByte % (MAX_RANDOM_PADDING - MIN_RANDOM_PADDING + 1) else 0
  }

  /** Obfuscated packets carry 16 to 64 bytes of padding, each number for some drawn byte; others carry none. */
  lemma PaddingRange(randByte: byte, n: nat)
    ensures PaddingSize(false, randByte) == 0 && 16 <= PaddingSize(true, randByte) <= 64
    ensures 16 <= n <= 64 ==> PaddingSize(true, n - 16) == n
  {
  }

  /** Parsing a created packet gives back every field, and the bytes a verifier checks are the bytes sealed. */
  lemma CreatedRoundTrip(c: Primitives, m: Scheme, key: seq<byte>, code: u32, stamp: Clock, ip: seq<byte>,
                         padding: seq<byte>)
    ensures var p := SealedPacket(c, m, key, code, stamp, ip, padding);
            var data := Encode(p);
            && Parse(data) == Parsed(p)
            && p.version == 2 && p.mode == ModeByte(m) && p.timestamp == stamp && p.totp == code
            && p.clientIp == BoundIp(ip) && p.randomData == padding
            && p.signature == Seal(c, m, key, data[..|data| - |p.signature|])
  {
    var p := SealedPacket(c, m, key, code, stamp, ip, padding);
    ParseOfEncode(p);
    EncodedFields(p);
    assert Body(p) == Body(p.(signature := []));
  }

  /** Writes a big-endian field into the header buffer. */
  method PutBigEndian(buffer: array<byte>, at: nat, width: nat, v: nat)
    requires at + width <= buffer.Length
    modifies buffer
    ensures buffer[..] == old(buffer[..at]) + BigEndian(width, v) + old(buffer[at + width..])
  {
    var field := BigEndian(width, v);
    ghost var was := buffer[..];
    for i := 0 to width
      invariant forall j :: 0 <= j < buffer.Length && !(at <= j < at + i) ==> buffer[j] == was[j]
      invariant forall j :: 0 <= j < i ==> buffer[at + j] == field[j]
    {
      buffer[at + i] := field[i];
    }
    assert buffer[at..at + width] == field;
    assert buffer[..at] == was[..at] && buffer[at + width..] == was[at + width..];
  }

  method CopyInto(buffer: array<byte>, at: nat, bytes: seq<byte>)
    requires at + |bytes| <= buffer.Length
    modifies buffer
    ensures buffer[..] == old(buffer[..at]) + bytes + old(buffer[at + |bytes|..])
  {
    ghost var was := buffer[..];
    for i := 0 to |bytes|
      invariant forall j :: 0 <= j < buffer.Length && !(at <= j < at + i) ==> buffer[j] == was[j]
      invariant forall j :: 0 <= j < i ==> buffer[at + j] == bytes[j]
    {
      buffer[at + i] := bytes[i];
    }
    assert buffer[at..at + |bytes|] == bytes;
    assert buffer[..at] == was[..at] && buffer[at + |bytes|..] == was[at + |bytes|..];
  }

  /** The padding drawn: none is asked for when its size is zero. */
  function PaddingDrawn(size: nat, padding: Option<seq<byte>>): Option<seq<byte>> {
    if size == 0 then Some([]) else padding
  }

  /**
   * CreateAsymmetricPacket and CreateDynamicPacket, which differ in mode byte and seal. The clock samples,
   * the size byte and the padding are what the environment supplies; padding is None when drawing it fails.
   */
  method CreatePacket(c: Primitives, m: Scheme, key: seq<byte>, totpSecret: seq<byte>, timeStep: int,
                      enableObfuscation: bool, clientIp: seq<byte>,
                      totpTime: Clock, stamp: Clock, randByte: byte, padding: Option<seq<byte>>)
    returns (packet: Option<seq<byte>>)
    requires timeStep != 0
    requires padding.Some? ==> |padding.value| == PaddingSize(enableObfuscation, randByte)
    ensures packet == match PaddingDrawn(PaddingSize(enableObfuscation, randByte), padding)
                      case None => None
                      case Some(drawn) =>
                        Some(Encode(SealedPacket(c, m, key, CodeAt(c, totpSecret, timeStep, totpTime), stamp,
                                                 clientIp, drawn)))
  {
    var totp := CodeAt(c, totpSecret, timeStep, totpTime);
    var ipBytes := To16(clientIp);
    if ipBytes == [] {
      ipBytes := To16([0, 0, 0, 0]);
    }
    var bytes := BuildHeader(ModeByte(m), stamp, totp, ipBytes);
    ghost var drawn: seq<byte> := [];
    var paddingSize := PaddingSize(enableObfuscation, randByte);
    if paddingSize > 0 {
      if padding.None? {
        return None;
      }
      drawn := padding.value;
      bytes := bytes + padding.value;
    }
    assert bytes == Body(SpaPacket(2, ModeByte(m), stamp, totp, BoundIp(clientIp), drawn, []));
    return Some(bytes + Seal(c, m, key, bytes));
  }

  method BuildHeader(mode: byte, stamp: Clock, totp: u32, ipBytes: seq<byte>) returns (packet: seq<byte>)
    requires |ipBytes| == 16
    ensures packet == [2, mode] + BigEndian(8, Wrap64(stamp)) + BigEndian(4, totp) + ipBytes
  {
    var header := new byte[HEADER_SIZE_V2];
    header[0], header[1] := 2, mode;
    assert header[..2] == [2, mode];
    PutBigEndian(header, 2, 8, Wrap64(stamp));
    assert header[..10] == [2, mode] + BigEndian(8, Wrap64(stamp));
    PutBigEndian(header, 10, 4, totp);
    assert header[..14] == [2, mode] + BigEndian(8, Wrap64(stamp)) + BigEndian(4, totp);
    CopyInto(header, 14, ipBytes);
    packet := header[..];
  }

  // ---------------------------------------------------------------- verification

  function SignedData(packet: SpaPacket, data: seq<byte>): seq<byte>
    requires |packet.signature| <= |data|
  {
    data[..|data| - |packet.signature|]
  }

  predicate VerifyAsymmetricPacket(c: Primitives, publicKey: seq<byte>, packet: SpaPacket, data: seq<byte>)
    requires |packet.signature| <= |data|
  {
    c.Verify(publicKey, SignedData(packet, data), packet.signature)
  }

  predicate VerifyDynamicPacket(c: Primitives, hmacSecret: seq<byte>, packet: SpaPacket, data: seq<byte>)
    requires |packet.signature| <= |data|
  {
    c.hmacSha256(hmacSecret, SignedData(packet, data)) == packet.signature
  }
}
