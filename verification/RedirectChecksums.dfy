/**
 * What the redirect does to the checksums of a packet, for every IPv4 header length, every packet length and for
 * fragments (internal/ebpf/programs/phantom.c:99-126 and 286-292). The program takes the TCP header to start 20 bytes
 * after the IPv4 header and does not look at the total length, so with options its edits land elsewhere and in a short
 * packet some of them land in the padding behind it; the exact consequence is stated here.
 */
module RedirectChecksums {
  import opened Bytes
  import opened Checksum
  import opened Gate

  // ---------------------------------------------------------------- the packet inside a frame

  /** Where the IPv4 header ends, by its length field; the version nibble is not looked at. */
  function HeaderEnd(f: Frame): (h: nat)
    requires |f| >= 34
    ensures h % 2 == 0
  {
    14 + 4 * (f[14] % 16)
  }

  /** Where the packet ends, by its total length; an Ethernet trailer may follow. */
  function PacketEnd(f: Frame): nat
    requires |f| >= 34
  {
    14 + GetWord(f, 16)
  }

  /** A TCP packet that lies inside the frame: what a receiver does not discard before looking at checksums. */
  predicate TcpPacket(f: Frame) {
    IsTcp(f) && 34 <= HeaderEnd(f) <= PacketEnd(f) <= |f|
  }

  function IpHeader(f: Frame): (m: seq<byte>)
    requires TcpPacket(f)
    ensures |m| == HeaderEnd(f) - 14
  {
    f[14..HeaderEnd(f)]
  }

  function Payload(f: Frame): (m: seq<byte>)
    requires TcpPacket(f)
    ensures |m| == PacketEnd(f) - HeaderEnd(f)
  {
    f[HeaderEnd(f)..PacketEnd(f)]
  }

  /** Addresses, a zero byte, the protocol number and the segment length: section 3.1 of RFC 9293. */
  function PseudoHeader(f: Frame, length: nat): (m: seq<byte>)
    requires |f| >= 34
    ensures |m| == 12 && m[9] == 6
  {
    f[26..34] + [0, 6, length / 256 % 256, length % 256]
  }

  /**
   * What the TCP checksum covers: the pseudo-header and the segment. For a fragment, `before` and `after`
   * are the bytes of the segment that other fragments carry; both are empty for an unfragmented packet.
   */
  function TcpMessage(f: Frame, before: seq<byte>, after: seq<byte>): (m: seq<byte>)
    requires TcpPacket(f)
    ensures |m| == 12 + |before| + |Payload(f)| + |after|
  {
    PseudoHeader(f, |before| + |Payload(f)| + |after|) + before + Payload(f) + after
  }

  /** The offset of a payload byte within the covered message. */
  function InMessage(f: Frame, before: seq<byte>, j: nat): nat
    requires |f| >= 34 && HeaderEnd(f) <= j
  {
    12 + |before| + (j - HeaderEnd(f))
  }

  // ---------------------------------------------------------------- one byte, seen on header and message

  /** Writes beyond the fixed header move neither end and leave the pseudo-header alone. */
  lemma SameLayout(f: Frame, r: Frame)
    requires TcpPacket(f) && |r| == |f|
    requires forall i :: 0 <= i < 34 && i !in {22, 24, 25} ==> r[i] == f[i]
    ensures TcpPacket(r) && HeaderEnd(r) == HeaderEnd(f) && PacketEnd(r) == PacketEnd(f)
    ensures forall n: nat :: PseudoHeader(r, n) == PseudoHeader(f, n)
  {
    assert GetWord(r, 12) == GetWord(f, 12) && GetWord(r, 16) == GetWord(f, 16);
    assert r[26..34] == f[26..34];
  }

  /** The two sums, which the rest of the argument is about. */
  datatype Sums = Sums(header: nat, message: nat)

  function SumsOf(f: Frame, before: seq<byte>, after: seq<byte>): Sums
    requires TcpPacket(f)
  {
    Sums(WordSum(IpHeader(f)), WordSum(TcpMessage(f, before, after)))
  }

  /** Frame r has the layout of f, and its sums are those of f moved by these differences. */
  predicate Moved(f: Frame, r: Frame, before: seq<byte>, after: seq<byte>, header: int, message: int)
    requires TcpPacket(f)
  {
    && TcpPacket(r) && HeaderEnd(r) == HeaderEnd(f) && PacketEnd(r) == PacketEnd(f)
    && SumsOf(r, before, after).header == SumsOf(f, before, after).header + header
    && SumsOf(r, before, after).message == SumsOf(f, before, after).message + message
  }

  lemma MovedChain(f: Frame, g: Frame, r: Frame, before: seq<byte>, after: seq<byte>,
                   h1: int, m1: int, h2: int, m2: int)
    requires TcpPacket(f) && Moved(f, g, before, after, h1, m1) && Moved(g, r, before, after, h2, m2)
    ensures Moved(f, r, before, after, h1 + h2, m1 + m2)
  {
  }

  /** What a byte's change at offset i counts in a sum over the bytes from lo to hi, both ends of words. */
  function ByteShare(lo: nat, hi: nat, i: nat, was: byte, now: byte): int {
    if lo <= i < hi then Weight(i) * (now - was) else 0
  }

  lemma HeaderAfterByte(f: Frame, i: nat, b: byte)
    requires TcpPacket(f) && 34 <= i < 54
    requires TcpPacket(f[i := b]) && HeaderEnd(f[i := b]) == HeaderEnd(f)
    ensures WordSum(IpHeader(f[i := b])) == WordSum(IpHeader(f)) + ByteShare(14, HeaderEnd(f), i, f[i], b)
  {
    if i < HeaderEnd(f) {
      assert IpHeader(f[i := b]) == IpHeader(f)[i - 14 := b];
      WordSumAfterByte(IpHeader(f), i - 14, b);
    } else {
      assert IpHeader(f[i := b]) == IpHeader(f);
    }
  }

  lemma MessageAfterByte(f: Frame, before: seq<byte>, after: seq<byte>, i: nat, b: byte)
    requires TcpPacket(f) && 34 <= i < 54
    requires TcpPacket(f[i := b]) && HeaderEnd(f[i := b]) == HeaderEnd(f) && PacketEnd(f[i := b]) == PacketEnd(f)
    requires forall n: nat :: PseudoHeader(f[i := b], n) == PseudoHeader(f, n)
    ensures TcpMessage(f[i := b], before, after)
            == if HeaderEnd(f) <= i < PacketEnd(f) then TcpMessage(f, before, after)[InMessage(f, before, i) := b]
               else TcpMessage(f, before, after)
    ensures HeaderEnd(f) <= i < PacketEnd(f) ==> TcpMessage(f, before, after)[InMessage(f, before, i)] == f[i]
  {
    hide PseudoHeader;
    if HeaderEnd(f) <= i < PacketEnd(f) {
      var k := i - HeaderEnd(f);
      assert Payload(f[i := b]) == Payload(f)[k := b];
      PutByteIntoMiddle(PseudoHeader(f, |before| + |Payload(f)| + |after|) + before, Payload(f), after, k, b);
    } else {
      assert Payload(f[i := b]) == Payload(f);
    }
  }

  lemma MessageSumAfterByte(f: Frame, before: seq<byte>, after: seq<byte>, i: nat, b: byte)
    requires TcpPacket(f) && 34 <= i < 54 && |before| % 2 == 0
    requires TcpPacket(f[i := b]) && HeaderEnd(f[i := b]) == HeaderEnd(f) && PacketEnd(f[i := b]) == PacketEnd(f)
    requires forall n: nat :: PseudoHeader(f[i := b], n) == PseudoHeader(f, n)
    ensures WordSum(TcpMessage(f[i := b], before, after))
            == WordSum(TcpMessage(f, before, after)) + ByteShare(HeaderEnd(f), PacketEnd(f), i, f[i], b)
  {
    hide PseudoHeader, WordSum, TcpMessage;
    MessageAfterByte(f, before, after, i, b);
    if HeaderEnd(f) <= i < PacketEnd(f) {
      WordSumAfterByte(TcpMessage(f, before, after), InMessage(f, before, i), b);
    }
  }

  lemma ByteMoves(f: Frame, before: seq<byte>, after: seq<byte>, i: nat, b: byte)
    requires TcpPacket(f) && 34 <= i < 54 && |before| % 2 == 0
    ensures Moved(f, f[i := b], before, after, ByteShare(14, HeaderEnd(f), i, f[i], b),
                  ByteShare(HeaderEnd(f), PacketEnd(f), i, f[i], b))
  {
    hide WordSum, TcpMessage, IpHeader;
    SameLayout(f, f[i := b]);
    HeaderAfterByte(f, i, b);
    MessageSumAfterByte(f, before, after, i, b);
  }

  // ---------------------------------------------------------------- one word and one edit, seen on both sums

  /** The part of a word's change that counts in the sum over the bytes from lo to hi. */
  function Share(lo: nat, hi: nat, j: nat, was: u16, now: u16): int {
    ByteShare(lo, hi, j, was / 256, now / 256) + ByteShare(lo, hi, j + 1, was % 256, now % 256)
  }

  lemma SharesAdd(lo: nat, hi: nat, j: nat, u: u16, v: u16, w: u16)
    ensures Share(lo, hi, j, u, v) + Share(lo, hi, j, v, w) == Share(lo, hi, j, u, w)
  {
  }

  /** A word counts whole when it lies inside, and not at all when it lies outside. */
  lemma ShareOfWhole(lo: nat, hi: nat, j: nat, u: u16, v: u16)
    requires j % 2 == 0
    ensures lo <= j && j + 1 < hi ==> Share(lo, hi, j, u, v) == v - u
    ensures j + 1 < lo || hi <= j ==> Share(lo, hi, j, u, v) == 0
    ensures lo <= j && hi == j + 1 ==> Share(lo, hi, j, u, v) == 256 * (v / 256 - u / 256)
  {
  }

  lemma PutMoves(f: Frame, before: seq<byte>, after: seq<byte>, j: nat, w: u16)
    requires TcpPacket(f) && 34 <= j <= 50 && j % 2 == 0 && |before| % 2 == 0
    ensures Moved(f, PutWord(f, j, w), before, after, Share(14, HeaderEnd(f), j, GetWord(f, j), w),
                  Share(HeaderEnd(f), PacketEnd(f), j, GetWord(f, j), w))
  {
    hide SumsOf, ByteShare;
    ByteMoves(f, before, after, j, w / 256);
    ByteMoves(f[j := w / 256], before, after, j + 1, w % 256);
    WordBytes(f[j], f[j + 1]);
  }

  /** The checksum field after one edit of the word at j. */
  function CheckAfter(f: Frame, j: nat, w: u16): u16
    requires |f| >= 54 && j + 1 < |f|
  {
    CsumReplace2(GetWord(f, 50), GetWord(f, j), w)
  }

  /** Rewriting the word at j and correcting the word at 50 for it moves each sum by the parts inside its bytes. */
  lemma EditMoves(f: Frame, before: seq<byte>, after: seq<byte>, j: nat, w: u16)
    requires TcpPacket(f) && 34 <= j < 50 && j % 2 == 0 && |before| % 2 == 0
    ensures var h, e, c := HeaderEnd(f), PacketEnd(f), CheckAfter(f, j, w);
            Moved(f, Edited(f, 50, j, w, GetWord(f, j), w), before, after,
                  Share(14, h, 50, GetWord(f, 50), c) + Share(14, h, j, GetWord(f, j), w),
                  Share(h, e, 50, GetWord(f, 50), c) + Share(h, e, j, GetWord(f, j), w))
  {
    var h, e, c := HeaderEnd(f), PacketEnd(f), CheckAfter(f, j, w);
    var g := PutWord(f, 50, c);
    PutMoves(f, before, after, 50, c);
    GetAfterPut(f, 50, j, c);
    PutMoves(g, before, after, j, w);
    hide *;
    MovedChain(f, g, PutWord(g, j, w), before, after,
               Share(14, h, 50, GetWord(f, 50), c), Share(h, e, 50, GetWord(f, 50), c),
               Share(14, h, j, GetWord(f, j), w), Share(h, e, j, GetWord(f, j), w));
  }

  // ---------------------------------------------------------------- the TTL edit

  /** On the header, the TTL edit is an edit of its word at 8, though its words carry a zeroed protocol byte. */
  lemma TtlEditOnHeader(f: Frame, ttl: byte)
    requires TcpPacket(f) && f[22] != ttl
    ensures var r := MutateTtl(f, ttl);
            && TcpPacket(r) && HeaderEnd(r) == HeaderEnd(f)
            && IpHeader(r) == Edited(IpHeader(f), 10, 8, Word(ttl, f[23]), Word(f[22], 0), Word(ttl, 0))
            && GetWord(IpHeader(f), 8) == Word(f[22], f[23])
  {
    var c := CsumReplace2(GetWord(f, 24), Word(f[22], 0), Word(ttl, 0));
    TtlFields(f, ttl);
    SameLayout(f, MutateTtl(f, ttl));
    PutAndSlice(f, 14, HeaderEnd(f), 24, c);
    PutAndSlice(PutWord(f, 24, c), 14, HeaderEnd(f), 22, Word(ttl, f[23]));
    PutAndSlice(f, 14, HeaderEnd(f), 22, 0);
  }

  lemma TtlKeepsMessage(f: Frame, ttl: byte, before: seq<byte>, after: seq<byte>)
    requires TcpPacket(f)
    ensures var r := MutateTtl(f, ttl);
            && TcpPacket(r) && HeaderEnd(r) == HeaderEnd(f) && PacketEnd(r) == PacketEnd(f)
            && TcpMessage(r, before, after) == TcpMessage(f, before, after)
  {
    var r := MutateTtl(f, ttl);
    TtlFields(f, ttl);
    SameLayout(f, r);
    assert Payload(r) == Payload(f);
  }

  /** The TTL edit moves the header's sum by a multiple of 65535, and the message's not at all. */
  lemma TtlMoves(f: Frame, ttl: byte, before: seq<byte>, after: seq<byte>) returns (x: int)
    requires TcpPacket(f)
    ensures Moved(f, MutateTtl(f, ttl), before, after, 0xFFFF * x, 0)
  {
    TtlKeepsMessage(f, ttl, before, after);
    x := 0;
    if f[22] != ttl {
      TtlEditOnHeader(f, ttl);
      x := EditedSum(IpHeader(f), 10, 8, Word(ttl, f[23]), Word(f[22], 0), Word(ttl, 0));
    }
  }

  /** An edit inside one message changes its whole sum by a multiple of 65535. */
  lemma EditedSum(m: seq<byte>, k: nat, j: nat, w: u16, old16: u16, new16: u16) returns (x: int)
    requires k % 2 == 0 && k + 1 < |m| && j % 2 == 0 && j + 1 < |m| && j != k
    requires w - GetWord(m, j) == new16 - old16
    ensures WordSum(Edited(m, k, j, w, old16, new16)) == WordSum(m) + 0xFFFF * x
  {
    var c := CsumReplace2(GetWord(m, k), old16, new16);
    x := ReplaceAsDifference(GetWord(m, k), old16, new16);
    WordSumAfterPut(m, k, c);
    GetAfterPut(m, k, j, c);
    WordSumAfterPut(PutWord(m, k, c), j, w);
  }

  // ---------------------------------------------------------------- the whole redirect

  function NewWindow(f: Frame): u16
    requires |f| >= 54
  {
    PersonalityOf(GetWord(f, 34)).window
  }

  /** The word at 50 once both updates have been made. */
  function NewCheck(f: Frame): u16
    requires |f| >= 54
  {
    var c := CheckAfter(f, 36, HONEYPOT_PORT);
    if GetWord(f, 48) == NewWindow(f) then c else CsumReplace2(c, GetWord(f, 48), NewWindow(f))
  }

  function PortChange(f: Frame): int
    requires |f| >= 54
  {
    HONEYPOT_PORT - GetWord(f, 36)
  }

  function WindowChange(f: Frame): int
    requires |f| >= 54
  {
    NewWindow(f) - GetWord(f, 48)
  }

  /** By how much the three words at 36, 48 and 50 change the sum over the bytes from lo to hi. */
  function Shift(f: Frame, lo: nat, hi: nat): int
    requires |f| >= 54
  {
    Share(lo, hi, 36, GetWord(f, 36), HONEYPOT_PORT) + Share(lo, hi, 48, GetWord(f, 48), NewWindow(f))
    + Share(lo, hi, 50, GetWord(f, 50), NewCheck(f))
  }

  lemma WindowMoves(f: Frame, window: u16, before: seq<byte>, after: seq<byte>)
    requires TcpPacket(f) && |before| % 2 == 0
    ensures var h, e := HeaderEnd(f), PacketEnd(f);
            var c := if GetWord(f, 48) == window then GetWord(f, 50) else CheckAfter(f, 48, window);
            Moved(f, MutateWindow(f, window), before, after,
                  Share(14, h, 50, GetWord(f, 50), c) + Share(14, h, 48, GetWord(f, 48), window),
                  Share(h, e, 50, GetWord(f, 50), c) + Share(h, e, 48, GetWord(f, 48), window))
  {
    if GetWord(f, 48) == window {
      assert Moved(f, f, before, after, 0, 0);
    } else {
      EditMoves(f, before, after, 48, window);
    }
  }

  /** The words the window edit finds: the window as it was, and the checksum field corrected for the port. */
  lemma BeforeWindow(f: Frame)
    requires |f| >= 54
    ensures var b := MutateTtl(RedirectPort(f), PersonalityOf(GetWord(f, 34)).ttl);
            GetWord(b, 48) == GetWord(f, 48) && GetWord(b, 50) == CheckAfter(f, 36, HONEYPOT_PORT)
  {
    hide CsumReplace2;
    var c := CheckAfter(f, 36, HONEYPOT_PORT);
    PortFields(f);
    TtlFields(RedirectPort(f), PersonalityOf(GetWord(f, 34)).ttl);
    GetAfterPut(f, 50, 50, c);
    GetAfterPut(PutWord(f, 50, c), 36, 50, HONEYPOT_PORT);
  }

  /** The redirect moves the header's sum by its share, up to a multiple of 65535, and the message's by its own. */
  lemma RedirectMoves(f: Frame, before: seq<byte>, after: seq<byte>) returns (x: int)
    requires TcpPacket(f) && |before| % 2 == 0
    ensures Moved(f, Redirect(f), before, after, Shift(f, 14, HeaderEnd(f)) + 0xFFFF * x,
                  Shift(f, HeaderEnd(f), PacketEnd(f)))
  {
    var h, e, p := HeaderEnd(f), PacketEnd(f), PersonalityOf(GetWord(f, 34));
    var a := RedirectPort(f);
    var b, c, d := MutateTtl(a, p.ttl), CheckAfter(f, 36, HONEYPOT_PORT), NewCheck(f);
    EditMoves(f, before, after, 36, HONEYPOT_PORT);
    x := TtlMoves(a, p.ttl, before, after);
    BeforeWindow(f);
    WindowMoves(b, p.window, before, after);
    hide Moved, Share, CsumReplace2, MutateTtl, MutateWindow, CheckAfter, TcpPacket, Edited;
    var h1, m1 := Share(14, h, 50, GetWord(f, 50), c) + Share(14, h, 36, GetWord(f, 36), HONEYPOT_PORT),
                  Share(h, e, 50, GetWord(f, 50), c) + Share(h, e, 36, GetWord(f, 36), HONEYPOT_PORT);
    var h2, m2 := Share(14, h, 50, c, d) + Share(14, h, 48, GetWord(f, 48), p.window),
                  Share(h, e, 50, c, d) + Share(h, e, 48, GetWord(f, 48), p.window);
    MovedChain(f, a, b, before, after, h1, m1, 0xFFFF * x, 0);
    MovedChain(f, b, Redirect(f), before, after, h1 + 0xFFFF * x, m1 + 0, h2, m2);
    SharesAdd(14, h, 50, GetWord(f, 50), c, d);
    SharesAdd(h, e, 50, GetWord(f, 50), c, d);
  }

  /** Neither the header nor the message is ever all zero: both hold the protocol number. */
  lemma SumsPositive(f: Frame, before: seq<byte>, after: seq<byte>)
    requires TcpPacket(f)
    ensures SumsOf(f, before, after).header > 0 && SumsOf(f, before, after).message > 0
  {
    assert IpHeader(f)[9] == 6;
    NonZeroByte(IpHeader(f), 9);
    assert TcpMessage(f, before, after)[9] == 6;
    NonZeroByte(TcpMessage(f, before, after), 9);
  }

  // ---------------------------------------------------------------- verdicts

  /** The changes inside the IPv4 header cancel out, up to a multiple of 65535. */
  predicate HeaderClean(f: Frame)
    requires |f| >= 54
  {
    Shift(f, 14, HeaderEnd(f)) % 0xFFFF == 0
  }

  /** The changes inside the segment cancel out, up to a multiple of 65535. */
  predicate MessageClean(f: Frame)
    requires |f| >= 54
  {
    Shift(f, HeaderEnd(f), PacketEnd(f)) % 0xFFFF == 0
  }

  /**
   * The exact effect of the redirect on a receiver, for every header length, packet length and fragment: a check whose
   * bytes' changes cancel out gives the verdict it gave before, and any other rejects what was intact.
   */
  lemma RedirectVerdicts(f: Frame, before: seq<byte>, after: seq<byte>)
    requires TcpPacket(f) && |before| % 2 == 0
    ensures TcpPacket(Redirect(f))
    ensures HeaderClean(f) ==> (Intact(IpHeader(Redirect(f))) <==> Intact(IpHeader(f)))
    ensures Intact(IpHeader(f)) ==> (Intact(IpHeader(Redirect(f))) <==> HeaderClean(f))
    ensures MessageClean(f) ==>
              (Intact(TcpMessage(Redirect(f), before, after)) <==> Intact(TcpMessage(f, before, after)))
    ensures Intact(TcpMessage(f, before, after)) ==>
              (Intact(TcpMessage(Redirect(f), before, after)) <==> MessageClean(f))
  {
    hide CsumReplace2, WordSum, Redirect, Shift;
    var x := RedirectMoves(f, before, after);
    var r := Redirect(f);
    var s, t := SumsOf(f, before, after), SumsOf(r, before, after);
    SumsPositive(f, before, after);
    SumsPositive(r, before, after);
    VerdictUnderDelta(s.header, t.header, Shift(f, 14, HeaderEnd(f)), x);
    VerdictUnderDelta(s.message, t.message, Shift(f, HeaderEnd(f), PacketEnd(f)), 0);
  }

  /**
   * Whatever the program does with a frame and in whatever state, an intact header or message stays acceptable to a
   * receiver if and only if the frame is not redirected or the changes inside it cancel out.
   */
  lemma ProgramKeepsChecksums(ports: PortTable, st: State, f: Frame, now: u64, before: seq<byte>, after: seq<byte>)
    requires TcpPacket(f) && |before| % 2 == 0
    ensures var r := Step(ports, st, f, now).frame;
            var untouched := Classify(ports, f) != Redirected;
            && TcpPacket(r)
            && (untouched || HeaderClean(f) ==> (Intact(IpHeader(r)) <==> Intact(IpHeader(f))))
            && (untouched || MessageClean(f) ==>
                  (Intact(TcpMessage(r, before, after)) <==> Intact(TcpMessage(f, before, after))))
            && (Intact(IpHeader(f)) ==> (Intact(IpHeader(r)) <==> untouched || HeaderClean(f)))
            && (Intact(TcpMessage(f, before, after)) ==>
                  (Intact(TcpMessage(r, before, after)) <==> untouched || MessageClean(f)))
  {
    FrameAfterStep(ports, st, f, now);
    RedirectVerdicts(f, before, after);
  }

  // ---------------------------------------------------------------- the conditions by header and packet length

  /** The checksum field's change undoes the changes of the two words it was corrected for. */
  lemma CheckChange(f: Frame) returns (x: int)
    requires |f| >= 54
    ensures NewCheck(f) - GetWord(f, 50) == -(PortChange(f) + WindowChange(f)) + 0xFFFF * x
  {
    hide CsumReplace2;
    x := ReplaceAsDifference(GetWord(f, 50), GetWord(f, 36), HONEYPOT_PORT);
    if GetWord(f, 48) != NewWindow(f) {
      var y := ReplaceAsDifference(CheckAfter(f, 36, HONEYPOT_PORT), GetWord(f, 48), NewWindow(f));
      x := x + y;
    }
  }

  /** The shift over a range that holds all three words or is told by what it leaves out. */
  lemma ShiftOf(f: Frame, lo: nat, hi: nat)
    requires |f| >= 54 && lo % 2 == 0
    ensures Shift(f, lo, hi) ==
            (if lo <= 36 && 37 < hi then PortChange(f)
             else if lo <= 36 && hi == 37 then 256 * (HONEYPOT_PORT / 256 - f[36]) else 0)
            + (if lo <= 48 && 49 < hi then WindowChange(f)
               else if lo <= 48 && hi == 49 then 256 * (NewWindow(f) / 256 - f[48]) else 0)
            + (if lo <= 50 && 51 < hi then NewCheck(f) - GetWord(f, 50)
               else if lo <= 50 && hi == 51 then 256 * (NewCheck(f) / 256 - f[50]) else 0)
  {
    hide NewCheck, NewWindow, Share;
    ShareOfWhole(lo, hi, 36, GetWord(f, 36), HONEYPOT_PORT);
    ShareOfWhole(lo, hi, 48, GetWord(f, 48), NewWindow(f));
    ShareOfWhole(lo, hi, 50, GetWord(f, 50), NewCheck(f));
    WordBytes(f[36], f[37]);
    WordBytes(f[48], f[49]);
    WordBytes(f[50], f[51]);
  }

  lemma MultipleIsClean(d: int, q: int)
    ensures (d + 0xFFFF * q) % 0xFFFF == d % 0xFFFF
  {
    AddMultiple(d, q);
  }

  lemma SmallNonZero(d: int)
    requires -0xFFFF < d < 0xFFFF && d != 0
    ensures d % 0xFFFF != 0
  {
  }

  /**
   * For the header check, by header length: clean with 20 bytes and from 40 bytes on, never clean with 24 to 32 bytes,
   * and with 36 bytes clean if and only if the port and window changes cancel out.
   */
  lemma HeaderCleanExactly(f: Frame)
    requires |f| >= 54 && HeaderEnd(f) >= 34 && DestPort(f) != HONEYPOT_PORT
    ensures f[14] % 16 == 5 || f[14] % 16 >= 10 ==> HeaderClean(f)
    ensures 6 <= f[14] % 16 <= 8 ==> !HeaderClean(f)
    ensures f[14] % 16 == 9 ==> (HeaderClean(f) <==> (PortChange(f) + WindowChange(f)) % 0xFFFF == 0)
  {
    hide Shift, NewCheck, NewWindow;
    ShiftOf(f, 14, HeaderEnd(f));
    if f[14] % 16 >= 10 {
      var x := CheckChange(f);
      MultipleIsClean(0, x);
    } else if 6 <= f[14] % 16 <= 8 {
      SmallNonZero(PortChange(f));
    }
  }

  lemma NegatedMultiple(d: int)
    ensures -d % 0xFFFF == 0 <==> d % 0xFFFF == 0
  {
    if d % 0xFFFF == 0 {
      assert -d == 0 + 0xFFFF * (-(d / 0xFFFF));
      AddMultiple(0, -(d / 0xFFFF));
    }
    if -d % 0xFFFF == 0 {
      assert d == 0 + 0xFFFF * (-(-d / 0xFFFF));
      AddMultiple(0, -(-d / 0xFFFF));
    }
  }

  /** For a packet that reaches past the word at 50, the TCP check survives if and only if the header check does. */
  lemma LongPacketCleanAlike(f: Frame)
    requires TcpPacket(f) && PacketEnd(f) >= 52
    ensures MessageClean(f) <==> HeaderClean(f)
  {
    hide Shift, NewCheck, NewWindow;
    var h := HeaderEnd(f);
    ShiftOf(f, 14, h);
    ShiftOf(f, h, PacketEnd(f));
    var x := CheckChange(f);
    var d := Shift(f, 14, h);
    assert d + Shift(f, h, PacketEnd(f)) == 0xFFFF * x;
    MultipleIsClean(-d, x);
    NegatedMultiple(d);
  }

  /** What the redirect changes in the segment of a shorter packet with a 20-byte header: all of it uncorrected. */
  function ShortShift(f: Frame, e: nat): int
    requires |f| >= 54 && e < 52
  {
    if e <= 36 then 0
    else if e == 37 then 256 * (HONEYPOT_PORT / 256 - f[36])
    else if e <= 48 then PortChange(f)
    else if e == 49 then PortChange(f) + 256 * (NewWindow(f) / 256 - f[48])
    else if e == 50 then PortChange(f) + WindowChange(f)
    else PortChange(f) + WindowChange(f) + 256 * (NewCheck(f) / 256 - f[50])
  }

  /**
   * For the TCP check of a packet with a 20-byte header, by packet length: clean when it reaches past the checksum
   * field, never clean when it ends behind the port and no later than the window, and in the few lengths left as the
   * changes inside the packet cancel out.
   */
  lemma MessageCleanExactly(f: Frame)
    requires TcpPacket(f) && HeaderEnd(f) == 34 && DestPort(f) != HONEYPOT_PORT
    ensures PacketEnd(f) >= 52 || PacketEnd(f) <= 36 ==> MessageClean(f)
    ensures 38 <= PacketEnd(f) <= 48 ==> !MessageClean(f)
    ensures PacketEnd(f) < 52 ==> (MessageClean(f) <==> ShortShift(f, PacketEnd(f)) % 0xFFFF == 0)
  {
    hide Shift, NewCheck, NewWindow;
    if PacketEnd(f) >= 52 {
      LongPacketCleanAlike(f);
      HeaderCleanExactly(f);
    } else {
      ShiftOf(f, 34, PacketEnd(f));
      if 38 <= PacketEnd(f) <= 48 {
        SmallNonZero(PortChange(f));
      }
    }
  }

  // ---------------------------------------------------------------- two packets the redirect breaks

  /** Four words off the front of a message. */
  lemma FourWords(m: seq<byte>)
    requires |m| >= 8
    ensures WordSum(m) == GetWord(m, 0) + GetWord(m, 2) + GetWord(m, 4) + GetWord(m, 6) + WordSum(m[8..])
  {
    assert m[2..][2..] == m[4..] && m[4..][2..] == m[6..] && m[6..][2..] == m[8..];
  }

  lemma LastFourWords(m: seq<byte>)
    requires |m| == 8
    ensures WordSum(m) == GetWord(m, 0) + GetWord(m, 2) + GetWord(m, 4) + GetWord(m, 6)
  {
    FourWords(m);
    assert m[8..] == [];
  }

  const ETHERNET: seq<byte> := [0, 0, 0, 0, 0, 0, 0, 0, 0, 0, 0, 0, 8, 0]

  // a packet with three no-operation options, so a 24-byte header, and a SYN segment
  const OPTIONS_HEADER: seq<byte> :=
    [70, 0, 0, 44, 0, 0, 0, 0, 64, 6, 119, 204, 0, 0, 0, 0, 0, 0, 0, 0, 1, 1, 1, 0]
  const OPTIONS_SEGMENT: seq<byte> :=
    [48, 57, 0, 80, 0, 0, 0, 1, 0, 2, 0, 0, 80, 2, 32, 0, 95, 87, 0, 0]
  const OPTIONS_FRAME := ETHERNET + OPTIONS_HEADER + OPTIONS_SEGMENT

  // the last 14 bytes of a segment whose first 8 bytes went before, padded to a frame of 60 bytes
  const FRAGMENT_HEADER: seq<byte> := [69, 0, 0, 34, 0, 0, 0, 1, 64, 6, 122, 214, 0, 0, 0, 0, 0, 0, 0, 0]
  const FIRST_BYTES: seq<byte> := [48, 57, 0, 80, 0, 0, 0, 1]
  const LAST_BYTES: seq<byte> := [0, 0, 0, 0, 80, 2, 32, 0, 95, 85, 0, 0, 0, 2]
  const FRAGMENT_FRAME := ETHERNET + FRAGMENT_HEADER + LAST_BYTES + [0, 0, 0, 0, 0, 0, 0, 0, 0, 0, 0, 0]

  lemma SynIsRedirected(ports: PortTable, f: Frame)
    requires IsTcp(f) && f[47] == 2
    requires DestPort(f) != HONEYPOT_PORT && DestPort(f) !in ports.critical && DestPort(f) !in ports.fake
    ensures Classify(ports, f) == Redirected
  {
    assert !Bit(2, 0x01) && !Bit(2, 0x10);
  }

  /** A packet of words, checked piece by piece. */
  lemma PacketLayout(f: Frame, header: seq<byte>, segment: seq<byte>, padding: seq<byte>)
    requires f == ETHERNET + header + segment + padding && |f| >= 54 && |header| >= 20
    requires header[0] % 16 * 4 == |header| && Word(header[2], header[3]) == |header| + |segment| && header[9] == 6
    ensures TcpPacket(f) && HeaderEnd(f) == 14 + |header| && PacketEnd(f) == 14 + |header| + |segment|
    ensures IpHeader(f) == header && Payload(f) == segment && f[26..34] == header[12..20]
  {
    assert f[14] == header[0] && f[16] == header[2] && f[17] == header[3] && f[23] == header[9];
    assert f[12] == ETHERNET[12] && f[13] == ETHERNET[13];
    assert GetWord(f, 12) == 0x0800;
    assert f[14..14 + |header|] == header;
    assert f[14 + |header|..14 + |header| + |segment|] == segment;
  }

  lemma OptionsLayout()
    ensures var f := OPTIONS_FRAME;
            && TcpPacket(f) && HeaderEnd(f) == 38 && PacketEnd(f) == 58 && DestPort(f) == 256 && f[47] == 2
            && IpHeader(f) == OPTIONS_HEADER
            && TcpMessage(f, [], []) == [0, 0, 0, 0, 0, 0, 0, 0, 0, 6, 0, 20] + OPTIONS_SEGMENT
  {
    var f := OPTIONS_FRAME;
    assert f == ETHERNET + OPTIONS_HEADER + OPTIONS_SEGMENT + [];
    PacketLayout(f, OPTIONS_HEADER, OPTIONS_SEGMENT, []);
    assert f[36] == OPTIONS_HEADER[22] && f[37] == OPTIONS_HEADER[23] && f[47] == OPTIONS_SEGMENT[9];
    assert OPTIONS_HEADER[12..20] == [0, 0, 0, 0, 0, 0, 0, 0];
  }

  lemma OptionsHeaderIntact()
    ensures Intact(OPTIONS_HEADER)
  {
    hide WordSum;
    var h := OPTIONS_HEADER;
    FourWords(h);
    FourWords(h[8..]);
    LastFourWords(h[16..]);
    VerifiesClosed(WordSum(h));
  }

  lemma OptionsMessageIntact()
    ensures Intact([0, 0, 0, 0, 0, 0, 0, 0, 0, 6, 0, 20] + OPTIONS_SEGMENT)
  {
    hide WordSum;
    var m := [0, 0, 0, 0, 0, 0, 0, 0, 0, 6, 0, 20] + OPTIONS_SEGMENT;
    FourWords(m);
    FourWords(m[8..]);
    FourWords(m[16..]);
    LastFourWords(m[24..]);
    VerifiesClosed(WordSum(m));
  }

  lemma FragmentLayout()
    ensures var f := FRAGMENT_FRAME;
            && TcpPacket(f) && HeaderEnd(f) == 34 && PacketEnd(f) == 48 && DestPort(f) == 0 && f[47] == 2
            && IpHeader(f) == FRAGMENT_HEADER
            && TcpMessage(f, FIRST_BYTES, []) == [0, 0, 0, 0, 0, 0, 0, 0, 0, 6, 0, 22] + FIRST_BYTES + LAST_BYTES
  {
    var f := FRAGMENT_FRAME;
    PacketLayout(f, FRAGMENT_HEADER, LAST_BYTES, [0, 0, 0, 0, 0, 0, 0, 0, 0, 0, 0, 0]);
    assert f[36] == LAST_BYTES[2] && f[37] == LAST_BYTES[3] && f[47] == LAST_BYTES[13];
    assert FRAGMENT_HEADER[12..20] == [0, 0, 0, 0, 0, 0, 0, 0];
  }

  lemma FragmentHeaderIntact()
    ensures Intact(FRAGMENT_HEADER)
  {
    var h := FRAGMENT_HEADER;
    FourWords(h);
    FourWords(h[8..]);
    VerifiesClosed(WordSum(h));
  }

  lemma FragmentMessageIntact()
    ensures Intact([0, 0, 0, 0, 0, 0, 0, 0, 0, 6, 0, 22] + FIRST_BYTES + LAST_BYTES)
  {
    var m := [0, 0, 0, 0, 0, 0, 0, 0, 0, 6, 0, 22] + FIRST_BYTES + LAST_BYTES;
    FourWords(m);
    FourWords(m[8..]);
    FourWords(m[16..]);
    FourWords(m[24..]);
    VerifiesClosed(WordSum(m));
  }

  /** A correct packet with IPv4 options both of whose checksums the redirect breaks. */
  lemma OptionsBroken(ports: PortTable, st: State, now: u64)
    requires 256 !in ports.critical && 256 !in ports.fake
    ensures var r := Step(ports, st, OPTIONS_FRAME, now).frame;
            && TcpPacket(OPTIONS_FRAME) && TcpPacket(r)
            && Intact(IpHeader(OPTIONS_FRAME)) && Intact(TcpMessage(OPTIONS_FRAME, [], []))
            && !Intact(IpHeader(r)) && !Intact(TcpMessage(r, [], []))
  {
    hide HeaderClean, MessageClean, Intact, TcpMessage, IpHeader, Redirect;
    hide OPTIONS_FRAME, OPTIONS_HEADER, OPTIONS_SEGMENT;
    OptionsLayout();
    OptionsHeaderIntact();
    OptionsMessageIntact();
    SynIsRedirected(ports, OPTIONS_FRAME);
    HeaderCleanExactly(OPTIONS_FRAME);
    LongPacketCleanAlike(OPTIONS_FRAME);
    ProgramKeepsChecksums(ports, st, OPTIONS_FRAME, now, [], []);
  }

  /** A correct short fragment in a padded frame whose TCP checksum the redirect breaks. */
  lemma ShortFragmentBroken(ports: PortTable, st: State, now: u64)
    requires 0 !in ports.critical && 0 !in ports.fake
    ensures var r := Step(ports, st, FRAGMENT_FRAME, now).frame;
            && TcpPacket(FRAGMENT_FRAME) && TcpPacket(r)
            && Intact(IpHeader(FRAGMENT_FRAME)) && Intact(TcpMessage(FRAGMENT_FRAME, FIRST_BYTES, []))
            && Intact(IpHeader(r)) && !Intact(TcpMessage(r, FIRST_BYTES, []))
  {
    hide HeaderClean, MessageClean, Intact, TcpMessage, IpHeader, Redirect, FRAGMENT_FRAME, FRAGMENT_HEADER, LAST_BYTES;
    FragmentLayout();
    FragmentHeaderIntact();
    FragmentMessageIntact();
    SynIsRedirected(ports, FRAGMENT_FRAME);
    HeaderCleanExactly(FRAGMENT_FRAME);
    MessageCleanExactly(FRAGMENT_FRAME);
    ProgramKeepsChecksums(ports, st, FRAGMENT_FRAME, now, FIRST_BYTES, []);
  }

  // ---------------------------------------------------------------- exactness with a 20-byte header

  const IP_CHECK := 10
  const TCP_CHECK := 28

  /** With a 20-byte header, a packet that holds the TCP checksum field: whole, or a first fragment. */
  predicate HoldsTcpCheck(f: Frame) {
    TcpPacket(f) && HeaderEnd(f) == 34 && PacketEnd(f) >= 52
  }

  predicate IpChecksumCorrect(f: Frame)
    requires TcpPacket(f)
  {
    GetWord(IpHeader(f), IP_CHECK) == Recomputed(IpHeader(f), IP_CHECK)
  }

  predicate TcpChecksumCorrect(f: Frame, after: seq<byte>)
    requires HoldsTcpCheck(f)
  {
    GetWord(TcpMessage(f, [], after), TCP_CHECK) == Recomputed(TcpMessage(f, [], after), TCP_CHECK)
  }

  /** A word written into the segment is written into the message. */
  lemma MessageAfterPut(f: Frame, after: seq<byte>, j: nat, w: u16)
    requires HoldsTcpCheck(f) && 34 <= j <= 50
    ensures var r := PutWord(f, j, w);
            && HoldsTcpCheck(r) && IpHeader(r) == IpHeader(f)
            && TcpMessage(r, [], after) == PutWord(TcpMessage(f, [], after), j - 22, w)
            && GetWord(TcpMessage(f, [], after), j - 22) == GetWord(f, j)
  {
    hide TcpMessage, PseudoHeader;
    var g := f[j := w / 256];
    SameLayout(f, g);
    SameLayout(f, f[j + 1 := w % 256]);
    SameLayout(g, PutWord(f, j, w));
    MessageAfterByte(f, [], after, j, w / 256);
    MessageAfterByte(f, [], after, j + 1, w % 256);
    MessageAfterByte(g, [], after, j + 1, w % 256);
    assert IpHeader(PutWord(f, j, w)) == IpHeader(f);
  }

  lemma SegmentEdit(f: Frame, after: seq<byte>, j: nat, w: u16)
    requires HoldsTcpCheck(f) && 34 <= j < 50 && j % 2 == 0
    ensures var r := Edited(f, 50, j, w, GetWord(f, j), w);
            && HoldsTcpCheck(r) && IpHeader(r) == IpHeader(f)
            && TcpMessage(r, [], after) == Edited(TcpMessage(f, [], after), TCP_CHECK, j - 22, w, GetWord(f, j), w)
            && GetWord(TcpMessage(f, [], after), j - 22) == GetWord(f, j)
  {
    assert |f| >= 54;
    hide CsumReplace2, TcpMessage, IpHeader, HoldsTcpCheck;
    var c := CheckAfter(f, j, w);
    MessageAfterPut(f, after, 50, c);
    MessageAfterPut(f, after, j, w);
    MessageAfterPut(PutWord(f, 50, c), after, j, w);
  }

  lemma SegmentEditExact(f: Frame, after: seq<byte>, j: nat, w: u16)
    requires HoldsTcpCheck(f) && 34 <= j < 50 && j % 2 == 0
    requires TcpChecksumCorrect(f, after)
    ensures var r := Edited(f, 50, j, w, GetWord(f, j), w);
            HoldsTcpCheck(r) && IpHeader(r) == IpHeader(f) && TcpChecksumCorrect(r, after)
  {
    SegmentEdit(f, after, j, w);
    MessageEditExact(TcpMessage(f, [], after), TCP_CHECK, j - 22, w);
  }

  /** The edit of a word in a message whose byte 9, the protocol number, stays as it is. */
  lemma MessageEditExact(m: seq<byte>, k: nat, j: nat, w: u16)
    requires 9 < k && k + 1 < |m| && k % 2 == 0 && 9 < j && j + 1 < |m| && j % 2 == 0 && j != k
    requires m[9] == 6 && GetWord(m, k) == Recomputed(m, k)
    ensures var r := Edited(m, k, j, w, GetWord(m, j), w);
            GetWord(r, k) == Recomputed(r, k)
  {
    EditedFields(m, k, j, w, GetWord(m, j), w);
    CoveredNonZero(Edited(m, k, j, w, GetWord(m, j), w), k);
    EditMatchesRecompute(m, k, j, w, GetWord(m, j), w);
  }

  lemma CoveredNonZero(m: seq<byte>, k: nat)
    requires 9 < k && k + 1 < |m| && m[9] == 6
    ensures WordSum(PutWord(m, k, 0)) > 0
  {
    NonZeroByte(PutWord(m, k, 0), 9);
  }

  lemma TtlEditExact(f: Frame, ttl: byte, after: seq<byte>)
    requires TcpPacket(f)
    ensures var r := MutateTtl(f, ttl);
            && TcpPacket(r) && HeaderEnd(r) == HeaderEnd(f) && PacketEnd(r) == PacketEnd(f)
            && TcpMessage(r, [], after) == TcpMessage(f, [], after)
    ensures IpChecksumCorrect(f) ==> IpChecksumCorrect(MutateTtl(f, ttl))
  {
    TtlKeepsMessage(f, ttl, [], after);
    if f[22] != ttl && IpChecksumCorrect(f) {
      TtlEditOnHeader(f, ttl);
      var m := IpHeader(MutateTtl(f, ttl));
      assert m[9] == 6;
      CoveredNonZero(m, IP_CHECK);
      EditMatchesRecompute(IpHeader(f), IP_CHECK, 8, Word(ttl, f[23]), Word(f[22], 0), Word(ttl, 0));
    }
  }

  lemma WindowEditExact(f: Frame, window: u16, after: seq<byte>)
    requires HoldsTcpCheck(f)
    ensures var r := MutateWindow(f, window);
            && HoldsTcpCheck(r) && IpHeader(r) == IpHeader(f)
            && (TcpChecksumCorrect(f, after) ==> TcpChecksumCorrect(r, after))
  {
    if GetWord(f, 48) != window {
      SegmentEdit(f, after, 48, window);
      if TcpChecksumCorrect(f, after) {
        SegmentEditExact(f, after, 48, window);
      }
    }
  }

  /**
   * With a 20-byte header, fields that held the recomputed checksums hold exactly the recomputed checksums again
   * after the port, TTL and window edits, for whole segments and for first fragments.
   */
  lemma RedirectKeepsChecksums(f: Frame, after: seq<byte>)
    requires HoldsTcpCheck(f)
    ensures var r := Redirect(f);
            && HoldsTcpCheck(r)
            && (IpChecksumCorrect(f) ==> IpChecksumCorrect(r))
            && (TcpChecksumCorrect(f, after) ==> TcpChecksumCorrect(r, after))
  {
    var p := PersonalityOf(GetWord(f, 34));
    var a := RedirectPort(f);
    SegmentEdit(f, after, 36, HONEYPOT_PORT);
    if TcpChecksumCorrect(f, after) {
      SegmentEditExact(f, after, 36, HONEYPOT_PORT);
    }
    TtlEditExact(a, p.ttl, after);
    WindowEditExact(MutateTtl(a, p.ttl), p.window, after);
  }
}
