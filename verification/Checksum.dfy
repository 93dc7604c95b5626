/**
 * The incremental Internet checksum of the XDP program (internal/ebpf/programs/phantom.c)
 * against full recomputation (section 1 of RFC 1071, equation 3 in section 3 of RFC 1624).
 */
module Checksum {
  import opened Bytes

  /** One end-around-carry step: the high part of an accumulator is added back to its low 16 bits. */
  function Fold(n: nat): nat {
    n % 0x1_0000 + n / 0x1_0000
  }

  /** Folding until the accumulator fits 16 bits. */
  function FoldFully(n: nat): (r: u16)
    decreases n
  {
    if n < 0x1_0000 then n else FoldFully(Fold(n))
  }

  function Complement(w: u16): u16 {
    0xFFFF - w
  }

  /** csum_replace2: `check` is the stored checksum; one covered word changes from `old16` to `new16`. */
  function CsumReplace2(check: u16, old16: u16, new16: u16): u16 {
    var csum := Complement(check) + Complement(old16) + new16;
    Complement(Fold(Fold(csum)) % 0x1_0000)
  }

  lemma FoldSmall(n: nat)
    requires n < 0x1_0000
    ensures Fold(n) == n
  {
  }

  lemma FoldOnce(n: u32)
    ensures Fold(n) <= 0x1_FFFE
    ensures 0x1_0000 <= n <= 0x1_FFFE ==> Fold(n) < 0x1_0000
  {
    var h, l := n / 0x1_0000, n % 0x1_0000;
    assert n == 0x1_0000 * h + l;
    assert h < 0x1_0000;
  }

  /** The two unrolled folds are enough for every 32-bit accumulator. */
  lemma TwoFoldsSuffice(n: u32)
    ensures Fold(Fold(n)) == FoldFully(n)
  {
    var a := Fold(n);
    FoldOnce(n);
    FoldOnce(a);
    if n < 0x1_0000 {
      FoldSmall(n);
    } else if a < 0x1_0000 {
      FoldSmall(a);
    } else {
      assert FoldFully(a) == FoldFully(Fold(a));
    }
  }

  /** Full folding in closed form: zero stays zero, anything else goes to its residue in 1..65535. */
  lemma {:induction false} FoldFullyClosed(n: nat)
    ensures FoldFully(n) == if n == 0 then 0 else (n - 1) % 0xFFFF + 1
  {
    if n >= 0x1_0000 {
      var f := Fold(n);
      FoldFullyClosed(f);
      var q := n / 0x1_0000;
      assert n == f + 0xFFFF * q;
      AddMultiple(f - 1, q);
    }
  }

  lemma AddMultiple(x: int, q: int)
    ensures (x + 0xFFFF * q) % 0xFFFF == x % 0xFFFF
  {
  }

  /** Folding identifies two accumulators when they agree modulo 65535 and on being zero, and only then. */
  lemma FoldFullyEqual(m: nat, n: nat)
    ensures FoldFully(m) == FoldFully(n) <==> (m % 0xFFFF == n % 0xFFFF && (m == 0 <==> n == 0))
  {
    FoldFullyClosed(m);
    FoldFullyClosed(n);
    if m > 0 {
      ResidueOfPredecessor(m);
    }
    if n > 0 {
      ResidueOfPredecessor(n);
    }
  }

  lemma ResidueOfPredecessor(n: nat)
    requires n > 0
    ensures (n - 1) % 0xFFFF == if n % 0xFFFF == 0 then 0xFFFE else n % 0xFFFF - 1
  {
    var q, r := n / 0xFFFF, n % 0xFFFF;
    assert n - 1 == (r - 1) + 0xFFFF * q;
    AddMultiple(r - 1, q);
  }

  /** How many multiples of 65535 folding takes away. */
  function Carried(n: nat): (q: nat)
    ensures n == FoldFully(n) + 0xFFFF * q
  {
    FoldFullyClosed(n);
    if n == 0 then 0 else (n - 1) / 0xFFFF
  }

  lemma FoldFullyResidue(n: nat)
    ensures FoldFully(n) % 0xFFFF == n % 0xFFFF
  {
    AddMultiple(FoldFully(n), Carried(n));
  }

  lemma ReplaceFoldsFully(check: u16, a: u16, b: u16)
    ensures CsumReplace2(check, a, b) == Complement(FoldFully(Complement(check) + Complement(a) + b))
  {
    var n: u32 := Complement(check) + Complement(a) + b;
    TwoFoldsSuffice(n);
    var f: u16 := Fold(Fold(n));
    SmallRemainder(f);
  }

  lemma SmallRemainder(f: u16)
    ensures f % 0x1_0000 == f
  {
  }

  // ---------------------------------------------------------------- one edit, on sums

  /**
   * A covered sum changes from s to s - a + b. The updated checksum is exactly the recomputed one,
   * except when everything covered has become zero.
   */
  lemma ReplaceMatchesRecompute(s: nat, a: u16, b: u16)
    requires a <= s
    ensures CsumReplace2(Complement(FoldFully(s)), a, b) == Complement(FoldFully(s - a + b))
            <==> s - a + b > 0
  {
    var pre: u32 := FoldFully(s) + Complement(a) + b;
    ReplaceFoldsFully(Complement(FoldFully(s)), a, b);
    PositivePre(s, a, b);
    FoldsAgree(pre, s - a + b, 1 - Carried(s));
  }

  lemma FoldsAgree(m: nat, n: nat, x: int)
    requires m > 0 && m == n + 0xFFFF * x
    ensures FoldFully(m) == FoldFully(n) <==> n > 0
  {
    AddMultiple(n, x);
    FoldFullyEqual(m, n);
  }

  lemma PositivePre(s: nat, a: u16, b: u16)
    requires a <= s
    ensures FoldFully(s) + Complement(a) + b > 0
  {
    FoldFullyClosed(s);
  }

  /** What a receiver computes over the covered words and the checksum field: all ones when intact. */
  predicate Verifies(total: nat) {
    FoldFully(total) == 0xFFFF
  }

  lemma VerifiesClosed(total: nat)
    ensures Verifies(total) <==> total > 0 && total % 0xFFFF == 0
  {
    FoldFullyEqual(total, 0xFFFF);
  }

  lemma SumWithChecksumVerifies(s: nat)
    ensures Verifies(s + Complement(FoldFully(s)))
  {
    var q := Carried(s);
    var total := s + Complement(FoldFully(s));
    assert total == 0xFFFF * (q + 1);
    AddMultiple(0, q + 1);
    VerifiesClosed(total);
  }

  /** When a receiver's verdict survives an update of the covered sum s to s' that corrects `check`. */
  predicate VerdictSurvives(s: nat, check: u16, s': nat) {
    if s' > 0 then s > 0 || check != 0
    else !Verifies(s + check) || (s > 0 && check == 0xFFFF)
  }

  /**
   * Exactly when the receiver's verdict is the same before and after an update, for intact and for corrupted
   * messages: always while the covered words are not all zero, and in the corner cases as VerdictSurvives says.
   */
  lemma ReplaceKeepsVerdict(s: nat, check: u16, a: u16, b: u16)
    requires a <= s
    ensures (Verifies(s - a + b + CsumReplace2(check, a, b)) <==> Verifies(s + check))
            <==> VerdictSurvives(s, check, s - a + b)
  {
    var x := ReplaceAsDifference(check, a, b);
    var c := CsumReplace2(check, a, b);
    SameVerdictExactly(s + check, s - a + b + c, x);
    UpdatedZero(check, a, b);
    if (s + check) % 0xFFFF == 0 {
      VerifiesClosed(s + check);
      ResidueCases(s, check, a, b);
    } else {
      NotMultiple(s, check);
      VerifiesClosed(s + check);
    }
  }

  /** Totals that differ by a multiple of 65535 get the same verdict unless just one of them is zero. */
  lemma SameVerdictExactly(before: nat, after: nat, x: int)
    requires after == before + 0xFFFF * x
    ensures (Verifies(after) <==> Verifies(before)) <==> before % 0xFFFF != 0 || (before == 0 <==> after == 0)
  {
    AddMultiple(before, x);
    VerifiesClosed(after);
    VerifiesClosed(before);
  }

  lemma UpdatedZero(check: u16, a: u16, b: u16)
    ensures var pre := Complement(check) + Complement(a) + b;
            CsumReplace2(check, a, b) == 0 <==> pre > 0 && pre % 0xFFFF == 0
  {
    ReplaceFoldsFully(check, a, b);
    VerifiesClosed(Complement(check) + Complement(a) + b);
  }

  /** The zero cases when the old total is a multiple of 65535. */
  lemma ResidueCases(s: nat, check: u16, a: u16, b: u16)
    requires a <= s && (s + check) % 0xFFFF == 0
    ensures var pre := Complement(check) + Complement(a) + b;
            && (s + check == 0 ==> s == 0 && check == 0)
            && (s - a + b == 0 ==> pre % 0xFFFF == 0 && (pre == 0 <==> s == check == 0xFFFF))
            && (s - a + b == 0 && s > 0 && check == 0xFFFF ==> s == 0xFFFF)
  {
    if s - a + b == 0 {
      var q := (s + check) / 0xFFFF;
      assert s + check == 0xFFFF * q;
      assert Complement(check) + Complement(a) + b == 0 + 0xFFFF * (2 - q);
      AddMultiple(0, 2 - q);
    }
  }

  lemma NotMultiple(s: nat, check: u16)
    requires (s + check) % 0xFFFF != 0
    ensures s > 0 || check != 0
  {
  }

  /** The update adds the old word and takes the new one away, up to a multiple of 65535. */
  lemma ReplaceAsDifference(check: u16, a: u16, b: u16) returns (x: int)
    ensures CsumReplace2(check, a, b) == check + a - b + 0xFFFF * x
  {
    ReplaceFoldsFully(check, a, b);
    x := Carried(Complement(check) + Complement(a) + b);
    x := x - 1;
  }

  /** A total that changes by d, up to a multiple of 65535, and is never zero. */
  lemma VerdictUnderDelta(before: nat, after: nat, d: int, x: int)
    requires before > 0 && after > 0 && after == before + d + 0xFFFF * x
    ensures d % 0xFFFF == 0 ==> (Verifies(after) <==> Verifies(before))
    ensures Verifies(before) ==> (Verifies(after) <==> d % 0xFFFF == 0)
  {
    VerifiesClosed(after);
    VerifiesClosed(before);
    AddMultiple(before + d, x);
    ResidueOfSum(before, d);
  }

  lemma ResidueOfSum(m: int, d: int)
    ensures d % 0xFFFF == 0 ==> (m + d) % 0xFFFF == m % 0xFFFF
    ensures m % 0xFFFF == 0 ==> (m + d) % 0xFFFF == d % 0xFFFF
  {
    var p, q := m / 0xFFFF, d / 0xFFFF;
    if d % 0xFFFF == 0 {
      assert m + d == m + 0xFFFF * q;
      AddMultiple(m, q);
    }
    if m % 0xFFFF == 0 {
      assert m + d == d + 0xFFFF * p;
      AddMultiple(d, p);
    }
  }

  // ---------------------------------------------------------------- byte order

  /** The 16-bit word two bytes denote in network order. */
  function Word(hi: byte, lo: byte): u16 {
    256 * hi + lo
  }

  lemma WordBytes(hi: byte, lo: byte)
    ensures Word(hi, lo) / 256 == hi && Word(hi, lo) % 256 == lo
  {
  }

  function Swap(w: u16): u16 {
    Word(w % 256, w / 256)
  }

  lemma SwapTwice(w: u16)
    ensures Swap(Swap(w)) == w
  {
    WordBytes(w % 256, w / 256);
  }

  /** Swapping the bytes of a word multiplies it by 256 modulo 65535. */
  lemma SwapResidue(w: u16)
    ensures Swap(w) % 0xFFFF == 256 * w % 0xFFFF
  {
    SwapDefect(w);
    AddMultiple(Swap(w), w / 256);
  }

  lemma ScaleResidue(x: nat, y: nat)
    requires x % 0xFFFF == y % 0xFFFF
    ensures 256 * x % 0xFFFF == 256 * y % 0xFFFF
  {
    var p, q, r := x / 0xFFFF, y / 0xFFFF, x % 0xFFFF;
    assert 256 * x == 256 * r + 0xFFFF * (256 * p);
    assert 256 * y == 256 * r + 0xFFFF * (256 * q);
    AddMultiple(256 * r, 256 * p);
    AddMultiple(256 * r, 256 * q);
  }

  /** Byte swapping commutes with folding: section 2(B) of RFC 1071. */
  lemma SwapFold(n: nat, m: nat)
    requires m % 0xFFFF == 256 * n % 0xFFFF
    requires m == 0 <==> n == 0
    ensures FoldFully(m) == Swap(FoldFully(n))
  {
    var f := FoldFully(n);
    SwapResidue(f);
    FoldFullyResidue(n);
    ScaleResidue(f, n);
    FoldFullyClosed(n);
    FoldFullyEqual(m, Swap(f));
    assert FoldFully(Swap(f)) == Swap(f);
  }

  /** A little-endian host, which loads every word swapped, stores the same two checksum bytes. */
  lemma SwapReplace(check: u16, a: u16, b: u16)
    ensures CsumReplace2(Swap(check), Swap(a), Swap(b)) == Swap(CsumReplace2(check, a, b))
  {
    SwapComplement(check);
    SwapComplement(a);
    var s, t := SwapFoldSum3(Complement(check), Complement(a), b);
    SwapComplement(FoldFully(s));
    ReplaceFoldsFully(check, a, b);
    ReplaceFoldsFully(Swap(check), Swap(a), Swap(b));
  }

  lemma SwapFoldSum3(x: u16, y: u16, z: u16) returns (s: nat, t: nat)
    ensures s == x + y + z && t == Swap(x) + Swap(y) + Swap(z)
    ensures FoldFully(t) == Swap(FoldFully(s))
  {
    var sx, sy, sz := Swap(x), Swap(y), Swap(z);
    SwapDefect(x);
    SwapDefect(y);
    SwapDefect(z);
    s, t := SumDefects(x, y, z, sx, sy, sz, x / 256, y / 256, z / 256);
  }

  lemma SumDefects(x: nat, y: nat, z: nat, sx: nat, sy: nat, sz: nat, hx: nat, hy: nat, hz: nat)
    returns (s: nat, t: nat)
    requires 256 * x == sx + 0xFFFF * hx && (sx == 0 <==> x == 0)
    requires 256 * y == sy + 0xFFFF * hy && (sy == 0 <==> y == 0)
    requires 256 * z == sz + 0xFFFF * hz && (sz == 0 <==> z == 0)
    ensures s == x + y + z && t == sx + sy + sz
    ensures FoldFully(t) == Swap(FoldFully(s))
  {
    s, t := x + y + z, sx + sy + sz;
    SwapFoldOfDefect(s, t, hx + hy + hz);
  }

  lemma SwapFoldOfDefect(s: nat, t: nat, h: nat)
    requires 256 * s == t + 0xFFFF * h
    requires t == 0 <==> s == 0
    ensures FoldFully(t) == Swap(FoldFully(s))
  {
    AddMultiple(t, h);
    SwapFold(s, t);
  }

  lemma SwapComplement(w: u16)
    ensures Complement(Swap(w)) == Swap(Complement(w))
  {
    var h, l := w / 256, w % 256;
    assert Complement(w) == Word(255 - h, 255 - l);
    WordBytes(255 - h, 255 - l);
  }

  /** Swapping takes away a multiple of 65535 from 256 times the word. */
  lemma SwapDefect(w: u16)
    ensures 256 * w == Swap(w) + 0xFFFF * (w / 256)
    ensures Swap(w) == 0 <==> w == 0
  {
  }

  // ---------------------------------------------------------------- messages as bytes

  /** The plain sum of a message's 16-bit words, an odd tail padded with a zero byte. */
  function WordSum(m: seq<byte>): nat {
    if |m| == 0 then 0
    else if |m| == 1 then Word(m[0], 0)
    else Word(m[0], m[1]) + WordSum(m[2..])
  }

  function PutWord(m: seq<byte>, k: nat, w: u16): (r: seq<byte>)
    requires k + 1 < |m|
    ensures |r| == |m|
  {
    m[k := w / 256][k + 1 := w % 256]
  }

  function GetWord(m: seq<byte>, k: nat): u16
    requires k + 1 < |m|
  {
    Word(m[k], m[k + 1])
  }

  lemma GetAfterPut(m: seq<byte>, k: nat, j: nat, w: u16)
    requires k % 2 == 0 && k + 1 < |m| && j % 2 == 0 && j + 1 < |m|
    ensures GetWord(PutWord(m, k, w), j) == if j == k then w else GetWord(m, j)
  {
    var r := PutWord(m, k, w);
    if j != k {
      assert j + 1 < k || k + 1 < j;
      assert r[j] == m[j] && r[j + 1] == m[j + 1];
    } else {
      assert r[k] == w / 256 && r[k + 1] == w % 256;
    }
  }

  /** Writes to two different words commute, and a later write to a word replaces an earlier one. */
  lemma PutsCommute(m: seq<byte>, k: nat, j: nat, v: u16, w: u16)
    requires k % 2 == 0 && k + 1 < |m| && j % 2 == 0 && j + 1 < |m|
    ensures j != k ==> PutWord(PutWord(m, k, v), j, w) == PutWord(PutWord(m, j, w), k, v)
    ensures PutWord(PutWord(m, k, v), k, w) == PutWord(m, k, w)
  {
  }

  /** A write into a slice, or outside it. */
  lemma PutAndSlice(m: seq<byte>, lo: nat, hi: nat, k: nat, w: u16)
    requires k + 1 < |m| && lo <= hi <= |m|
    ensures lo <= k && k + 1 < hi ==>
              PutWord(m, k, w)[lo..hi] == PutWord(m[lo..hi], k - lo, w) && GetWord(m[lo..hi], k - lo) == GetWord(m, k)
    ensures k + 1 < lo || hi <= k ==> PutWord(m, k, w)[lo..hi] == m[lo..hi]
  {
  }

  /** The high byte of a word counts 256 times. */
  function Weight(i: nat): nat {
    if i % 2 == 0 then 256 else 1
  }

  /** Rewriting one byte changes the sum by the difference, at the byte's place in its word; an odd tail included. */
  lemma {:induction false} WordSumAfterByte(m: seq<byte>, i: nat, b: byte)
    requires i < |m|
    ensures WordSum(m[i := b]) == WordSum(m) + Weight(i) * (b - m[i])
  {
    if i < 2 {
      assert |m| >= 2 ==> m[i := b][2..] == m[2..];
    } else {
      WordSumAfterByte(m[2..], i - 2, b);
      assert m[i := b][2..] == m[2..][i - 2 := b];
    }
  }

  /** A byte written into the middle part of a concatenation. */
  lemma PutByteIntoMiddle(a: seq<byte>, b: seq<byte>, c: seq<byte>, k: nat, v: byte)
    requires k < |b|
    ensures (a + b + c)[|a| + k := v] == a + b[k := v] + c
    ensures (a + b + c)[|a| + k] == b[k]
  {
  }

  /** Rewriting the word at an even offset changes the sum by exactly the difference of the words. */
  lemma {:induction false} WordSumAfterPut(m: seq<byte>, k: nat, w: u16)
    requires k % 2 == 0 && k + 1 < |m|
    ensures GetWord(m, k) <= WordSum(m)
    ensures WordSum(PutWord(m, k, w)) == WordSum(m) - GetWord(m, k) + w
    decreases k
  {
    var r := PutWord(m, k, w);
    if k == 0 {
      assert r[2..] == m[2..];
    } else {
      WordSumAfterPut(m[2..], k - 2, w);
      assert r[2..] == PutWord(m[2..], k - 2, w);
    }
  }

  /** What the checksum field at offset k must hold: the checksum of the message with that field zeroed. */
  function Recomputed(m: seq<byte>, k: nat): u16
    requires k + 1 < |m|
  {
    Complement(FoldFully(WordSum(PutWord(m, k, 0))))
  }

  /** The receiver's test over the whole message, checksum field included. */
  predicate Intact(m: seq<byte>) {
    Verifies(WordSum(m))
  }

  /** A message whose field holds the recomputed checksum passes the receiver's test. */
  lemma RecomputedIsIntact(m: seq<byte>, k: nat)
    requires k % 2 == 0 && k + 1 < |m|
    requires GetWord(m, k) == Recomputed(m, k)
    ensures Intact(m)
  {
    WordSumAfterPut(m, k, 0);
    SumWithChecksumVerifies(WordSum(PutWord(m, k, 0)));
  }

  /**
   * One in-place edit as the XDP program makes it: the word at j becomes w, and the checksum field
   * at k is updated from `old16` and `new16`, which need only differ by as much as the words do.
   */
  function Edited(m: seq<byte>, k: nat, j: nat, w: u16, old16: u16, new16: u16): (r: seq<byte>)
    requires k + 1 < |m| && j + 1 < |m|
    ensures |r| == |m|
  {
    PutWord(PutWord(m, k, CsumReplace2(GetWord(m, k), old16, new16)), j, w)
  }

  /** The edit's effect on the checksum field and on the sum of the covered words. */
  lemma EditedCovered(m: seq<byte>, k: nat, j: nat, w: u16, old16: u16, new16: u16)
    requires k % 2 == 0 && k + 1 < |m| && j % 2 == 0 && j + 1 < |m| && j != k
    requires w - GetWord(m, j) == new16 - old16 && old16 <= GetWord(m, j)
    ensures var r := Edited(m, k, j, w, old16, new16);
            && GetWord(r, k) == CsumReplace2(GetWord(m, k), old16, new16)
            && GetWord(m, j) <= WordSum(PutWord(m, k, 0))
            && WordSum(PutWord(r, k, 0)) == WordSum(PutWord(m, k, 0)) - old16 + new16
  {
    var c := CsumReplace2(GetWord(m, k), old16, new16);
    var z := PutWord(m, k, 0);
    GetAfterPut(m, k, k, c);
    GetAfterPut(PutWord(m, k, c), j, k, w);
    GetAfterPut(m, k, j, 0);
    PutsCommute(PutWord(m, k, c), j, k, w, 0);
    PutsCommute(m, k, j, c, 0);
    WordSumAfterPut(z, j, w);
  }

  /** A correct checksum field is again exactly the recomputed one, unless all covered words are now zero. */
  lemma EditMatchesRecompute(m: seq<byte>, k: nat, j: nat, w: u16, old16: u16, new16: u16)
    requires k % 2 == 0 && k + 1 < |m| && j % 2 == 0 && j + 1 < |m| && j != k
    requires w - GetWord(m, j) == new16 - old16 && old16 <= GetWord(m, j)
    requires GetWord(m, k) == Recomputed(m, k)
    ensures var r := Edited(m, k, j, w, old16, new16);
            GetWord(r, k) == Recomputed(r, k) <==> WordSum(PutWord(r, k, 0)) > 0
  {
    var r := Edited(m, k, j, w, old16, new16);
    EditedCovered(m, k, j, w, old16, new16);
    ReplaceMatchesRecompute(WordSum(PutWord(m, k, 0)), old16, new16);
  }

  /** Exactly when the receiver's verdict is the same before and after the edit, for every message. */
  lemma EditKeepsVerdict(m: seq<byte>, k: nat, j: nat, w: u16, old16: u16, new16: u16)
    requires k % 2 == 0 && k + 1 < |m| && j % 2 == 0 && j + 1 < |m| && j != k
    requires w - GetWord(m, j) == new16 - old16 && old16 <= GetWord(m, j)
    ensures var r := Edited(m, k, j, w, old16, new16);
            (Intact(r) <==> Intact(m))
            <==> VerdictSurvives(WordSum(PutWord(m, k, 0)), GetWord(m, k), WordSum(PutWord(r, k, 0)))
  {
    var r := Edited(m, k, j, w, old16, new16);
    WordSumAfterPut(m, k, 0);
    WordSumAfterPut(r, k, 0);
    EditedCovered(m, k, j, w, old16, new16);
    ReplaceKeepsVerdict(WordSum(PutWord(m, k, 0)), GetWord(m, k), old16, new16);
  }

  /** A message with some non-zero byte has a non-zero sum. */
  lemma {:induction false} NonZeroByte(m: seq<byte>, i: nat)
    requires i < |m| && m[i] != 0
    ensures WordSum(m) > 0
  {
    if i >= 2 {
      NonZeroByte(m[2..], i - 2);
    }
  }

  /** The one failing family: an edit that leaves every covered word zero makes a receiver reject the message. */
  lemma EditToZeroRejected(m: seq<byte>, k: nat, j: nat, w: u16, old16: u16, new16: u16)
    requires k % 2 == 0 && k + 1 < |m| && j % 2 == 0 && j + 1 < |m| && j != k
    requires w - GetWord(m, j) == new16 - old16 && old16 <= GetWord(m, j)
    requires GetWord(m, k) == Recomputed(m, k)
    requires WordSum(PutWord(m, k, 0)) > 0
    requires WordSum(PutWord(Edited(m, k, j, w, old16, new16), k, 0)) == 0
    ensures !Intact(Edited(m, k, j, w, old16, new16))
  {
    EditKeepsVerdict(m, k, j, w, old16, new16);
    RecomputedIsIntact(m, k);
    LostAtZero(WordSum(PutWord(m, k, 0)), GetWord(m, k));
  }

  lemma LostAtZero(s: nat, check: u16)
    requires s > 0 && check == Complement(FoldFully(s))
    ensures !VerdictSurvives(s, check, 0)
  {
    SumWithChecksumVerifies(s);
    FoldFullyClosed(s);
  }
}
