/** Fixed-width integers and big-endian byte strings, shared by the kernel and the user-space models. */
module Bytes {
  import opened Arithmetic

  type byte = x: int | 0 <= x < 0x100
  type u16 = x: int | 0 <= x < 0x1_0000
  type u32 = x: int | 0 <= x < 0x1_0000_0000
  type u64 = x: int | 0 <= x < 0x1_0000_0000_0000_0000
  type int64 = x: int | -0x8000_0000_0000_0000 <= x < 0x8000_0000_0000_0000

  /** Reduction modulo 2^64, the meaning of unsigned 64-bit arithmetic. */
  function Wrap64(x: int): u64 {
    x % 0x1_0000_0000_0000_0000
  }

  /** Conversion to a signed 64-bit integer, which is also the meaning of signed 64-bit arithmetic in Go. */
  function Signed64(x: int): int64 {
    var w := Wrap64(x);
    if w < 0x8000_0000_0000_0000 then w else w - 0x1_0000_0000_0000_0000
  }

  function Pow256(n: nat): (p: nat)
    ensures p > 0
  {
    if n == 0 then 1 else 256 * Pow256(n - 1)
  }

  /** The low n bytes of v, most significant first. */
  function BigEndian(n: nat, v: nat): (s: seq<byte>)
    ensures |s| == n
  {
    if n == 0 then [] else BigEndian(n - 1, v / 256) + [v % 256]
  }

  /** The number a big-endian byte string denotes. */
  function Value(s: seq<byte>): (v: nat)
    ensures v < Pow256(|s|)
  {
    if s == [] then 0 else 256 * Value(s[..|s| - 1]) + s[|s| - 1]
  }

  lemma {:induction false} ValueOfBigEndian(n: nat, v: nat)
    requires v < Pow256(n)
    ensures Value(BigEndian(n, v)) == v
  {
    if n > 0 {
      ValueOfBigEndian(n - 1, v / 256);
      var s := BigEndian(n, v);
      assert s[..n - 1] == BigEndian(n - 1, v / 256);
    }
  }

  /** Byte i of a big-endian field counts 256^(n - 1 - i). */
  lemma {:induction false} BigEndianAt(n: nat, v: nat, i: nat)
    requires i < n
    ensures BigEndian(n, v)[i] == v / Pow256(n - 1 - i) % 256
  {
    if i == n - 1 {
      assert v / 1 == v;
    } else {
      BigEndianAt(n - 1, v / 256, i);
      DivideTwice(v, 256, Pow256(n - 2 - i));
    }
  }

  lemma DivideTwice(v: nat, a: nat, b: nat)
    requires a > 0 && b > 0
    ensures v / a / b == v / (a * b)
  {
    var q := v / a;
    FloorBounds(v, a);
    FloorBounds(q, b);
    Distribute(q, 1, a);
    var t := q / b;
    assert t * b <= q <= t * b + b - 1;
    ScaleBounds(q, t * b, t * b + b - 1, a);
    Distribute(t * b, b, a);
    assert t * (a * b) == t * b * a && b * a == a * b;
    FloorUnique(v, a * b, t);
  }

  lemma ScaleBounds(q: int, lo: int, hi: int, a: nat)
    requires lo <= q <= hi
    ensures lo * a <= q * a && q * a + a <= (hi + 1) * a
  {
    assert (q - lo) * a >= 0 && (hi - q) * a >= 0;
    Distribute(q, -lo, a);
    Distribute(hi, -q, a);
    Distribute(hi, 1, a);
  }

  lemma LastByte(v: nat, b: byte)
    ensures (256 * v + b) / 256 == v && (256 * v + b) % 256 == b
  {
  }

  lemma {:induction false} BigEndianOfValue(s: seq<byte>)
    ensures BigEndian(|s|, Value(s)) == s
  {
    if s != [] {
      BigEndianOfValue(s[..|s| - 1]);
      LastByte(Value(s[..|s| - 1]), s[|s| - 1]);
      assert s == s[..|s| - 1] + [s[|s| - 1]];
    }
  }

  /** Byte strings of one length are equal when they denote the same number. */
  lemma ValueInjective(s: seq<byte>, t: seq<byte>)
    requires |s| == |t| && Value(s) == Value(t)
    ensures s == t
  {
    BigEndianOfValue(s);
    BigEndianOfValue(t);
  }

  lemma Pow256Widths()
    ensures Pow256(2) == 0x1_0000
    ensures Pow256(4) == 0x1_0000_0000
    ensures Pow256(8) == 0x1_0000_0000_0000_0000
  {
  }

  /** Casting a signed 64-bit integer to unsigned and back gives it back. */
  lemma SignedOfWrapped(x: int64)
    ensures Signed64(Wrap64(x)) == x
  {
  }

  lemma WrappedOfSigned(x: u64)
    ensures Wrap64(Signed64(x)) == x
  {
  }

  // ---------------------------------------------------------------- bitwise operators on naturals

  function Xor(a: nat, b: nat): nat
    decreases a + b
  {
    if a == 0 && b == 0 then 0 else (a + b) % 2 + 2 * Xor(a / 2, b / 2)
  }

  function Or(a: nat, b: nat): nat
    decreases a + b
  {
    if a == 0 && b == 0 then 0
    else (if a % 2 == 1 || b % 2 == 1 then 1 else 0) + 2 * Or(a / 2, b / 2)
  }

  /** Exclusive or detects every difference. */
  lemma {:induction false} XorIsZero(a: nat, b: nat)
    ensures Xor(a, b) == 0 <==> a == b
    decreases a + b
  {
    if a != 0 || b != 0 {
      XorIsZero(a / 2, b / 2);
    }
  }

  lemma {:induction false} OrIsZero(a: nat, b: nat)
    ensures Or(a, b) == 0 <==> a == 0 && b == 0
    decreases a + b
  {
    if a != 0 || b != 0 {
      OrIsZero(a / 2, b / 2);
    }
  }

  /** Bit k of a byte, as the masks 1, 2, 4, ... select it. */
  predicate Bit(b: byte, mask: nat)
    requires mask > 0
  {
    b / mask % 2 == 1
  }
}
