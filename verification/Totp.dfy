/** Time-based one-time passwords (internal/spa/totp.go; section 5.3 of RFC 4226, section 4.2 of RFC 6238). */
module Totp {
  import opened Arithmetic
  import opened Bytes
  import opened Crypto

  /** Seconds since the epoch, as far ahead as sums of two of them stay within 64 bits. */
  type Clock = t: int | 0 <= t < 0x4000_0000_0000_0000

  /** Go's integer division, which truncates toward zero. */
  function GoDiv(a: int, b: int): int
    requires b != 0
  {
    if a >= 0 then a / b else -(-a / b)
  }

  /** Dynamic truncation: four bytes of the hash chosen by its last nibble, sign bit cleared, six digits. */
  function Truncate(hash: Hash20): (code: u32)
    ensures code < 1_000_000
  {
    var offset := hash[19] % 16;
    Value(hash[offset..offset + 4]) % 0x8000_0000 % 1_000_000
  }

  /** The code of one counter value. */
  function Code(p: Primitives, secret: seq<byte>, counter: int): (code: u32)
    ensures code < 1_000_000
  {
    Truncate(p.hmacSha1(secret, BigEndian(8, Wrap64(counter))))
  }

  /** The code, byte by byte: the chosen four without their top bit, as a number of at most six digits. */
  lemma TruncatedBytes(hash: Hash20)
    ensures var o := hash[19] % 16;
            var b0: int, b1: int, b2: int, b3: int := hash[o], hash[o + 1], hash[o + 2], hash[o + 3];
            Truncate(hash) == (0x100_0000 * (b0 % 0x80) + 0x1_0000 * b1 + 0x100 * b2 + b3) % 1_000_000
  {
    var o := hash[19] % 16;
    FourBytes(hash[o..o + 4]);
    TopBitOff(hash[o], hash[o + 1], hash[o + 2], hash[o + 3]);
  }

  lemma FourBytes(s: seq<byte>)
    requires |s| == 4
    ensures var b0: int, b1: int, b2: int, b3: int := s[0], s[1], s[2], s[3];
            Value(s) == 0x100_0000 * b0 + 0x1_0000 * b1 + 0x100 * b2 + b3
  {
    var b0: int, b1: int, b2: int := s[0], s[1], s[2];
    assert s[..3][..2] == s[..2] && s[..2][..1] == [s[0]];
    assert Value([s[0]]) == b0;
    assert Value(s[..2]) == 256 * b0 + b1;
    assert Value(s[..3]) == 256 * (256 * b0 + b1) + b2;
  }

  lemma TopBitOff(b0: int, b1: int, b2: int, b3: int)
    requires 0 <= b0 < 256 && 0 <= b1 < 256 && 0 <= b2 < 256 && 0 <= b3 < 256
    ensures (0x100_0000 * b0 + 0x1_0000 * b1 + 0x100 * b2 + b3) % 0x8000_0000
            == 0x100_0000 * (b0 % 0x80) + 0x1_0000 * b1 + 0x100 * b2 + b3
  {
  }

  /** The example of section 5.4 of RFC 4226. */
  lemma Rfc4226Example(hash: Hash20)
    requires hash == [0x1f, 0x86, 0x98, 0x69, 0x0e, 0x02, 0xca, 0x16, 0x61, 0x85, 0x50, 0xef, 0x7f, 0x19, 0xda, 0x8e,
                      0x94, 0x5b, 0x55, 0x5a]
    ensures Truncate(hash) == 872921
  {
    TruncatedBytes(hash);
  }

  /** The message authenticated is the counter as eight bytes, most significant first, negative ones modulo 2^64. */
  lemma CodeOfCounter(p: Primitives, secret: seq<byte>, counter: int, bytes: seq<byte>)
    requires |bytes| == 8
    requires forall i :: 0 <= i < 8 ==> bytes[i] == counter % 0x1_0000_0000_0000_0000 / Pow256(7 - i) % 256
    ensures Code(p, secret, counter) == Truncate(p.hmacSha1(secret, bytes))
  {
    var field := BigEndian(8, Wrap64(counter));
    forall i | 0 <= i < 8
      ensures field[i] == bytes[i]
    {
      BigEndianAt(8, Wrap64(counter), i);
    }
    assert field == bytes;
  }

  function CodeAt(p: Primitives, secret: seq<byte>, timeStep: int, timestamp: int): (code: u32)
    requires timeStep != 0
    ensures code < 1_000_000
  {
    Code(p, secret, GoDiv(timestamp, timeStep))
  }

  /** Whether some counter within the tolerance of the clock's own counter produces the code. */
  ghost predicate InWindow(p: Primitives, secret: seq<byte>, timeStep: int, tolerance: int, now: int, code: u32)
    requires timeStep != 0
  {
    exists k :: CounterInWindow(timeStep, tolerance, now, k) && Code(p, secret, k) == code
  }

  predicate CounterInWindow(timeStep: int, tolerance: int, now: int, k: int)
    requires timeStep != 0
  {
    -tolerance <= k - GoDiv(now, timeStep) <= tolerance
  }

  /** The search over the steps around the current one. */
  method ValidateTotp(p: Primitives, secret: seq<byte>, timeStep: int, tolerance: int, now: int, received: u32)
    returns (ok: bool)
    requires timeStep != 0
    ensures ok <==> InWindow(p, secret, timeStep, tolerance, now, received)
  {
    var currentStep := GoDiv(now, timeStep);
    var i := -tolerance;
    while i <= tolerance
      invariant forall k :: currentStep - tolerance <= k < currentStep + i && k <= currentStep + tolerance
                  ==> Code(p, secret, k) != received
      decreases tolerance - i
    {
      var step := currentStep + i;
      CounterOfStepStart(step, timeStep);
      if CodeAt(p, secret, timeStep, step * timeStep) == received {
        assert CounterInWindow(timeStep, tolerance, now, step);
        return true;
      }
      i := i + 1;
    }
    return false;
  }

  /** The loop passes step * timeStep, whose counter is the step itself for either sign. */
  lemma CounterOfStepStart(step: int, timeStep: int)
    requires timeStep != 0
    ensures GoDiv(step * timeStep, timeStep) == step
  {
    if step * timeStep >= 0 {
      ExactQuotient(step, timeStep);
    } else {
      assert -(step * timeStep) == (-step) * timeStep;
      ExactQuotient(-step, timeStep);
    }
  }

  // ---------------------------------------------------------------- windows of time

  datatype Window = Window(start: int, end: int)

  function TimeWindow(timeStep: int, timestamp: int): Window
    requires timeStep != 0
  {
    var start := GoDiv(timestamp, timeStep) * timeStep;
    Window(start, start + timeStep)
  }

  /** The reported interval contains the timestamp unless the timestamp is negative and between two steps. */
  lemma WindowContains(timeStep: int, t: int)
    requires timeStep > 0
    ensures var w := TimeWindow(timeStep, t);
            w.start <= t < w.end <==> t >= 0 || t % timeStep == 0
  {
    if t >= 0 {
      FloorBounds(t, timeStep);
    } else {
      FloorBounds(-t, timeStep);
      var q := -t / timeStep;
      assert -(q * timeStep) == (-q) * timeStep;
      if t == (-q) * timeStep {
        MultipleHasNoRemainder(-q, timeStep);
      }
      if t % timeStep == 0 {
        var k := t / timeStep;
        assert t == timeStep * k;
        assert -t == (-k) * timeStep;
        ExactQuotient(-k, timeStep);
      }
    }
  }

  /** One code serves exactly one interval: for a non-negative time, the times with its counter are the interval. */
  lemma CodeConstantOnWindow(p: Primitives, secret: seq<byte>, timeStep: int, t: Clock, u: Clock)
    requires timeStep > 0
    ensures var w := TimeWindow(timeStep, t);
            && (w.start <= u < w.end <==> GoDiv(u, timeStep) == GoDiv(t, timeStep))
            && (w.start <= u < w.end ==> CodeAt(p, secret, timeStep, u) == CodeAt(p, secret, timeStep, t))
  {
    FloorBounds(u, timeStep);
    if TimeWindow(timeStep, t).start <= u < TimeWindow(timeStep, t).end {
      FloorUnique(u, timeStep, t / timeStep);
    }
  }

  /** A skew of up to tolerance * timeStep between the two clocks is always covered. */
  lemma SkewCovered(p: Primitives, secret: seq<byte>, timeStep: int, tolerance: nat, client: Clock, server: Clock)
    requires timeStep > 0
    requires -(tolerance * timeStep) <= client - server <= tolerance * timeStep
    ensures InWindow(p, secret, timeStep, tolerance, server, CodeAt(p, secret, timeStep, client))
  {
    var c, s := client / timeStep, server / timeStep;
    FloorBounds(client, timeStep);
    FloorBounds(server, timeStep);
    assert (c - s - tolerance) * timeStep == c * timeStep - s * timeStep - tolerance * timeStep;
    assert (s - c - tolerance) * timeStep == s * timeStep - c * timeStep - tolerance * timeStep;
    if c > s + tolerance {
      MulAtLeast(c - s - tolerance, timeStep);
    } else if s > c + tolerance {
      MulAtLeast(s - c - tolerance, timeStep);
    }
    assert CounterInWindow(timeStep, tolerance, server, c);
  }

  /** Two clocks that both have one counter in their window are less than a whole window apart. */
  lemma WindowWidth(timeStep: int, tolerance: nat, a: Clock, b: Clock, k: int)
    requires timeStep > 0
    requires CounterInWindow(timeStep, tolerance, a, k) && CounterInWindow(timeStep, tolerance, b, k)
    ensures b - a < (2 * tolerance + 1) * timeStep
  {
    FloorBounds(a, timeStep);
    FloorBounds(b, timeStep);
    var qa, qb := a / timeStep, b / timeStep;
    assert qb - qa <= 2 * tolerance;
    assert (2 * tolerance - (qb - qa)) * timeStep >= 0;
    assert b < qb * timeStep + timeStep && qa * timeStep <= a;
    assert (qb - qa) * timeStep == qb * timeStep - qa * timeStep;
    assert (2 * tolerance + 1) * timeStep == 2 * tolerance * timeStep + timeStep;
    assert (2 * tolerance - (qb - qa)) * timeStep == 2 * tolerance * timeStep - (qb - qa) * timeStep;
  }

  /** The width is attained, so no smaller bound on the distance of two such clocks holds. */
  lemma WindowWidthAttained(timeStep: int, tolerance: nat, k: nat)
    requires timeStep > 0 && k >= tolerance
    ensures var a, b := (k - tolerance) * timeStep, (k + tolerance + 1) * timeStep - 1;
            && CounterInWindow(timeStep, tolerance, a, k) && CounterInWindow(timeStep, tolerance, b, k)
            && b - a == (2 * tolerance + 1) * timeStep - 1
  {
    var lo, hi := k - tolerance, k + tolerance;
    assert lo * timeStep >= 0 && hi * timeStep >= 0;
    ExactQuotient(lo, timeStep);
    Distribute(hi, 1, timeStep);
    FloorUnique((hi + 1) * timeStep - 1, timeStep, hi);
    Distribute(lo, 2 * tolerance + 1, timeStep);
  }

  /** A counter in a clock's window starts within tolerance + 1 steps of that clock. */
  lemma CounterNearClock(timeStep: int, tolerance: nat, now: Clock, k: int)
    requires timeStep > 0 && CounterInWindow(timeStep, tolerance, now, k)
    ensures -(tolerance + 1) * timeStep <= k * timeStep - now <= tolerance * timeStep
  {
    FloorBounds(now, timeStep);
    var q := now / timeStep;
    assert (k - q + tolerance) * timeStep >= 0;
    assert (q + tolerance - k) * timeStep >= 0;
    assert (k - q + tolerance) * timeStep == k * timeStep - q * timeStep + tolerance * timeStep;
    assert (q + tolerance - k) * timeStep == q * timeStep + tolerance * timeStep - k * timeStep;
    assert (tolerance + 1) * timeStep == tolerance * timeStep + timeStep;
  }
}
