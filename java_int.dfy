/** Java's fixed-width integer semantics, as the two capture programs use them.
    A Java `byte` is modelled by its bit pattern `bv8` (so `b & 0xFF` is `b as int`);
    the bit-level expressions the programs write with `&`, `|` and `<<` on `int`
    values are written on `bv32`; arithmetic on `int` and `long` is written on
    Dafny's unbounded `int` and reduced explicitly with `Wrap32`/`Wrap64`. */
module JavaInt {

  const TWO_32: int := 0x1_0000_0000
  const TWO_64: int := 0x1_0000_0000_0000_0000

  /** The range of a Java `int`. */
  predicate InIntRange(x: int) {
    -0x8000_0000 <= x < 0x8000_0000
  }

  /** The range of a Java `long`. */
  predicate InLongRange(x: int) {
    -0x8000_0000_0000_0000 <= x < 0x8000_0000_0000_0000
  }

  /** The value of a Java `byte` with bit pattern `b` (bytes are signed in Java). */
  function SignedByte(b: bv8): (r: int)
    ensures -128 <= r < 128
    ensures r < 0 <==> b >= 0x80
    ensures (r - b as int) % 256 == 0
  {
    if b < 0x80 then b as int else b as int - 256
  }

  /** Widening of a Java `byte` to `int`: the sign bit is copied into bits 8..31. */
  function SignExtend(b: bv8): (v: bv32)
    ensures Int32(v) == SignedByte(b)
  {
    var v := if b < 0x80 then b as bv32 else (b as bv32) | 0xFFFF_FF00;
    BvBounds(v);
    assert v as int == if b < 0x80 then b as int else b as int + 0xFFFF_FF00;
    v
  }

  /** The Java `int` whose two's-complement bit pattern is `v`. */
  function Int32(v: bv32): (r: int)
    ensures InIntRange(r)
    ensures r < 0 <==> v >= 0x8000_0000
    ensures (r - v as int) % TWO_32 == 0
  {
    BvBounds(v);
    if v < 0x8000_0000 then v as int else v as int - TWO_32
  }

  lemma BvBounds(v: bv32)
    ensures 0 <= v as int < TWO_32
    ensures v < 0x8000_0000 <==> v as int < 0x8000_0000
  {
  }

  /** What a Java `int` operation yields whose exact result is `x`: `x` reduced
      modulo 2^32 into the `int` range. */
  function Wrap32(x: int): (r: int)
    ensures InIntRange(r)
    ensures (x - r) % TWO_32 == 0
    ensures InIntRange(x) ==> r == x
  {
    (x + 0x8000_0000) % TWO_32 - 0x8000_0000
  }

  /** What a Java `long` operation yields whose exact result is `x`. */
  function Wrap64(x: int): (r: int)
    ensures InLongRange(r)
    ensures (x - r) % TWO_64 == 0
    ensures InLongRange(x) ==> r == x
  {
    (x + 0x8000_0000_0000_0000) % TWO_64 - 0x8000_0000_0000_0000
  }

  /** Java's `/` on `int` for a positive divisor: it truncates toward zero,
      where Dafny's `/` is Euclidean. */
  function JavaDiv(a: int, d: int): (q: int)
    requires d > 0
    ensures a >= 0 ==> q == a / d
    ensures a < 0 ==> q <= 0 && q * d >= a && (q - 1) * d < a
  {
    if a >= 0 then a / d else -((-a) / d)
  }

  /** The number of iterations of `for (int i = 0; i < n; i += stride)`:
      the count of multiples of `stride` below `n` (n/stride rounded up). */
  function Iterations(n: int, stride: nat): (k: nat)
    requires stride > 0
    ensures forall j: nat :: j * stride < n <==> j < k
  {
    if n <= 0 then 0
    else
      var k := (n + stride - 1) / stride;
      assert n <= k * stride < n + stride;
      forall j: nat ensures j * stride < n <==> j < k {
        if j < k { MulLeq(j, k - 1, stride); } else { MulLeq(k, j, stride); }
      }
      k
  }

  lemma MulLeq(a: nat, b: nat, c: nat)
    requires a <= b
    ensures a * c <= b * c
  {
  }

  lemma ModMultiple(x: int, q: int)
    ensures (x + q * TWO_32) % TWO_32 == x % TWO_32
  {
  }

  /** Two numbers that agree modulo 2^32 wrap to the same Java `int`. */
  lemma Wrap32Congruent(x: int, y: int)
    requires (x - y) % TWO_32 == 0
    ensures Wrap32(x) == Wrap32(y)
  {
    var q := (x - y) / TWO_32;
    assert x == y + q * TWO_32;
    ModMultiple(y + 0x8000_0000, q);
  }

  /** Reducing an operand first does not change a wrapped sum: Java's `s += t`
      on `int` accumulates the exact sum modulo 2^32. */
  lemma Wrap32Add(a: int, b: int)
    ensures Wrap32(Wrap32(a) + Wrap32(b)) == Wrap32(a + b)
  {
    var qa := (a - Wrap32(a)) / TWO_32;
    var qb := (b - Wrap32(b)) / TWO_32;
    assert a == Wrap32(a) + qa * TWO_32;
    assert b == Wrap32(b) + qb * TWO_32;
    assert (a + b) - (Wrap32(a) + Wrap32(b)) == (qa + qb) * TWO_32;
    Wrap32Congruent(a + b, Wrap32(a) + Wrap32(b));
  }
}
