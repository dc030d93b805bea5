/**
 Byte strings as the key-value store sees them: row and column names are compared as
 unsigned bytes, lexicographically, with a proper prefix sorting first. Java `int` row
 and column numbers become names through Guava's `Ints.toByteArray`, a 4-byte
 big-endian two's-complement encoding.
 */
module Bytes {
  import opened Ordering

  /** An unsigned byte. Java's `byte` is signed, but names are compared unsigned. */
  type Byte = b: int | 0 <= b < 256
  type Bytes = seq<Byte>

  /** A Java `int`. */
  type Int32 = n: int | -0x8000_0000 <= n < 0x8000_0000

  // ---------------------------------------------------------------------------
  // Unsigned lexicographic order
  // ---------------------------------------------------------------------------

  predicate LexLess(a: Bytes, b: Bytes) {
    if a == [] then b != []
    else if b == [] then false
    else a[0] < b[0] || (a[0] == b[0] && LexLess(a[1..], b[1..]))
  }

  predicate LexLessEq(a: Bytes, b: Bytes) {
    a == b || LexLess(a, b)
  }

  lemma {:induction false} LexLessIrreflexive(a: Bytes)
    ensures !LexLess(a, a)
  {
    if a != [] {
      LexLessIrreflexive(a[1..]);
    }
  }

  lemma {:induction false} LexLessTransitive(a: Bytes, b: Bytes, c: Bytes)
    requires LexLess(a, b) && LexLess(b, c)
    ensures LexLess(a, c)
  {
    if a != [] && a[0] == b[0] && b[0] == c[0] {
      LexLessTransitive(a[1..], b[1..], c[1..]);
    }
  }

  lemma {:induction false} LexLessConnected(a: Bytes, b: Bytes)
    requires a != b
    ensures LexLess(a, b) || LexLess(b, a)
  {
    if a != [] && b != [] && a[0] == b[0] {
      assert a == [a[0]] + a[1..] && b == [b[0]] + b[1..];
      LexLessConnected(a[1..], b[1..]);
    }
  }

  /** Unsigned lexicographic order is a strict total order on byte strings. */
  lemma LexLessIsStrictTotalOrder()
    ensures StrictTotalOrder(LexLess)
  {
    forall a: Bytes
      ensures !LexLess(a, a)
    {
      LexLessIrreflexive(a);
    }
    forall a: Bytes, b: Bytes, c: Bytes | LexLess(a, b) && LexLess(b, c)
      ensures LexLess(a, c)
    {
      LexLessTransitive(a, b, c);
    }
    forall a: Bytes, b: Bytes | a != b
      ensures LexLess(a, b) || LexLess(b, a)
    {
      LexLessConnected(a, b);
    }
  }

  lemma LexLessAsymmetric(a: Bytes, b: Bytes)
    requires LexLess(a, b)
    ensures !LexLess(b, a)
  {
    if LexLess(b, a) {
      LexLessTransitive(a, b, a);
      LexLessIrreflexive(a);
    }
  }

  /** `a` is at most `b` exactly when `b` is not below `a`. */
  lemma LexLessEqIsNotGreater(a: Bytes, b: Bytes)
    ensures LexLessEq(a, b) <==> !LexLess(b, a)
  {
    if a == b {
      LexLessIrreflexive(a);
    } else if LexLess(a, b) {
      LexLessAsymmetric(a, b);
    } else {
      LexLessConnected(a, b);
    }
  }

  lemma LexLessEqTransitive(a: Bytes, b: Bytes, c: Bytes)
    requires LexLessEq(a, b) && LexLessEq(b, c)
    ensures LexLessEq(a, c)
  {
    if a != b && b != c {
      LexLessTransitive(a, b, c);
    }
  }

  // ---------------------------------------------------------------------------
  // Big-endian encoding of naturals
  // ---------------------------------------------------------------------------

  function Pow256(n: nat): (p: nat)
    ensures p > 0
  {
    if n == 0 then 1 else 256 * Pow256(n - 1)
  }

  /** The `width` bytes of `u`, most significant first. */
  function BigEndian(u: nat, width: nat): (r: Bytes)
    requires u < Pow256(width)
    ensures |r| == width
  {
    if width == 0 then []
    else BigEndian(u / 256, width - 1) + [u % 256]
  }

  /** The natural whose big-endian bytes are `b`. */
  function FromBigEndian(b: Bytes): (u: nat)
    ensures u < Pow256(|b|)
  {
    if b == [] then 0
    else FromBigEndian(b[..|b| - 1]) * 256 + b[|b| - 1]
  }

  /** Decoding undoes encoding. */
  lemma {:induction false} BigEndianRoundTrip(u: nat, width: nat)
    requires u < Pow256(width)
    ensures FromBigEndian(BigEndian(u, width)) == u
  {
    if width > 0 {
      var r := BigEndian(u, width);
      assert r[..|r| - 1] == BigEndian(u / 256, width - 1);
      BigEndianRoundTrip(u / 256, width - 1);
    }
  }

  /** Extending two equally long byte strings keeps their order. */
  lemma {:induction false} LexLessExtend(a: Bytes, b: Bytes, x: Bytes, y: Bytes)
    requires |a| == |b| && LexLess(a, b)
    ensures LexLess(a + x, b + y)
  {
    assert (a + x)[0] == a[0] && (b + y)[0] == b[0];
    if a[0] == b[0] {
      assert (a + x)[1..] == a[1..] + x;
      assert (b + y)[1..] == b[1..] + y;
      LexLessExtend(a[1..], b[1..], x, y);
    }
  }

  /** A common prefix followed by smaller byte sorts first. */
  lemma {:induction false} LexLessLastByte(a: Bytes, x: Byte, y: Byte)
    requires x < y
    ensures LexLess(a + [x], a + [y])
  {
    if a == [] {
      assert a + [x] == [x] && a + [y] == [y];
    } else {
      assert (a + [x])[1..] == a[1..] + [x];
      assert (a + [y])[1..] == a[1..] + [y];
      LexLessLastByte(a[1..], x, y);
    }
  }

  /** Big-endian encoding of a fixed width turns numeric order into byte order. */
  lemma {:induction false} BigEndianOrdered(u: nat, v: nat, width: nat)
    requires u < v < Pow256(width)
    ensures LexLess(BigEndian(u, width), BigEndian(v, width))
  {
    if u / 256 < v / 256 {
      BigEndianOrdered(u / 256, v / 256, width - 1);
      LexLessExtend(BigEndian(u / 256, width - 1), BigEndian(v / 256, width - 1), [u % 256], [v % 256]);
    } else {
      LexLessLastByte(BigEndian(u / 256, width - 1), u % 256, v % 256);
    }
  }

  // ---------------------------------------------------------------------------
  // Java ints as names (Guava's Ints.toByteArray / Ints.fromByteArray)
  // ---------------------------------------------------------------------------

  const Int32Range: nat := 0x1_0000_0000

  lemma Pow256Four()
    ensures Pow256(4) == Int32Range
  {
    assert Pow256(2) == 0x1_0000;
  }

  /** The four big-endian bytes of `n`'s two's-complement representation. */
  function IntToBytes(n: Int32): (r: Bytes)
    ensures |r| == 4
  {
    Pow256Four();
    BigEndian(n % Int32Range, 4)
  }

  /** The `int` whose two's-complement big-endian bytes open `b`. */
  function IntFromBytes(b: Bytes): (n: Int32)
    requires |b| >= 4
  {
    Pow256Four();
    var u := FromBigEndian(b[..4]);
    if u < 0x8000_0000 then u else u - Int32Range
  }

  /** Every `int` survives encoding and decoding, so distinct ints give distinct names. */
  lemma IntBytesRoundTrip(n: Int32)
    ensures IntFromBytes(IntToBytes(n)) == n
  {
    Pow256Four();
    BigEndianRoundTrip(n % Int32Range, 4);
    assert IntToBytes(n)[..4] == IntToBytes(n);
  }

  /** A non-negative int is encoded as itself. */
  lemma NonNegativeIntBytes(n: Int32)
    requires 0 <= n
    ensures Pow256(4) == Int32Range && IntToBytes(n) == BigEndian(n, 4)
  {
    Pow256Four();
  }

  /** Among non-negative ints, byte order of the encodings is numeric order. */
  lemma IntToBytesOrdered(m: Int32, n: Int32)
    requires 0 <= m && 0 <= n
    ensures LexLess(IntToBytes(m), IntToBytes(n)) <==> m < n
  {
    NonNegativeIntBytes(m);
    NonNegativeIntBytes(n);
    if m < n {
      BigEndianOrdered(m, n, 4);
    } else if n < m {
      BigEndianOrdered(n, m, 4);
      LexLessAsymmetric(IntToBytes(n), IntToBytes(m));
    } else {
      LexLessIrreflexive(IntToBytes(m));
    }
  }

  /** Among non-negative ints, a name is at or after another's exactly when its number is. */
  lemma IntToBytesAtLeast(m: Int32, n: Int32)
    requires 0 <= m && 0 <= n
    ensures LexLessEq(IntToBytes(m), IntToBytes(n)) <==> m <= n
  {
    IntToBytesOrdered(m, n);
    IntToBytesOrdered(n, m);
    LexLessEqIsNotGreater(IntToBytes(m), IntToBytes(n));
  }

  /**
   A negative int encodes with its top bit set, so its name sorts after the name of
   every non-negative int.
   */
  lemma NegativeIntsSortLast(m: Int32, n: Int32)
    requires m < 0 <= n
    ensures LexLess(IntToBytes(n), IntToBytes(m))
  {
    NonNegativeIntBytes(n);
    assert IntToBytes(m) == BigEndian(m % Int32Range, 4);
    BigEndianOrdered(n, m % Int32Range, 4);
  }
}
