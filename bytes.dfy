/**
 * Bytes and Java integers, and the fixed-width integer byte layouts shared by
 * the cursor (Packet), the block store's header buffer and the envelope codec.
 *
 * A Java `byte` is kept as its unsigned value `b & 0xff`; a Java `int` is an
 * `int32`. Java's `>>` on a non-negative shift count is floor division by a
 * power of two, which is exactly Dafny's `/` by a positive constant, so the
 * byte `(byte) (v >> 8*k)` is `(v / 256^k) % 256` for every `v`, negative
 * ones included.
 */
module Bytes {

  /** The unsigned value of a Java byte, `b & 0xff`. */
  type byte = b: int | 0 <= b < 256

  /** A Java `int`. */
  type int32 = x: int | -0x8000_0000 <= x < 0x8000_0000

  /** A Java `long`. */
  type int64 = x: int | -0x8000_0000_0000_0000 <= x < 0x8000_0000_0000_0000

  /** A Java `char`: one UTF-16 code unit. */
  type char16 = c: int | 0 <= c < 0x1_0000

  function Pow256(n: nat): (r: nat)
    ensures r > 0
  {
    if n == 0 then 1 else 256 * Pow256(n - 1)
  }

  /** Java's `(byte) v`, read back unsigned. */
  function Low8(v: int): byte
  {
    v % 256
  }

  /** The `n` low-order bytes of `v`, most significant first. */
  function BigEndian(v: int, n: nat): (r: seq<byte>)
    ensures |r| == n
    decreases n
  {
    if n == 0 then [] else BigEndian(v / 256, n - 1) + [Low8(v)]
  }

  /** The `n` low-order bytes of `v`, least significant first. */
  function LittleEndian(v: int, n: nat): (r: seq<byte>)
    ensures |r| == n
    decreases n
  {
    if n == 0 then [] else [Low8(v)] + LittleEndian(v / 256, n - 1)
  }

  /** The unsigned value of a big-endian byte string. */
  function Unsigned(bs: seq<byte>): nat
  {
    if bs == [] then 0 else Unsigned(bs[..|bs| - 1]) * 256 + bs[|bs| - 1]
  }

  /** The unsigned value of a little-endian byte string. */
  function UnsignedLE(bs: seq<byte>): nat
  {
    if bs == [] then 0 else bs[0] + 256 * UnsignedLE(bs[1..])
  }

  /** Reading 32 bits as a Java `int` (two's complement). */
  function Signed32(u: int): int32
    requires 0 <= u < 0x1_0000_0000
  {
    if u < 0x8000_0000 then u else u - 0x1_0000_0000
  }

  /** Java's `int` arithmetic wrap-around. */
  function Wrap32(x: int): (r: int32)
    ensures (r - x) % 0x1_0000_0000 == 0
  {
    Signed32(x % 0x1_0000_0000)
  }

  /** Java's `int` addition: the sum, wrapped once if it leaves the `int` range. */
  function WrapAdd(a: int32, b: int32): (r: int32)
    ensures -0x8000_0000 <= a + b < 0x8000_0000 ==> r == a + b
  {
    var x := a + b;
    if x >= 0x8000_0000 then x - 0x1_0000_0000
    else if x < -0x8000_0000 then x + 0x1_0000_0000
    else x
  }

  /** `WrapAdd` is addition modulo 2^32, as `Wrap32` states it. */
  lemma WrapAddWraps(a: int32, b: int32)
    ensures WrapAdd(a, b) == Wrap32(a + b)
  {
  }

  /** A big-endian Java `int` from four bytes, `(b0 & 0xff) << 24 | ... | (b3 & 0xff)`. */
  function Int32(bs: seq<byte>): int32
    requires |bs| == 4
  {
    var u := bs[0] as int * 0x100_0000 + bs[1] as int * 0x1_0000 + bs[2] as int * 0x100 + bs[3] as int;
    if u < 0x8000_0000 then u else u - 0x1_0000_0000
  }

  /** Reading the four big-endian bytes of an `int` gives it back. */
  lemma Int32OfBigEndian(v: int32)
    ensures Int32(BigEndian(v, 4)) == v
  {
    Int32RoundTrip(v);
    Int32Unsigned(BigEndian(v, 4));
  }

  /** `Int32` is the two's complement reading of the bytes' unsigned value. */
  lemma Int32Unsigned(bs: seq<byte>)
    requires |bs| == 4
    ensures Unsigned(bs) < 0x1_0000_0000 && Int32(bs) == Signed32(Unsigned(bs))
  {
    var b3 := bs[..3];
    var b2 := b3[..2];
    var b1 := b2[..1];
    assert b1[..0] == [];
    assert Unsigned(b1) == bs[0];
    assert Unsigned(b2) == bs[0] as int * 0x100 + bs[1] as int;
    assert Unsigned(b3) == bs[0] as int * 0x1_0000 + bs[1] as int * 0x100 + bs[2] as int;
  }

  function Reverse<T>(s: seq<T>): (r: seq<T>)
    ensures |r| == |s|
  {
    if s == [] then [] else Reverse(s[1..]) + [s[0]]
  }

  lemma {:induction false} UnsignedBound(bs: seq<byte>)
    ensures Unsigned(bs) < Pow256(|bs|)
  {
    if bs != [] {
      UnsignedBound(bs[..|bs| - 1]);
    }
  }

  lemma {:induction false} UnsignedAppend(bs: seq<byte>, b: byte)
    ensures Unsigned(bs + [b]) == Unsigned(bs) * 256 + b
  {
    assert (bs + [b])[..|bs|] == bs;
  }

  lemma UnsignedOne(a: byte)
    ensures Unsigned([a]) == a
  {
    assert [a] == [] + [a];
    UnsignedAppend([], a);
  }

  /** Fixed-width big-endian reads, as the `g2`, `g3`, `g4` helpers compute them. */
  lemma UnsignedSmall(s: seq<byte>)
    ensures |s| == 2 ==> Unsigned(s) == s[0] as int * 0x100 + s[1] as int
    ensures |s| == 3 ==> Unsigned(s) == s[0] as int * 0x1_0000 + s[1] as int * 0x100 + s[2] as int
    ensures |s| == 4 ==> Unsigned(s) == s[0] as int * 0x100_0000 + s[1] as int * 0x1_0000 + s[2] as int * 0x100 + s[3] as int
  {
    if 2 <= |s| <= 4 {
      var init := s[..|s| - 1];
      UnsignedAppend(init, s[|s| - 1]);
      assert s == init + [s[|s| - 1]];
      UnsignedOne(s[0]);
      if |s| >= 3 {
        assert init[..|init| - 1] + [init[|init| - 1]] == init;
        UnsignedAppend(init[..|init| - 1], init[|init| - 1]);
        if |s| == 4 {
          var i2 := init[..|init| - 1];
          assert i2[..|i2| - 1] + [i2[|i2| - 1]] == i2;
          UnsignedAppend(i2[..|i2| - 1], i2[|i2| - 1]);
          assert i2[..|i2| - 1] == [s[0]];
        } else {
          assert init[..|init| - 1] == [s[0]];
        }
      } else {
        assert init == [s[0]];
      }
    }
  }

  /** Fixed-width little-endian reads, as `ig2`, `ig3`, `ig4` compute them. */
  lemma UnsignedLESmall(s: seq<byte>)
    ensures |s| == 2 ==> UnsignedLE(s) == s[0] as int + s[1] as int * 0x100
    ensures |s| == 3 ==> UnsignedLE(s) == s[0] as int + s[1] as int * 0x100 + s[2] as int * 0x1_0000
    ensures |s| == 4 ==> UnsignedLE(s) == s[0] as int + s[1] as int * 0x100 + s[2] as int * 0x1_0000 + s[3] as int * 0x100_0000
  {
    if |s| >= 2 {
      assert s[1..][1..] == s[2..];
      if |s| >= 3 {
        assert s[2..][1..] == s[3..];
        if |s| == 4 {
          assert s[3..][1..] == s[4..];
        }
      }
    }
  }

  /** Decoding the `n` big-endian bytes of a value below 256^n gives it back. */
  lemma {:induction false} UnsignedBigEndian(v: int, n: nat)
    requires 0 <= v < Pow256(n)
    ensures Unsigned(BigEndian(v, n)) == v
    decreases n
  {
    if n > 0 {
      UnsignedBigEndian(v / 256, n - 1);
      UnsignedAppend(BigEndian(v / 256, n - 1), Low8(v));
    }
  }

  /** Encoding the decoded value of a byte string gives the string back. */
  lemma {:induction false} BigEndianUnsigned(bs: seq<byte>)
    ensures BigEndian(Unsigned(bs), |bs|) == bs
  {
    if bs != [] {
      var init := bs[..|bs| - 1];
      BigEndianUnsigned(init);
      assert Unsigned(bs) / 256 == Unsigned(init);
      assert bs == init + [bs[|bs| - 1]];
    }
  }

  /** Adding 256^n does not change the `n` low-order bytes. */
  lemma {:induction false} BigEndianPeriodic(v: int, n: nat)
    ensures BigEndian(v + Pow256(n), n) == BigEndian(v, n)
    decreases n
  {
    if n > 0 {
      assert (v + Pow256(n)) / 256 == v / 256 + Pow256(n - 1);
      BigEndianPeriodic(v / 256, n - 1);
    }
  }

  lemma Pow256Four()
    ensures Pow256(4) == 0x1_0000_0000
  {
  }

  /** Reading four bytes back as a Java `int` gives every `int` back. */
  lemma Int32RoundTrip(v: int32)
    ensures Unsigned(BigEndian(v, 4)) < 0x1_0000_0000
    ensures Signed32(Unsigned(BigEndian(v, 4))) == v
  {
    Pow256Four();
    if v >= 0 {
      UnsignedBigEndian(v, 4);
    } else {
      BigEndianPeriodic(v, 4);
      UnsignedBigEndian(v + 0x1_0000_0000, 4);
    }
  }

  /** Writing back the `int` read from four bytes reproduces them. */
  lemma Int32Bytes(bs: seq<byte>)
    requires |bs| == 4
    ensures BigEndian(Int32(bs), 4) == bs
  {
    Pow256Four();
    Int32Unsigned(bs);
    BigEndianUnsigned(bs);
    if Unsigned(bs) >= 0x8000_0000 {
      BigEndianPeriodic(Int32(bs), 4);
    }
  }

  lemma ReverseAppend<T>(s: seq<T>, t: seq<T>)
    ensures Reverse(s + t) == Reverse(t) + Reverse(s)
  {
    if s == [] {
      assert s + t == t;
    } else {
      assert (s + t)[1..] == s[1..] + t;
    }
  }

  /** Little-endian is big-endian backwards. */
  lemma {:induction false} LittleIsReversedBig(v: int, n: nat)
    ensures LittleEndian(v, n) == Reverse(BigEndian(v, n))
    decreases n
  {
    if n > 0 {
      LittleIsReversedBig(v / 256, n - 1);
      ReverseAppend(BigEndian(v / 256, n - 1), [Low8(v)]);
    }
  }

  lemma {:induction false} UnsignedLELittleEndian(v: int, n: nat)
    requires 0 <= v < Pow256(n)
    ensures UnsignedLE(LittleEndian(v, n)) == v
    decreases n
  {
    if n > 0 {
      UnsignedLELittleEndian(v / 256, n - 1);
    }
  }

  /** Reading four little-endian bytes back as a Java `int` gives every `int` back. */
  lemma Int32RoundTripLE(v: int32)
    ensures UnsignedLE(LittleEndian(v, 4)) < 0x1_0000_0000
    ensures Signed32(UnsignedLE(LittleEndian(v, 4))) == v
  {
    Pow256Four();
    if v >= 0 {
      UnsignedLELittleEndian(v, 4);
    } else {
      LittleIsReversedBig(v, 4);
      LittleIsReversedBig(v + 0x1_0000_0000, 4);
      BigEndianPeriodic(v, 4);
      UnsignedLELittleEndian(v + 0x1_0000_0000, 4);
    }
  }
}
