/**
 * The byte cursor: a `ByteBuffer` (backing array, position, limit equal to
 * the capacity) with fixed-width big- and little-endian put/get, array and
 * string copies and the two variable-width "smart" integers.
 *
 * Every relative `put`/`get` of a `ByteBuffer` advances the position by one
 * and throws (BufferOverflowException / BufferUnderflowException) at the
 * limit without touching anything; a multi-byte put that runs out of room
 * has therefore already written the bytes that fitted. The methods return
 * `ok == false` where Java throws, in exactly that partial state.
 */
module Packet {
  import opened Bytes
  import opened Wrappers

  function Min(a: int, b: int): int
  {
    if a < b then a else b
  }

  /**
   * The array `s` after writing `bs` from index `at` one byte at a time,
   * stopping at the end of `s`.
   */
  function Overwrite(s: seq<byte>, at: nat, bs: seq<byte>): (r: seq<byte>)
    ensures |r| == |s|
    ensures forall i :: 0 <= i < |s| ==> r[i] == if at <= i < at + |bs| then bs[i - at] else s[i]
  {
    if bs == [] then s
    else
      var prefix := Overwrite(s, at, bs[..|bs| - 1]);
      if at + |bs| - 1 < |s| then prefix[at + |bs| - 1 := bs[|bs| - 1]] else prefix
  }

  lemma OverwriteSnoc(s: seq<byte>, at: nat, bs: seq<byte>, b: byte)
    ensures Overwrite(s, at, bs + [b])
         == if at + |bs| < |s| then Overwrite(s, at, bs)[at + |bs| := b] else Overwrite(s, at, bs)
  {
    assert (bs + [b])[..|bs|] == bs;
  }

  /** Bytes that would land past the end change nothing. */
  lemma OverwriteBeyond(s: seq<byte>, at: nat, bs: seq<byte>, more: seq<byte>)
    requires at + |bs| >= |s|
    ensures Overwrite(s, at, bs + more) == Overwrite(s, at, bs)
  {
    var a, b := Overwrite(s, at, bs + more), Overwrite(s, at, bs);
    forall i | 0 <= i < |s|
      ensures a[i] == b[i]
    {
      if at <= i < at + |bs| {
        assert (bs + more)[i - at] == bs[i - at];
      }
    }
  }

  lemma OverwriteFits(s: seq<byte>, at: nat, bs: seq<byte>)
    requires at + |bs| <= |s|
    ensures Overwrite(s, at, bs) == s[..at] + bs + s[at + |bs|..]
  {
  }

  /** The bytes of `p2`, `p3`, `p4` and `p5`, one `(byte) (v >> k)` each. */
  lemma BigEndian2(v: int)
    ensures BigEndian(v, 1) == [Low8(v)]
    ensures BigEndian(v, 2) == [Low8(v / 0x100), Low8(v)]
  {
  }

  lemma BigEndian3(v: int)
    ensures BigEndian(v, 3) == [Low8(v / 0x1_0000), Low8(v / 0x100), Low8(v)]
  {
    assert v / 0x100 / 0x100 == v / 0x1_0000;
  }

  lemma BigEndian4(v: int)
    ensures BigEndian(v, 4) == [Low8(v / 0x100_0000), Low8(v / 0x1_0000), Low8(v / 0x100), Low8(v)]
  {
    BigEndian3(v / 0x100);
    assert v / 0x100 / 0x100 == v / 0x1_0000;
    assert v / 0x100 / 0x1_0000 == v / 0x100_0000;
  }

  lemma BigEndian5(v: int)
    ensures BigEndian(v, 5)
         == [Low8(v / 0x1_0000_0000), Low8(v / 0x100_0000), Low8(v / 0x1_0000), Low8(v / 0x100), Low8(v)]
  {
    BigEndian4(v / 0x100);
    assert v / 0x100 / 0x100 == v / 0x1_0000;
    assert v / 0x100 / 0x1_0000 == v / 0x100_0000;
    assert v / 0x100 / 0x100_0000 == v / 0x1_0000_0000;
  }

  /** The bytes of `ip2` … `ip5`: those of `p2` … `p5` in reverse order. */
  lemma LittleEndian2(v: int)
    ensures LittleEndian(v, 2) == [Low8(v), Low8(v / 0x100)]
  {
  }

  lemma LittleEndian3(v: int)
    ensures LittleEndian(v, 3) == [Low8(v), Low8(v / 0x100), Low8(v / 0x1_0000)]
  {
    LittleEndian2(v / 0x100);
    assert v / 0x100 / 0x100 == v / 0x1_0000;
  }

  lemma LittleEndian4(v: int)
    ensures LittleEndian(v, 4) == [Low8(v), Low8(v / 0x100), Low8(v / 0x1_0000), Low8(v / 0x100_0000)]
  {
    LittleEndian3(v / 0x100);
    assert v / 0x100 / 0x100 == v / 0x1_0000;
    assert v / 0x100 / 0x1_0000 == v / 0x100_0000;
  }

  lemma LittleEndian5(v: int)
    ensures LittleEndian(v, 5)
         == [Low8(v), Low8(v / 0x100), Low8(v / 0x1_0000), Low8(v / 0x100_0000), Low8(v / 0x1_0000_0000)]
  {
    LittleEndian4(v / 0x100);
    assert v / 0x100 / 0x100 == v / 0x1_0000;
    assert v / 0x100 / 0x1_0000 == v / 0x100_0000;
    assert v / 0x100 / 0x100_0000 == v / 0x1_0000_0000;
  }

  /** `(byte) ch` for every character of a string: its low 8 bits. */
  function Latin1(value: seq<char16>): (r: seq<byte>)
    ensures |r| == |value|
    ensures forall i :: 0 <= i < |value| ==> r[i] == value[i] % 256
  {
    seq(|value|, i requires 0 <= i < |value| => Low8(value[i]))
  }

  // ---------------------------------------------------------------------
  // The two smart encodings, as byte strings and as readers.
  // ---------------------------------------------------------------------

  /** What `pSmart1or2` writes, or None where it throws IllegalArgumentException. */
  function Smart1or2Bytes(v: int): Option<seq<byte>>
  {
    if 0 <= v < 128 then Some(BigEndian(v, 1))
    else if 0 <= v < 32768 then Some(BigEndian(v + 32768, 2))
    else None
  }

  /**
   * What `gSmart1or2` reads from the bytes from the position on: the value and
   * the number of bytes consumed, or None when it runs past the limit.
   */
  function ReadSmart1or2(s: seq<byte>): Option<(int, nat)>
  {
    if |s| == 0 then None
    else if s[0] < 128 then Some((s[0], 1))
    else if |s| < 2 then None
    else Some((Unsigned(s[..2]) - 32768, 2))
  }

  /** Java's `v | 0x80`. */
  function OrBit7(v: int): int
  {
    if (v / 0x80) % 2 == 1 then v else v + 0x80
  }

  /** What `pSmart2or4` writes, or None where it throws IllegalArgumentException. */
  function Smart2or4Bytes(v: int32): Option<seq<byte>>
  {
    if v < -1 then None
    else if v == -1 then Some(BigEndian(0x7FFF, 2))
    else if v < 0x7FFF then Some(BigEndian(v, 2))
    else Some(BigEndian(OrBit7(v), 4))
  }

  /**
   * What `gSmart2or4` reads: a first byte with the sign bit set selects
   * `g4() & 0x7FFFFFFF`, otherwise `g2()`.
   */
  function ReadSmart2or4(s: seq<byte>): Option<(int, nat)>
  {
    if |s| == 0 then None
    else if s[0] >= 128 then (if |s| < 4 then None else Some((Unsigned(s[..4]) % 0x8000_0000, 4)))
    else if |s| < 2 then None
    else Some((Unsigned(s[..2]), 2))
  }

  lemma UnsignedPair(a: byte, b: byte)
    ensures Unsigned([a, b]) == a * 256 + b
  {
    assert [a, b] == [a] + [b];
    UnsignedAppend([a], b);
    assert [a] == [] + [a];
    UnsignedAppend([], a);
  }

  /** `pSmart1or2` accepts exactly [0, 32768), in one byte below 128, and `gSmart1or2` reads it back. */
  lemma Smart1or2RoundTrip(v: int, rest: seq<byte>)
    ensures Smart1or2Bytes(v).Some? <==> 0 <= v < 32768
    ensures Smart1or2Bytes(v).Some? ==>
              && |Smart1or2Bytes(v).value| == (if v < 128 then 1 else 2)
              && ReadSmart1or2(Smart1or2Bytes(v).value + rest) == Some((v, |Smart1or2Bytes(v).value|))
  {
    if 0 <= v < 128 {
      UnsignedBigEndian(v, 1);
      assert BigEndian(v, 1) == [v];
    } else if 0 <= v < 32768 {
      var bs := BigEndian(v + 32768, 2);
      UnsignedBigEndian(v + 32768, 2);
      assert (bs + rest)[..2] == bs;
    }
  }

  /** `pSmart2or4` throws exactly below -1. */
  lemma Smart2or4Range(v: int32)
    ensures Smart2or4Bytes(v).None? <==> v < -1
  {
  }

  /** Values in [0, 0x7FFF) take two bytes and read back unchanged. */
  lemma Smart2or4RoundTrip(v: int32, rest: seq<byte>)
    requires 0 <= v < 0x7FFF
    ensures Smart2or4Bytes(v) == Some(BigEndian(v, 2))
    ensures ReadSmart2or4(BigEndian(v, 2) + rest) == Some((v, 2))
  {
    var bs := BigEndian(v, 2);
    UnsignedBigEndian(v, 2);
    assert (bs + rest)[..2] == bs;
  }

  /** -1 is written as 0x7F 0xFF, which reads back as 32767, not -1. */
  lemma Smart2or4MinusOne(rest: seq<byte>)
    ensures Smart2or4Bytes(-1) == Some([0x7F, 0xFF])
    ensures ReadSmart2or4([0x7F, 0xFF] + rest) == Some((32767, 2))
  {
    BigEndian2(0x7FFF);
    assert ([0x7F, 0xFF] + rest)[..2] == [0x7F, 0xFF];
    UnsignedPair(0x7F, 0xFF);
  }

  /**
   * From 0x7FFF on, `p4(v | 0x80)` leaves the first byte's sign bit clear, so
   * `gSmart2or4` takes the two-byte path and reads the high half instead of v.
   */
  lemma Smart2or4Large(v: int32, rest: seq<byte>)
    requires v >= 0x7FFF
    ensures Smart2or4Bytes(v).Some? && |Smart2or4Bytes(v).value| == 4
    ensures ReadSmart2or4(Smart2or4Bytes(v).value + rest) == Some((v / 0x1_0000, 2))
    ensures v / 0x1_0000 != v
  {
    var w := OrBit7(v);
    var bs := BigEndian(w, 4);
    BigEndian4(w);
    OrBit7High(v);
    HighHalf(w);
    var two := (bs + rest)[..2];
    assert two == [Low8(w / 0x100_0000), Low8(w / 0x1_0000)];
    UnsignedPair(Low8(w / 0x100_0000), Low8(w / 0x1_0000));
  }

  /** Setting bit 7 leaves the high half and the sign alone. */
  lemma OrBit7High(v: int)
    requires 0 <= v < 0x8000_0000
    ensures OrBit7(v) / 0x1_0000 == v / 0x1_0000
    ensures 0 <= OrBit7(v) < 0x8000_0000
  {
    var h := v / 0x1_0000;
    if v - h * 0x1_0000 >= 0xFF80 {
      Bit7Set(v, h);
    }
  }

  /** The low half of `v` is at least 0xFF80 only when bit 7 is set. */
  lemma Bit7Set(v: int, h: int)
    requires 0 <= v && h == v / 0x1_0000 && v - h * 0x1_0000 >= 0xFF80
    ensures (v / 0x80) % 2 == 1
  {
    var k := h * 0x200 + 0x1FF;
    assert v == k * 0x80 + (v - h * 0x1_0000 - 0xFF80);
    assert v / 0x80 == k;
  }

  /** The two high bytes of a non-negative int are the high half, and the first is below 128. */
  lemma HighHalf(w: int)
    requires 0 <= w < 0x8000_0000
    ensures Low8(w / 0x100_0000) < 128
    ensures Low8(w / 0x100_0000) * 256 + Low8(w / 0x1_0000) == w / 0x1_0000
  {
    var h := w / 0x1_0000;
    assert w / 0x100_0000 == h / 256;
    assert h < 0x8000;
  }

  // ---------------------------------------------------------------------
  // The array-copy loops `while (off < len) ... buf[off++] ...`.
  // ---------------------------------------------------------------------

  /** The loop over `[off, len)` reaches an index outside an array of `n` elements, which throws. */
  predicate OutOfRange(n: nat, off: int, len: int) {
    off < len && (off < 0 || len > n)
  }

  /** The elements of `buf` the put loop copies before it stops: those of `[off, len)` up to the first bad index. */
  function Copied(buf: seq<byte>, off: int, len: int): (r: seq<byte>)
    ensures |r| <= |buf|
    ensures !OutOfRange(|buf|, off, len) && off < len ==> r == buf[off..len]
  {
    if off < 0 || off >= len || off >= |buf| then [] else buf[off..Min(len, |buf|)]
  }

  /**
   * How many `get`s the read loop makes on an array of `n` elements: one per
   * index of `[off, len)` up to and including the first bad one, since Java
   * evaluates `buffer.get()` before it stores into `buf[off]`.
   */
  function Attempts(n: nat, off: int, len: int): (r: nat)
    ensures OutOfRange(n, off, len) ==> r >= 1
    ensures !OutOfRange(n, off, len) ==> r == if off < len then len - off else 0
  {
    if off >= len then 0 else if off < 0 || off >= n then 1 else Min(len, n + 1) - off
  }

  // ---------------------------------------------------------------------
  // The cursor.
  // ---------------------------------------------------------------------

  /** The outcome of a cursor operation that may throw more than one way. */
  datatype Status = Done | BufferOverflow | BufferUnderflow | IndexOutOfBounds | IllegalArgument

  class Packet {
    /** The buffer's backing array; its limit is its capacity. */
    const buffer: array<byte>
    var pos: nat

    ghost predicate Valid()
      reads this
    {
      pos <= buffer.Length
    }

    constructor (buffer: array<byte>)
      ensures Valid() && this.buffer == buffer && pos == 0
    {
      this.buffer := buffer;
      pos := 0;
    }

    /** The relative puts of `bs`, in order, up to the first that hits the limit. */
    twostate predicate Wrote(bs: seq<byte>, ok: bool)
      reads this, buffer
    {
      && old(pos) <= buffer.Length
      && ok == (old(pos) + |bs| <= buffer.Length)
      && buffer[..] == Overwrite(old(buffer[..]), old(pos), bs)
      && pos == Min(old(pos) + |bs|, buffer.Length)
    }

    /** `n` relative gets, in order, up to the first that hits the limit. */
    twostate predicate Consumed(n: nat, ok: bool)
      reads this
    {
      && old(pos) <= buffer.Length
      && ok == (old(pos) + n <= buffer.Length)
      && pos == Min(old(pos) + n, buffer.Length)
    }

    /** `ByteBuffer.put(byte)`. */
    method Put(b: byte) returns (ok: bool)
      requires Valid()
      modifies this, buffer
      ensures Valid() && Wrote([b], ok)
    {
      if pos < buffer.Length {
        buffer[pos] := b;
        pos := pos + 1;
        ok := true;
      } else {
        ok := false;
      }
    }

    /** `ByteBuffer.get()`. */
    method Get() returns (ok: bool, b: byte)
      requires Valid()
      modifies this
      ensures Valid() && Consumed(1, ok)
      ensures ok ==> b == buffer[old(pos)]
    {
      if pos < buffer.Length {
        b := buffer[pos];
        pos := pos + 1;
        ok := true;
      } else {
        ok := false;
        b := 0;
      }
    }

    /** The state after the puts of `bs` from position `p0` over the array contents `s0`. */
    ghost predicate Written(s0: seq<byte>, p0: nat, bs: seq<byte>, ok: bool)
      reads this, buffer
    {
      && p0 <= |s0| == buffer.Length
      && ok == (p0 + |bs| <= buffer.Length)
      && buffer[..] == Overwrite(s0, p0, bs)
      && pos == Min(p0 + |bs|, buffer.Length)
    }

    /**
     * The next put of a multi-byte put: it runs only when the earlier ones
     * did not throw, and the puts so far then cover `done + [b]`.
     */
    method PutAfter(ok0: bool, b: byte, ghost s0: seq<byte>, ghost p0: nat, ghost done: seq<byte>) returns (ok: bool)
      requires Valid() && Written(s0, p0, done, ok0)
      modifies this, buffer
      ensures Valid() && Written(s0, p0, done + [b], ok)
    {
      OverwriteSnoc(s0, p0, done, b);
      if ok0 {
        ok := Put(b);
      } else {
        OverwriteBeyond(s0, p0, done, [b]);
        ok := false;
      }
    }

    method P1(value: int32) returns (ok: bool)
      requires Valid()
      modifies this, buffer
      ensures Valid() && Wrote(BigEndian(value, 1), ok)
    {
      BigEndian2(value);
      ok := Put(Low8(value));
    }

    method P2(value: int32) returns (ok: bool)
      requires Valid()
      modifies this, buffer
      ensures Valid() && Wrote(BigEndian(value, 2), ok)
    {
      BigEndian2(value);
      ghost var s0, p0 := buffer[..], pos;
      ok := Put(Low8(value / 0x100));
      ghost var d := [Low8(value / 0x100)];
      ok := PutAfter(ok, Low8(value), s0, p0, d);
      d := d + [Low8(value)];
      assert d == [Low8(value / 0x100), Low8(value)];
    }

    method IP2(value: int32) returns (ok: bool)
      requires Valid()
      modifies this, buffer
      ensures Valid() && Wrote(LittleEndian(value, 2), ok)
    {
      LittleEndian2(value);
      ghost var s0, p0 := buffer[..], pos;
      ok := Put(Low8(value));
      ghost var d := [Low8(value)];
      ok := PutAfter(ok, Low8(value / 0x100), s0, p0, d);
      d := d + [Low8(value / 0x100)];
      assert d == [Low8(value), Low8(value / 0x100)];
    }

    method P3(value: int32) returns (ok: bool)
      requires Valid()
      modifies this, buffer
      ensures Valid() && Wrote(BigEndian(value, 3), ok)
    {
      BigEndian3(value);
      var b0, b1, b2 := Low8(value / 0x1_0000), Low8(value / 0x100), Low8(value);
      ghost var s0, p0 := buffer[..], pos;
      ok := Put(b0);
      ghost var d := [b0];
      ok := PutAfter(ok, b1, s0, p0, d);
      d := d + [b1];
      ok := PutAfter(ok, b2, s0, p0, d);
      d := d + [b2];
      assert d == [b0, b1, b2];
    }

    method IP3(value: int32) returns (ok: bool)
      requires Valid()
      modifies this, buffer
      ensures Valid() && Wrote(LittleEndian(value, 3), ok)
    {
      LittleEndian3(value);
      var b0, b1, b2 := Low8(value), Low8(value / 0x100), Low8(value / 0x1_0000);
      ghost var s0, p0 := buffer[..], pos;
      ok := Put(b0);
      ghost var d := [b0];
      ok := PutAfter(ok, b1, s0, p0, d);
      d := d + [b1];
      ok := PutAfter(ok, b2, s0, p0, d);
      d := d + [b2];
      assert d == [b0, b1, b2];
    }

    method P4(value: int32) returns (ok: bool)
      requires Valid()
      modifies this, buffer
      ensures Valid() && Wrote(BigEndian(value, 4), ok)
    {
      BigEndian4(value);
      var b0, b1, b2, b3 := Low8(value / 0x100_0000), Low8(value / 0x1_0000), Low8(value / 0x100), Low8(value);
      ghost var s0, p0 := buffer[..], pos;
      ok := Put(b0);
      ghost var d := [b0];
      ok := PutAfter(ok, b1, s0, p0, d);
      d := d + [b1];
      ok := PutAfter(ok, b2, s0, p0, d);
      d := d + [b2];
      ok := PutAfter(ok, b3, s0, p0, d);
      d := d + [b3];
      assert d == [b0, b1, b2, b3];
    }

    method IP4(value: int32) returns (ok: bool)
      requires Valid()
      modifies this, buffer
      ensures Valid() && Wrote(LittleEndian(value, 4), ok)
    {
      LittleEndian4(value);
      var b0, b1, b2, b3 := Low8(value), Low8(value / 0x100), Low8(value / 0x1_0000), Low8(value / 0x100_0000);
      ghost var s0, p0 := buffer[..], pos;
      ok := Put(b0);
      ghost var d := [b0];
      ok := PutAfter(ok, b1, s0, p0, d);
      d := d + [b1];
      ok := PutAfter(ok, b2, s0, p0, d);
      d := d + [b2];
      ok := PutAfter(ok, b3, s0, p0, d);
      d := d + [b3];
      assert d == [b0, b1, b2, b3];
    }

    /** `p5(long)`: five bytes, the low 40 bits of the value. */
    method P5(value: int64) returns (ok: bool)
      requires Valid()
      modifies this, buffer
      ensures Valid() && Wrote(BigEndian(value, 5), ok)
    {
      BigEndian5(value);
      var b0, b1, b2, b3, b4 :=
        Low8(value / 0x1_0000_0000), Low8(value / 0x100_0000), Low8(value / 0x1_0000), Low8(value / 0x100), Low8(value);
      ghost var s0, p0 := buffer[..], pos;
      ok := Put(b0);
      ghost var d := [b0];
      ok := PutAfter(ok, b1, s0, p0, d);
      d := d + [b1];
      ok := PutAfter(ok, b2, s0, p0, d);
      d := d + [b2];
      ok := PutAfter(ok, b3, s0, p0, d);
      d := d + [b3];
      ok := PutAfter(ok, b4, s0, p0, d);
      d := d + [b4];
      assert d == [b0, b1, b2, b3, b4];
    }

    /** `ip5(long)`: the bytes of `p5` in reverse order. */
    method IP5(value: int64) returns (ok: bool)
      requires Valid()
      modifies this, buffer
      ensures Valid() && Wrote(LittleEndian(value, 5), ok)
    {
      LittleEndian5(value);
      var b0, b1, b2, b3, b4 :=
        Low8(value), Low8(value / 0x100), Low8(value / 0x1_0000), Low8(value / 0x100_0000), Low8(value / 0x1_0000_0000);
      ghost var s0, p0 := buffer[..], pos;
      ok := Put(b0);
      ghost var d := [b0];
      ok := PutAfter(ok, b1, s0, p0, d);
      d := d + [b1];
      ok := PutAfter(ok, b2, s0, p0, d);
      d := d + [b2];
      ok := PutAfter(ok, b3, s0, p0, d);
      d := d + [b3];
      ok := PutAfter(ok, b4, s0, p0, d);
      d := d + [b4];
      assert d == [b0, b1, b2, b3, b4];
    }

    // The reads mirror the puts.

    /** `g1()`: always a value in [0, 255]. */
    method G1() returns (ok: bool, v: int)
      requires Valid()
      modifies this
      ensures Valid() && Consumed(1, ok)
      ensures 0 <= v < 256
      ensures ok ==> v == buffer[old(pos)]
    {
      var b;
      ok, b := Get();
      v := b;
    }

    method G2() returns (ok: bool, v: int)
      requires Valid()
      modifies this
      ensures Valid() && Consumed(2, ok)
      ensures ok ==> v == Unsigned(buffer[old(pos)..old(pos) + 2])
    {
      ghost var p0 := pos;
      v := 0;
      var b0, b1;
      ok, b0 := Get();
      if !ok { return; }
      ok, b1 := Get();
      if !ok { return; }
      v := b0 as int * 0x100 + b1 as int;
      UnsignedSmall(buffer[p0..p0 + 2]);
    }

    method IG2() returns (ok: bool, v: int)
      requires Valid()
      modifies this
      ensures Valid() && Consumed(2, ok)
      ensures ok ==> v == UnsignedLE(buffer[old(pos)..old(pos) + 2])
    {
      ghost var p0 := pos;
      v := 0;
      var b0, b1;
      ok, b0 := Get();
      if !ok { return; }
      ok, b1 := Get();
      if !ok { return; }
      v := b0 as int + b1 as int * 0x100;
      UnsignedLESmall(buffer[p0..p0 + 2]);
    }

    method G3() returns (ok: bool, v: int)
      requires Valid()
      modifies this
      ensures Valid() && Consumed(3, ok)
      ensures ok ==> v == Unsigned(buffer[old(pos)..old(pos) + 3])
    {
      ghost var p0 := pos;
      v := 0;
      var b0, b1, b2;
      ok, b0 := Get();
      if !ok { return; }
      ok, b1 := Get();
      if !ok { return; }
      ok, b2 := Get();
      if !ok { return; }
      v := b0 as int * 0x1_0000 + b1 as int * 0x100 + b2 as int;
      UnsignedSmall(buffer[p0..p0 + 3]);
    }

    method IG3() returns (ok: bool, v: int)
      requires Valid()
      modifies this
      ensures Valid() && Consumed(3, ok)
      ensures ok ==> v == UnsignedLE(buffer[old(pos)..old(pos) + 3])
    {
      ghost var p0 := pos;
      v := 0;
      var b0, b1, b2;
      ok, b0 := Get();
      if !ok { return; }
      ok, b1 := Get();
      if !ok { return; }
      ok, b2 := Get();
      if !ok { return; }
      v := b0 as int + b1 as int * 0x100 + b2 as int * 0x1_0000;
      UnsignedLESmall(buffer[p0..p0 + 3]);
    }

    /** `g4()`: the top byte lands in the sign bit of the Java `int`. */
    method G4() returns (ok: bool, v: int32)
      requires Valid()
      modifies this
      ensures Valid() && Consumed(4, ok)
      ensures ok ==> (Unsigned(buffer[old(pos)..old(pos) + 4]) < 0x1_0000_0000 &&
                      v == Signed32(Unsigned(buffer[old(pos)..old(pos) + 4])))
    {
      ghost var p0 := pos;
      v := 0;
      var b0, b1, b2, b3;
      ok, b0 := Get();
      if !ok { return; }
      ok, b1 := Get();
      if !ok { return; }
      ok, b2 := Get();
      if !ok { return; }
      ok, b3 := Get();
      if !ok { return; }
      v := Signed32(b0 as int * 0x100_0000 + b1 as int * 0x1_0000 + b2 as int * 0x100 + b3 as int);
      UnsignedSmall(buffer[p0..p0 + 4]);
    }

    method IG4() returns (ok: bool, v: int32)
      requires Valid()
      modifies this
      ensures Valid() && Consumed(4, ok)
      ensures ok ==> (UnsignedLE(buffer[old(pos)..old(pos) + 4]) < 0x1_0000_0000 &&
                      v == Signed32(UnsignedLE(buffer[old(pos)..old(pos) + 4])))
    {
      ghost var p0 := pos;
      v := 0;
      var b0, b1, b2, b3;
      ok, b0 := Get();
      if !ok { return; }
      ok, b1 := Get();
      if !ok { return; }
      ok, b2 := Get();
      if !ok { return; }
      ok, b3 := Get();
      if !ok { return; }
      v := Signed32(b0 as int + b1 as int * 0x100 + b2 as int * 0x1_0000 + b3 as int * 0x100_0000);
      UnsignedLESmall(buffer[p0..p0 + 4]);
    }

    /** `pSmart1or2`: one byte below 128, `p2(v + 32768)` below 32768, else IllegalArgumentException. */
    method PSmart1or2(value: int32) returns (r: Status)
      requires Valid()
      modifies this, buffer
      ensures Valid()
      ensures Smart1or2Bytes(value).None? ==> r == IllegalArgument && unchanged(this) && unchanged(buffer)
      ensures Smart1or2Bytes(value).Some? ==>
                (r == Done || r == BufferOverflow) && Wrote(Smart1or2Bytes(value).value, r == Done)
    {
      var ok;
      if value >= 0 && value < 128 {
        ok := P1(value);
      } else if value >= 0 && value < 32768 {
        ok := P2(value + 32768);
      } else {
        return IllegalArgument;
      }
      r := if ok then Done else BufferOverflow;
    }

    /**
     * `pSmart2or4`: IllegalArgumentException below -1, `p2(Short.MAX_VALUE)` for -1,
     * `p2(v)` below 0x7FFF and `p4(v | 0x80)` from there on.
     */
    method PSmart2or4(value: int32) returns (r: Status)
      requires Valid()
      modifies this, buffer
      ensures Valid()
      ensures Smart2or4Bytes(value).None? ==> r == IllegalArgument && unchanged(this) && unchanged(buffer)
      ensures Smart2or4Bytes(value).Some? ==>
                (r == Done || r == BufferOverflow) && Wrote(Smart2or4Bytes(value).value, r == Done)
    {
      var ok;
      if value < -1 {
        return IllegalArgument;
      } else if value == -1 {
        ok := P2(0x7FFF);
      } else if value < 0x7FFF {
        ok := P2(value);
      } else {
        ok := P4(OrBit7(value));
      }
      r := if ok then Done else BufferOverflow;
    }

    /**
     * `gSmart1or2`: peeks at the next byte with an absolute get (which throws
     * IndexOutOfBoundsException at the limit) and then reads one or two bytes.
     */
    method GSmart1or2() returns (r: Status, v: int)
      requires Valid()
      modifies this
      ensures Valid()
      ensures r == Done <==> ReadSmart1or2(buffer[old(pos)..]).Some?
      ensures r == Done ==> ReadSmart1or2(buffer[old(pos)..]) == Some((v, pos - old(pos)))
      ensures old(pos) == buffer.Length ==> r == IndexOutOfBounds && pos == old(pos)
      ensures r != Done ==> r == IndexOutOfBounds || (r == BufferUnderflow && pos == buffer.Length)
    {
      ghost var p0 := pos;
      ghost var rest := buffer[p0..];
      if pos >= buffer.Length {
        return IndexOutOfBounds, 0;
      }
      var peek := buffer[pos];
      var ok;
      if peek < 128 {
        ok, v := G1();
        return Done, v;
      }
      ok, v := G2();
      if !ok {
        return BufferUnderflow, 0;
      }
      assert rest[..2] == buffer[p0..p0 + 2];
      return Done, v - 32768;
    }

    /**
     * `gSmart2or4`: a negative next byte selects `g4() & 0x7FFFFFFF`, otherwise `g2()`.
     */
    method GSmart2or4() returns (r: Status, v: int)
      requires Valid()
      modifies this
      ensures Valid()
      ensures r == Done <==> ReadSmart2or4(buffer[old(pos)..]).Some?
      ensures r == Done ==> ReadSmart2or4(buffer[old(pos)..]) == Some((v, pos - old(pos)))
      ensures old(pos) == buffer.Length ==> r == IndexOutOfBounds && pos == old(pos)
      ensures r != Done ==> r == IndexOutOfBounds || (r == BufferUnderflow && pos == buffer.Length)
    {
      ghost var p0 := pos;
      ghost var rest := buffer[p0..];
      if pos >= buffer.Length {
        return IndexOutOfBounds, 0;
      }
      var ok;
      if buffer[pos] >= 128 {
        var w;
        ok, w := G4();
        if !ok {
          return BufferUnderflow, 0;
        }
        assert rest[..4] == buffer[p0..p0 + 4];
        return Done, w % 0x8000_0000;
      }
      ok, v := G2();
      if !ok {
        return BufferUnderflow, 0;
      }
      assert rest[..2] == buffer[p0..p0 + 2];
      return Done, v;
    }

    /** `pArrayBuffer(buf)`. */
    method PArrayBuffer(buf: array<byte>) returns (ok: bool)
      requires Valid() && buf != buffer
      modifies this, buffer
      ensures Valid() && Wrote(buf[..], ok)
    {
      var r := PArrayBufferRange(buf, 0, buf.Length);
      assert Copied(buf[..], 0, buf.Length) == buf[..];
      ok := r == Done;
    }

    /**
     * `pArrayBuffer(buf, off, len)`: `len` is an end index, so it puts
     * `buf[off..len)`; a bad index of `buf` throws once the puts before it
     * are done, and a full buffer throws at the first put that does not fit.
     */
    method PArrayBufferRange(buf: array<byte>, off: int, len: int) returns (r: Status)
      requires Valid() && buf != buffer
      modifies this, buffer
      ensures Valid() && Wrote(Copied(buf[..], off, len), r != BufferOverflow)
      ensures r != BufferOverflow ==> r == if OutOfRange(buf.Length, off, len) then IndexOutOfBounds else Done
    {
      ghost var s0, p0 := buffer[..], pos;
      if off >= len {
        return Done;
      }
      if off < 0 || off >= buf.Length {
        return IndexOutOfBounds;
      }
      var end := Min(len, buf.Length);
      var i := off;
      var ok := true;
      while i < end && ok
        invariant off <= i <= end && Valid()
        invariant Written(s0, p0, buf[off..i], ok)
      {
        ok := PutAfter(ok, buf[i], s0, p0, buf[off..i]);
        assert buf[off..i] + [buf[i]] == buf[off..i + 1];
        i := i + 1;
      }
      if !ok {
        OverwriteBeyond(s0, p0, buf[off..i], buf[i..end]);
        assert buf[off..i] + buf[i..end] == buf[off..end];
        return BufferOverflow;
      }
      r := if len > buf.Length then IndexOutOfBounds else Done;
    }

    /** `pstr`: the low 8 bits of each character, then a 0 terminator. */
    method Pstr(value: seq<char16>) returns (ok: bool)
      requires Valid()
      modifies this, buffer
      ensures Valid() && Wrote(Latin1(value) + [0], ok)
    {
      ghost var s0, p0 := buffer[..], pos;
      var bytes := Latin1(value);
      var i := 0;
      ok := true;
      while i < |value| && ok
        invariant 0 <= i <= |value| && Valid()
        invariant Written(s0, p0, bytes[..i], ok)
      {
        ok := PutAfter(ok, Low8(value[i]), s0, p0, bytes[..i]);
        assert bytes[..i] + [bytes[i]] == bytes[..i + 1];
        i := i + 1;
      }
      if ok {
        assert bytes[..i] == bytes;
        ok := PutAfter(ok, 0, s0, p0, bytes);
      } else {
        OverwriteBeyond(s0, p0, bytes[..i], bytes[i..] + [0]);
        assert bytes[..i] + (bytes[i..] + [0]) == bytes + [0];
      }
    }

    /** `gArrayBuffer(buf)`. */
    method GArrayBuffer(buf: array<byte>) returns (ok: bool)
      requires Valid() && buf != buffer
      modifies this, buf
      ensures Valid()
      ensures ok == (old(pos) + buf.Length <= buffer.Length)
      ensures pos == Min(old(pos) + buf.Length, buffer.Length)
      ensures buf[..] == Overwrite(old(buf[..]), 0, buffer[old(pos)..pos])
    {
      var r := GArrayBufferRange(buf, 0, buf.Length);
      ok := r == Done;
    }

    /**
     * `gArrayBuffer(buf, off, len)`: fills `buf[off..len)` from the cursor
     * and leaves the rest of `buf` as it was.  An empty buffer throws at the
     * first `get` that finds nothing; a bad index of `buf` throws after the
     * `get` of its turn, whose byte is lost.
     */
    method GArrayBufferRange(buf: array<byte>, off: int, len: int) returns (r: Status)
      requires Valid() && buf != buffer
      modifies this, buf
      ensures Valid()
      ensures pos == Min(old(pos) + Attempts(buf.Length, off, len), buffer.Length)
      ensures r == BufferUnderflow <==> old(pos) + Attempts(buf.Length, off, len) > buffer.Length
      ensures r != BufferUnderflow ==> r == if OutOfRange(buf.Length, off, len) then IndexOutOfBounds else Done
      ensures buf[..] == if off < 0 || off >= len then old(buf[..]) else Overwrite(old(buf[..]), off, buffer[old(pos)..pos])
    {
      ghost var d0, p0 := buf[..], pos;
      if off >= len {
        return Done;
      }
      if off < 0 {
        var ok, _ := Get();
        return if ok then IndexOutOfBounds else BufferUnderflow;
      }
      var end := if off >= buf.Length then off + 1 else Min(len, buf.Length + 1);
      var i := off;
      var ok := true;
      while i < end && ok
        invariant off <= i <= end && p0 <= pos <= buffer.Length
        invariant ok ==> pos == p0 + (i - off)
        invariant !ok ==> pos == buffer.Length && p0 + (i - off) > buffer.Length
        invariant buf[..] == Overwrite(d0, off, buffer[p0..pos])
      {
        ok := GetAt(buf, i, off, d0, p0);
        i := i + 1;
      }
      if !ok {
        return BufferUnderflow;
      }
      r := if end > buf.Length then IndexOutOfBounds else Done;
    }

    /** One turn of `gArrayBuffer(buf, off, len)`: a `get`, stored at `buf[i]` when `i` is an index of `buf`. */
    method GetAt(buf: array<byte>, i: nat, off: nat, ghost d0: seq<byte>, ghost p0: nat) returns (ok: bool)
      requires Valid() && buf != buffer && off <= i && p0 <= pos && pos == p0 + (i - off)
      requires buf[..] == Overwrite(d0, off, buffer[p0..pos])
      modifies this, buf
      ensures Valid() && Consumed(1, ok)
      ensures buf[..] == Overwrite(d0, off, buffer[p0..pos])
    {
      ghost var before := buffer[p0..pos];
      var b;
      ok, b := Get();
      if ok {
        assert buffer[p0..pos] == before + [b];
        OverwriteSnoc(d0, off, before, b);
        if i < buf.Length {
          buf[i] := b;
        }
      }
    }
  }
}
