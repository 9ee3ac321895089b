/**
 * The reflected, table-driven CRC-32 of `CRC.java`: polynomial 0xEDB88320,
 * register preset to all ones and complemented at the end (the algorithm of
 * the sample code in section 8 of RFC 1952).  The Java `int` register is
 * modelled as its 32-bit pattern, a `bv32`, and a Java `byte` as its 8-bit
 * pattern, a `bv8`.
 */
module Crc {
  import opened Wrappers

  const Polynomial: bv32 := 0xEDB8_8320

  /** One pass of the inner table loop: shift right, XOR the polynomial in when the dropped bit was 1. */
  function Step(t: bv32): bv32 {
    if t & 1 == 1 then (t >> 1) ^ Polynomial else t >> 1
  }

  /** `k` passes of `Step`, as the inner loop has made them after `k` iterations. */
  function Steps(t: bv32, k: nat): bv32
    decreases k
  {
    if k == 0 then t else Step(Steps(t, k - 1))
  }

  /** The eight passes the inner loop makes, written out. */
  function Eight(t: bv32): bv32 {
    Step(Step(Step(Step(Step(Step(Step(Step(t))))))))
  }

  /** Entry `i` of the static table. */
  function TableEntry(i: bv8): bv32 {
    Eight(i as bv32)
  }

  /** A Java `byte` widened to `int`: the sign bit is copied into the upper 24 bits. */
  function SignExtend(b: bv8): bv32 {
    if b < 0x80 then b as bv32 else (b as bv32) | 0xFFFF_FF00
  }

  /** The table index of one `compute` iteration, `(crc ^ b) & 0xff`. */
  function Index(crc: bv32, b: bv32): bv8 {
    ((crc ^ b) & 0xff) as bv8
  }

  /**
   * One `compute` iteration on a byte, `crc >>> 8 ^ TABLE[(crc ^ b) & 0xff]`,
   * with the byte widened to `int` as Java does.
   */
  function Update(crc: bv32, b: bv8): bv32 {
    (crc >> 8) ^ TableEntry(Index(crc, SignExtend(b)))
  }

  /** The register after feeding `bs` to a register holding `crc`. */
  function Register(crc: bv32, bs: seq<bv8>): bv32
    decreases |bs|
  {
    if |bs| == 0 then crc else Update(Register(crc, bs[..|bs| - 1]), bs[|bs| - 1])
  }

  /** The checksum `compute` returns for the bytes `bs`. */
  function Checksum(bs: seq<bv8>): bv32 {
    !Register(0xFFFF_FFFF, bs)
  }

  /**
   * The static initialiser: entry `i` of the table is `i` after eight passes
   * of the shift/XOR loop.
   */
  method BuildTable() returns (table: array<bv32>)
    ensures table.Length == 256
    ensures forall i: bv8 :: table[i] == TableEntry(i)
  {
    table := new bv32[256];
    for i := 0 to 256
      invariant forall k :: 0 <= k < i ==> table[k] == TableEntry(k as bv8)
    {
      var temp := Entry(i as bv8);
      table[i] := temp;
    }
    forall i: bv8
      ensures table[i] == TableEntry(i)
    {
      assert (i as int) as bv8 == i;
    }
  }

  /** The inner loop of the static initialiser: eight passes on `temp`, starting from `i`. */
  method Entry(i: bv8) returns (temp: bv32)
    ensures temp == TableEntry(i)
  {
    temp := i as bv32;
    for j := 0 to 8
      invariant temp == Steps(i as bv32, j)
    {
      ghost var prev := temp;
      if temp & 1 == 1 {
        temp := (temp >> 1) ^ Polynomial;
      } else {
        temp := temp >> 1;
      }
      assert temp == Step(prev);
    }
    StepsEight(i as bv32);
  }

  /** The entries for 0 and 128, fixed by the polynomial. */
  lemma KnownEntries()
    ensures TableEntry(0) == 0 && TableEntry(128) == Polynomial
  {
  }

  /**
   * `compute(data, off, len)`: `len` is an end index.  An index outside the
   * array raises ArrayIndexOutOfBoundsException, modelled as `None`.
   */
  method ComputeRange(data: array<bv8>, off: int, len: int) returns (r: Option<bv32>)
    ensures off >= len ==> r == Some(0)
    ensures off < len ==> (r.Some? <==> 0 <= off && len <= data.Length)
    ensures r.Some? && off < len ==> r.value == Checksum(data[off..len])
  {
    var table := BuildTable();
    var crc: bv32 := 0xFFFF_FFFF;
    if off >= len {
      return Some(!crc);
    }
    if off < 0 || len > data.Length {
      return None;
    }
    ghost var contents := table[..];
    var i := off;
    while i < len
      invariant off <= i <= len
      invariant table[..] == contents
      invariant crc == Register(0xFFFF_FFFF, data[off..i])
    {
      var t := table[Index(crc, SignExtend(data[i]))];
      LoopStep(data[..], off, i, crc, t);
      crc := (crc >> 8) ^ t;
      i := i + 1;
    }
    return Some(!crc);
  }

  /** `compute(data)`, which is `compute(data, 0, data.length)`. */
  method Compute(data: array<bv8>) returns (r: bv32)
    ensures r == Checksum(data[..])
  {
    var o := ComputeRange(data, 0, data.Length);
    if data.Length == 0 {
      EmptyChecksum();
      assert data[..] == [];
    } else {
      assert data[0..data.Length] == data[..];
    }
    r := o.value;
  }

  /** The empty range: the preset register complemented is 0. */
  lemma EmptyChecksum()
    ensures Checksum([]) == 0
  {
  }

  /** The body of the `compute` loop performs `Update`. */
  lemma UpdateStep(crc: bv32, b: bv8, t: bv32)
    requires t == TableEntry(Index(crc, SignExtend(b)))
    ensures (crc >> 8) ^ t == Update(crc, b)
  {
  }

  /** One iteration of the `compute` loop extends the register by one byte. */
  lemma LoopStep(data: seq<bv8>, off: nat, i: nat, crc: bv32, t: bv32)
    requires off <= i < |data|
    requires crc == Register(0xFFFF_FFFF, data[off..i])
    requires t == TableEntry(Index(crc, SignExtend(data[i])))
    ensures (crc >> 8) ^ t == Register(0xFFFF_FFFF, data[off..i + 1])
  {
    UpdateStep(crc, data[i], t);
    RegisterSnoc(0xFFFF_FFFF, data[off..i], data[i]);
    assert data[off..i] + [data[i]] == data[off..i + 1];
  }

  lemma RegisterSnoc(crc: bv32, bs: seq<bv8>, b: bv8)
    ensures Register(crc, bs + [b]) == Update(Register(crc, bs), b)
  {
    assert (bs + [b])[..|bs|] == bs;
  }

  /** The inner loop's eight passes are `Eight`. */
  lemma StepsEight(t: bv32)
    ensures Steps(t, 8) == Eight(t)
  {
  }

  /**
   * Sign extension only changes bits that `& 0xff` discards: the table index
   * is that of the unsigned byte.
   */
  lemma SignExtendIndex(crc: bv32, b: bv8)
    ensures Index(crc, SignExtend(b)) == Index(crc, b as bv32)
  {
  }

  /** Feeding `a + b` is feeding `a`, then feeding `b` from the register `a` left. */
  lemma {:induction false} RegisterAppend(crc: bv32, a: seq<bv8>, b: seq<bv8>)
    ensures Register(crc, a + b) == Register(Register(crc, a), b)
    decreases |b|
  {
    if |b| == 0 {
      assert a + b == a;
    } else {
      var b' := b[..|b| - 1];
      assert (a + b)[..|a + b| - 1] == a + b';
      RegisterAppend(crc, a, b');
    }
  }
}
