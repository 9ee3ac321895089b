/**
 * `JavaFileStore`: the client's block-chained store of one archive.
 *
 * The pointer file holds a six-byte record per group, `[size:3][block:3]`.
 * The data file is cut into 520-byte blocks; each block of a group holds a
 * header (who owns it and which chunk it is, and the next block of the
 * chain) and up to 512 (or 510) bytes of the group's data.  Block 0 is never
 * the start of a chain, and a next pointer of 0 ends one.  The data file is
 * shared by every archive, so the header also names the archive.
 *
 * A Java `null` result is `None`, a `false` result of the private
 * `store(groupId, data, exists)` is `ok == false`.
 */
module JavaFileStore {
  import opened Bytes
  import opened Wrappers
  import P = Packet

  const DataBlockSize: nat := 520
  const IndexBlockSize: nat := 6
  const SmallHeaderSize: nat := 8
  const LargeHeaderSize: nat := 10
  const SmallContentSize: nat := DataBlockSize - SmallHeaderSize
  const LargeContentSize: nat := DataBlockSize - LargeHeaderSize

  /** The `n` bytes at `pos`, or `None` when the file ends before them. */
  function ReadAt(f: seq<byte>, pos: nat, n: nat): (r: Option<seq<byte>>)
    ensures r.Some? <==> pos + n <= |f|
    ensures r.Some? ==> r.value == f[pos..pos + n]
  {
    if pos + n <= |f| then Some(f[pos..pos + n]) else None
  }

  /** The file after writing `bs` at `pos`; a write past the end first fills the gap with zeros. */
  function WriteAt(f: seq<byte>, pos: nat, bs: seq<byte>): (r: seq<byte>)
    ensures |r| == if pos + |bs| > |f| then pos + |bs| else |f|
  {
    var padded := if pos <= |f| then f else f + seq(pos - |f|, _ => 0);
    padded[..pos] + bs + (if pos + |bs| <= |padded| then padded[pos + |bs|..] else [])
  }

  /** A `RandomAccessFile`: its bytes and its file pointer. */
  class RandomAccessFile {
    var bytes: seq<byte>
    var pointer: nat

    constructor(bytes: seq<byte>)
      ensures this.bytes == bytes && pointer == 0
    {
      this.bytes := bytes;
      pointer := 0;
    }

    /** `length()`. */
    function Length(): nat
      reads this
    {
      |bytes|
    }

    /** `seek(pos)`: a negative position is an IOException. */
    method Seek(pos: int) returns (ok: bool)
      modifies this
      ensures bytes == old(bytes)
      ensures ok == (pos >= 0)
      ensures ok ==> pointer == pos
    {
      if pos < 0 {
        return false;
      }
      pointer := pos;
      ok := true;
    }

    /** `read(b, 0, n)` into a fresh value; a read that would stop short fails. */
    method Read(n: nat) returns (r: Option<seq<byte>>)
      modifies this
      ensures bytes == old(bytes)
      ensures r == ReadAt(bytes, old(pointer), n)
      ensures r.Some? ==> pointer == old(pointer) + n
    {
      r := ReadAt(bytes, pointer, n);
      if r.Some? {
        pointer := pointer + n;
      }
    }

    /** `write(b, off, len)` of the bytes `bs`, at the file pointer. */
    method Write(bs: seq<byte>)
      modifies this
      ensures bytes == WriteAt(old(bytes), old(pointer), bs)
      ensures pointer == old(pointer) + |bs|
    {
      bytes := WriteAt(bytes, pointer, bs);
      pointer := pointer + |bs|;
    }
  }

  /** Where the pointer record of a group starts, `groupId * 6` in Java `int` arithmetic. */
  function IndexOffset(groupId: int32): int32 {
    Wrap32(groupId * IndexBlockSize)
  }

  /** `g1`, `g2`, `g3`, `g4` on the bytes read into the scratch buffer. */
  function G1(b: seq<byte>, pos: nat): int
    requires pos + 1 <= |b|
  {
    b[pos]
  }

  function G2(b: seq<byte>, pos: nat): int
    requires pos + 2 <= |b|
  {
    b[pos] as int * 0x100 + b[pos + 1] as int
  }

  function G3(b: seq<byte>, pos: nat): nat
    requires pos + 3 <= |b|
  {
    b[pos] as int * 0x1_0000 + b[pos + 1] as int * 0x100 + b[pos + 2] as int
  }

  function G4(b: seq<byte>, pos: nat): int
    requires pos + 4 <= |b|
  {
    Int32(b[pos..pos + 4])
  }

  /** `p1`, `p2`, `p3`, `p4`: the low bytes of `v`, most significant first. */
  function P1(v: int): seq<byte> {
    [Low8(v)]
  }

  function P2(v: int): seq<byte> {
    [Low8(v / 0x100), Low8(v)]
  }

  function P3(v: int): seq<byte> {
    [Low8(v / 0x1_0000), Low8(v / 0x100), Low8(v)]
  }

  function P4(v: int): seq<byte> {
    [Low8(v / 0x100_0000), Low8(v / 0x1_0000), Low8(v / 0x100), Low8(v)]
  }

  /** A pointer record, `p3(0, size); p3(3, block)`. */
  function Record(size: int, block: int): (r: seq<byte>)
    ensures |r| == IndexBlockSize
  {
    P3(size) + P3(block)
  }

  /** The fields of a block header. */
  datatype BlockHeader = BlockHeader(group: int, chunk: int, next: int, archive: int)

  /** Ids above 65535 take the large header, with a four-byte id. */
  function HeaderSize(groupId: int32): nat {
    if groupId > 65535 then LargeHeaderSize else SmallHeaderSize
  }

  function ContentSize(groupId: int32): nat {
    if groupId > 65535 then LargeContentSize else SmallContentSize
  }

  /**
   * The header fields `load` and `store` read: `[id:4][chunk:2][next:3][archive:1]`
   * for an id above 65535, `[id:2][chunk:2][next:3][archive:1]` otherwise.
   */
  function DecodeHeader(groupId: int32, b: seq<byte>): BlockHeader
    requires |b| >= HeaderSize(groupId)
  {
    if groupId > 65535 then BlockHeader(G4(b, 0), G2(b, 4), G3(b, 6), G1(b, 9))
    else BlockHeader(G2(b, 0), G2(b, 2), G3(b, 4), G1(b, 7))
  }

  /** The header `store` writes with `p1`..`p4`: each field truncated to its width. */
  function EncodeHeader(groupId: int32, chunk: int, next: int, archiveId: int): (r: seq<byte>)
    ensures |r| == HeaderSize(groupId)
  {
    if groupId > 65535 then P4(groupId) + P2(chunk) + P3(next) + P1(archiveId)
    else P2(groupId) + P2(chunk) + P3(next) + P1(archiveId)
  }

  /** Every byte of a write: the written bytes, the old ones, or the zeros of the gap. */
  lemma WriteAtByte(f: seq<byte>, pos: nat, bs: seq<byte>, i: nat)
    requires i < |WriteAt(f, pos, bs)|
    ensures WriteAt(f, pos, bs)[i] == if pos <= i < pos + |bs| then bs[i - pos] else if i < |f| then f[i] else 0
  {
  }

  /** Reading back what was just written. */
  lemma ReadWritten(f: seq<byte>, pos: nat, bs: seq<byte>, n: nat)
    requires n <= |bs|
    ensures ReadAt(WriteAt(f, pos, bs), pos, n) == Some(bs[..n])
  {
    var r := WriteAt(f, pos, bs);
    forall i | 0 <= i < n
      ensures r[pos + i] == bs[i]
    {
      WriteAtByte(f, pos, bs, pos + i);
    }
    assert r[pos..pos + n] == bs[..n];
  }

  /** A write leaves alone the bytes of a range it does not overlap. */
  lemma ReadElsewhere(f: seq<byte>, pos: nat, bs: seq<byte>, at: nat, n: nat)
    requires at + n <= |f|
    requires at + n <= pos || pos + |bs| <= at
    ensures ReadAt(WriteAt(f, pos, bs), at, n) == ReadAt(f, at, n)
  {
    var r := WriteAt(f, pos, bs);
    forall i | at <= i < at + n
      ensures r[i] == f[i]
    {
      WriteAtByte(f, pos, bs, i);
    }
    assert r[at..at + n] == f[at..at + n];
  }

  /** Two writes end to end are one write of both. */
  lemma WriteTwice(f: seq<byte>, pos: nat, a: seq<byte>, b: seq<byte>)
    ensures WriteAt(WriteAt(f, pos, a), pos + |a|, b) == WriteAt(f, pos, a + b)
  {
    var once := WriteAt(f, pos, a);
    var twice := WriteAt(once, pos + |a|, b);
    var both := WriteAt(f, pos, a + b);
    forall i | 0 <= i < |both|
      ensures twice[i] == both[i]
    {
      WriteAtByte(f, pos, a + b, i);
      WriteAtByte(once, pos + |a|, b, i);
      if i < |once| {
        WriteAtByte(f, pos, a, i);
      }
    }
  }

  /** `g2`, `g3` and `g4` read back a value `p2`, `p3` and `p4` wrote, when it fits. */
  lemma G2P2(v: int)
    requires 0 <= v < 0x1_0000
    ensures G2(P2(v), 0) == v
  {
  }

  lemma G3P3(v: int)
    requires 0 <= v < 0x100_0000
    ensures G3(P3(v), 0) == v
  {
  }

  lemma G4P4(v: int32)
    ensures G4(P4(v), 0) == v
  {
    P.BigEndian4(v);
    Int32OfBigEndian(v);
    assert P4(v)[0..4] == BigEndian(v, 4);
  }

  /** A pointer record reads back as the size and first block it was written with. */
  lemma RecordRoundTrip(size: int, block: int)
    requires 0 <= size < 0x100_0000 && 0 <= block < 0x100_0000
    ensures G3(Record(size, block), 0) == size && G3(Record(size, block), 3) == block
  {
    G3P3(size);
    G3P3(block);
  }

  /**
   * A header reads back as the fields it was written with, in either layout,
   * when each fits its width and the id is not negative.
   */
  lemma HeaderRoundTrip(groupId: int32, chunk: int, next: int, archiveId: int, rest: seq<byte>)
    requires 0 <= groupId
    requires 0 <= chunk < 0x1_0000 && 0 <= next < 0x100_0000 && 0 <= archiveId < 0x100
    ensures DecodeHeader(groupId, EncodeHeader(groupId, chunk, next, archiveId) + rest)
         == BlockHeader(groupId, chunk, next, archiveId)
  {
    G2P2(chunk);
    G3P3(next);
    if groupId > 65535 {
      G4P4(groupId);
      LargeFields(groupId, chunk, next, archiveId, rest);
    } else {
      G2P2(groupId);
      SmallFields(groupId, chunk, next, archiveId, rest);
    }
  }

  lemma LargeFields(groupId: int32, chunk: int, next: int, archiveId: int, rest: seq<byte>)
    requires groupId > 65535
    ensures var b := EncodeHeader(groupId, chunk, next, archiveId) + rest;
      G4(b, 0) == G4(P4(groupId), 0) && G2(b, 4) == G2(P2(chunk), 0) && G3(b, 6) == G3(P3(next), 0)
      && G1(b, 9) == Low8(archiveId)
  {
    var b := EncodeHeader(groupId, chunk, next, archiveId) + rest;
    assert b[0..4] == P4(groupId)[0..4];
  }

  lemma SmallFields(groupId: int32, chunk: int, next: int, archiveId: int, rest: seq<byte>)
    requires groupId <= 65535
    ensures var b := EncodeHeader(groupId, chunk, next, archiveId) + rest;
      G2(b, 0) == G2(P2(groupId), 0) && G2(b, 2) == G2(P2(chunk), 0) && G3(b, 4) == G3(P3(next), 0)
      && G1(b, 7) == Low8(archiveId)
  {
  }

  /** The smaller of two naturals, as the `count > ...CONTENT_SIZE` clamps compute it. */
  function Min(a: nat, b: nat): nat {
    if a <= b then a else b
  }

  /** What one block of a chain gives: the next block and the block's bytes of the group. */
  datatype Step = Step(next: nat, content: seq<byte>)

  /**
   * One block of `load`'s walk: `count` bytes of group `groupId` read from
   * `block`, whose header must name the group, chunk `chunk` and the archive,
   * and point inside the data file.
   */
  function ReadBlock(data: seq<byte>, archiveId: int32, groupId: int32, block: nat, chunk: nat, count: nat)
    : (r: Option<Step>)
    ensures r.Some? ==> |r.value.content| == count && 0 < block && r.value.next <= |data| / DataBlockSize
  {
    if block == 0 then None
    else
      var h := HeaderSize(groupId);
      match ReadAt(data, block * DataBlockSize, count + h)
      case None => None
      case Some(buf) =>
        var header := DecodeHeader(groupId, buf);
        if header.group != groupId || header.chunk != chunk || header.archive != archiveId then None
        else if header.next < 0 || header.next > |data| / DataBlockSize then None
        else Some(Step(header.next, buf[h..]))
  }
  /** `ReadBlock` on a block whose bytes are known. */
  lemma ReadBlockOf(data: seq<byte>, archiveId: int32, groupId: int32, block: nat, chunk: nat, count: nat, buf: seq<byte>)
    requires 0 < block && ReadAt(data, block * DataBlockSize, count + HeaderSize(groupId)) == Some(buf)
    requires DecodeHeader(groupId, buf) == BlockHeader(groupId, chunk, DecodeHeader(groupId, buf).next, archiveId)
    requires 0 <= DecodeHeader(groupId, buf).next <= |data| / DataBlockSize
    ensures ReadBlock(data, archiveId, groupId, block, chunk, count)
         == Some(Step(DecodeHeader(groupId, buf).next, buf[HeaderSize(groupId)..]))
  {
  }


  /**
   * The chain walk of `load` from `block`, expecting chunk `chunk`, with the
   * bytes gathered so far in `acc`, until it holds `size` bytes.
   */
  function Walk(data: seq<byte>, archiveId: int32, groupId: int32, size: nat, block: nat, chunk: nat, acc: seq<byte>)
    : (r: Option<seq<byte>>)
    requires |acc| <= size
    ensures r.Some? ==> |r.value| == size
    decreases size - |acc|
  {
    if |acc| == size then Some(acc)
    else
      match ReadBlock(data, archiveId, groupId, block, chunk, Min(size - |acc|, ContentSize(groupId)))
      case None => None
      case Some(step) => Walk(data, archiveId, groupId, size, step.next, chunk + 1, acc + step.content)
  }

  /** One turn of `load`'s loop: the walk goes on from the next block with the block's bytes added. */
  lemma WalkStep(data: seq<byte>, archiveId: int32, groupId: int32, size: nat, block: nat, chunk: nat, acc: seq<byte>)
    requires |acc| < size
    ensures var step := ReadBlock(data, archiveId, groupId, block, chunk, Min(size - |acc|, ContentSize(groupId)));
      Walk(data, archiveId, groupId, size, block, chunk, acc)
      == if step.None? then None else Walk(data, archiveId, groupId, size, step.value.next, chunk + 1, acc + step.value.content)
  {
  }

  /** The two files of the store. */
  datatype Files = Files(index: seq<byte>, data: seq<byte>)

  /**
   * What `load(groupId)` returns: the pointer record must lie in the pointer
   * file and name a first block inside the data file, and the chain from it
   * must hold `size` bytes.  (`g3` is never negative, so the `size < 0`
   * test never fires.)
   */
  function Loaded(f: Files, archiveId: int32, groupId: int32): Option<seq<byte>> {
    var off := IndexOffset(groupId);
    if |f.index| < WrapAdd(off, IndexBlockSize) then None
    else if off < 0 then None
    else
      match ReadAt(f.index, off, IndexBlockSize)
      case None => None
      case Some(record) =>
        var size := G3(record, 0);
        var block := G3(record, 3);
        if block <= 0 || block > |f.data| / DataBlockSize then None
        else Walk(f.data, archiveId, groupId, size, block, 0, [])
  }

  /** Every group `load` finds passed its checks: its record lies inside the pointer file, and names a block inside the data file and the group's length. */
  lemma LoadedChecks(f: Files, archiveId: int32, groupId: int32)
    requires Loaded(f, archiveId, groupId).Some?
    ensures 0 <= IndexOffset(groupId) && IndexOffset(groupId) + IndexBlockSize <= |f.index|
    ensures var record := f.index[IndexOffset(groupId)..IndexOffset(groupId) + IndexBlockSize];
      0 < G3(record, 3) <= |f.data| / DataBlockSize && |Loaded(f, archiveId, groupId).value| == G3(record, 0)
  {
  }

  /** The walk's result starts with the bytes already gathered. */
  lemma {:induction false} WalkPrefix(data: seq<byte>, archiveId: int32, groupId: int32, size: nat, block: nat, chunk: nat,
                                       acc: seq<byte>)
    requires |acc| <= size && Walk(data, archiveId, groupId, size, block, chunk, acc).Some?
    ensures Walk(data, archiveId, groupId, size, block, chunk, acc).value[..|acc|] == acc
    decreases size - |acc|
  {
    if |acc| < size {
      WalkStep(data, archiveId, groupId, size, block, chunk, acc);
      var step := ReadBlock(data, archiveId, groupId, block, chunk, Min(size - |acc|, ContentSize(groupId))).value;
      WalkPrefix(data, archiveId, groupId, size, step.next, chunk + 1, acc + step.content);
      assert (acc + step.content)[..|acc|] == acc;
    }
  }

  /** `getGroupCount()`: how many six-byte records the pointer file holds, cast to `int`. */
  function Groups(index: seq<byte>): int32 {
    Wrap32(|index| / IndexBlockSize)
  }

  /**
   * For a pointer file shorter than 6 * 2^31 bytes and an id whose record
   * offset does not wrap, the id is below the group count exactly when its
   * record lies inside the pointer file; past the count `load` finds nothing.
   */
  lemma GroupsRecords(f: Files, archiveId: int32, groupId: int32)
    requires |f.index| < 0x3_0000_0000 && 0 <= groupId < 0x1555_5554
    ensures Groups(f.index) == |f.index| / IndexBlockSize
    ensures groupId < Groups(f.index) <==> IndexOffset(groupId) + IndexBlockSize <= |f.index|
    ensures groupId >= Groups(f.index) ==> Loaded(f, archiveId, groupId).None?
  {
    assert IndexOffset(groupId) == groupId * IndexBlockSize;
  }

  /** `(int) ((length + 519) / 520)`: the first block past the end of a data file of `length` bytes. */
  function FreshBlock(length: nat): nat {
    (length + DataBlockSize - 1) / DataBlockSize
  }

  /** `block` lies at most one past the end of a data file of `length` bytes, or is block 1 of an empty one. */
  predicate InReach(length: nat, block: nat) {
    block <= if FreshBlock(length) == 0 then 1 else FreshBlock(length)
  }

  /**
   * The block a chain grows into, lines 217-223: a fresh one past the end of
   * the data file, but never block 0 and never the block being written.
   */
  function Allocate(length: nat, block: nat): nat {
    var past := FreshBlock(length);
    var b := if past == 0 then 1 else past;
    if b == block then b + 1 else b
  }

  /**
   * The check of an existing block before `store` overwrites it: its header
   * must name the group, chunk `chunk` and the archive, and its next pointer
   * must lie inside the data file; the result is that pointer.
   */
  function CheckBlock(data: seq<byte>, archiveId: int32, groupId: int32, block: nat, chunk: nat): Option<nat> {
    match ReadAt(data, block * DataBlockSize, HeaderSize(groupId))
    case None => None
    case Some(buf) =>
      var header := DecodeHeader(groupId, buf);
      if header.group != groupId || header.chunk != chunk || header.archive != archiveId then None
      else if header.next < 0 || header.next > |data| / DataBlockSize then None
      else Some(header.next)
  }

  /** One turn of `store`'s block loop: the data file after it, the next block, how many bytes it wrote, and the new `exists`. */
  datatype Turn = Turn(data: seq<byte>, next: nat, written: nat, overwrite: bool)

  /**
   * One turn of `store`'s loop at `block`, with `offset` bytes of `payload`
   * already written: when overwriting, the block is checked and its next
   * pointer kept; a pointer of 0 switches to fresh blocks.  The next pointer
   * becomes 0 when at most 512 bytes remain, whatever the header layout.
   */
  function StoreTurn(d: seq<byte>, archiveId: int32, groupId: int32, payload: seq<byte>, offset: nat, chunk: nat,
                     block: nat, overwrite: bool): (r: Option<Turn>)
    requires offset < |payload|
    ensures r.Some? ==> 1 <= r.value.written <= |payload| - offset
    ensures r.Some? ==> r.value.written == Min(|payload| - offset, ContentSize(groupId))
    ensures r.Some? && InReach(|d|, block) ==>
      |d| <= |r.value.data| <= |d| + 1040 && InReach(|r.value.data|, r.value.next)
  {
    var found := if overwrite then CheckBlock(d, archiveId, groupId, block, chunk) else Some(0);
    if found.None? then None
    else
      var grown := if found.value == 0 then Allocate(|d|, block) else found.value;
      var next := if |payload| - offset <= SmallContentSize then 0 else grown;
      var n := Min(|payload| - offset, ContentSize(groupId));
      var written := WriteAt(d, block * DataBlockSize, EncodeHeader(groupId, chunk, next, archiveId) + payload[offset..offset + n]);
      Some(Turn(written, next, n, overwrite && found.value != 0))
  }

  /** A turn that succeeds writes its header and its share of the payload at the start of its block. */
  lemma TurnWrite(d: seq<byte>, archiveId: int32, groupId: int32, payload: seq<byte>, offset: nat, chunk: nat,
                  block: nat, overwrite: bool)
    requires offset < |payload|
    requires StoreTurn(d, archiveId, groupId, payload, offset, chunk, block, overwrite).Some?
    ensures var t := StoreTurn(d, archiveId, groupId, payload, offset, chunk, block, overwrite).value;
      t.data == WriteAt(d, block * DataBlockSize, EncodeHeader(groupId, chunk, t.next, archiveId) + payload[offset..offset + t.written])
  {
  }

  /** The outcome of `store`'s block loop: whether it ran to the end, and the data file. */
  datatype Written = Written(ok: bool, data: seq<byte>)

  /** `store`'s block loop from `block`, with `offset` bytes of `payload` written. */
  function Chain(d: seq<byte>, archiveId: int32, groupId: int32, payload: seq<byte>, offset: nat, chunk: nat,
                 block: nat, overwrite: bool): (r: Written)
    requires offset <= |payload|
    ensures InReach(|d|, block) ==> |d| <= |r.data| <= |d| + 1040 * Turns(groupId, |payload| - offset)
    decreases |payload| - offset
  {
    if offset == |payload| then Written(true, d)
    else
      match StoreTurn(d, archiveId, groupId, payload, offset, chunk, block, overwrite)
      case None => Written(false, d)
      case Some(t) =>
        TurnsStep(groupId, |payload| - offset, t.written);
        Chain(t.data, archiveId, groupId, payload, offset + t.written, chunk + 1, t.next, t.overwrite)
  }

  /** The turn `WriteBlockAt` computes, one field at a time. */
  lemma TurnOf(d: seq<byte>, archiveId: int32, groupId: int32, payload: seq<byte>, offset: nat, chunk: nat,
               block: nat, overwrite: bool, found: nat, next: nat, n: nat, keep: bool)
    requires offset < |payload|
    requires (if overwrite then CheckBlock(d, archiveId, groupId, block, chunk) else Some(0)) == Some(found)
    requires next == if |payload| - offset <= SmallContentSize then 0 else if found == 0 then Allocate(|d|, block) else found
    requires n == Min(|payload| - offset, ContentSize(groupId))
    requires keep == (overwrite && found != 0)
    ensures StoreTurn(d, archiveId, groupId, payload, offset, chunk, block, overwrite)
         == Some(Turn(WriteAt(d, block * DataBlockSize, EncodeHeader(groupId, chunk, next, archiveId) + payload[offset..offset + n]),
                      next, n, keep))
  {
  }

  /** One turn of `store`'s loop, as `Chain` takes it. */
  lemma ChainStep(d: seq<byte>, archiveId: int32, groupId: int32, payload: seq<byte>, offset: nat, chunk: nat,
                  block: nat, overwrite: bool)
    requires offset < |payload|
    ensures StoreTurn(d, archiveId, groupId, payload, offset, chunk, block, overwrite).None? ==>
      Chain(d, archiveId, groupId, payload, offset, chunk, block, overwrite) == Written(false, d)
    ensures StoreTurn(d, archiveId, groupId, payload, offset, chunk, block, overwrite).Some? ==>
      var t := StoreTurn(d, archiveId, groupId, payload, offset, chunk, block, overwrite).value;
      Chain(d, archiveId, groupId, payload, offset, chunk, block, overwrite)
      == Chain(t.data, archiveId, groupId, payload, offset + t.written, chunk + 1, t.next, t.overwrite)
  {
  }

  /** The outcome `w` of the loop at a turn that succeeds is the outcome of the loop after it, from the turn's state. */
  lemma ChainNext(d: seq<byte>, archiveId: int32, groupId: int32, payload: seq<byte>, offset: nat, chunk: nat,
                  block: nat, overwrite: bool, w: Written) returns (d': seq<byte>, offset': nat, block': nat, overwrite': bool)
    requires offset < |payload|
    requires w == Chain(d, archiveId, groupId, payload, offset, chunk, block, overwrite) && w.ok
    ensures StoreTurn(d, archiveId, groupId, payload, offset, chunk, block, overwrite).Some?
    ensures var t := StoreTurn(d, archiveId, groupId, payload, offset, chunk, block, overwrite).value;
      d' == t.data && block' == t.next && offset' == offset + t.written && overwrite' == t.overwrite
    ensures w == Chain(d', archiveId, groupId, payload, offset', chunk + 1, block', overwrite')
  {
    ChainStep(d, archiveId, groupId, payload, offset, chunk, block, overwrite);
    var t := StoreTurn(d, archiveId, groupId, payload, offset, chunk, block, overwrite).value;
    d', offset', block', overwrite' := t.data, offset + t.written, t.next, t.overwrite;
  }

  /**
   * The first block of a pass: when overwriting, the one the pointer record
   * names, which must lie inside the data file; otherwise a fresh one.
   */
  function FirstBlock(f: Files, groupId: int32, overwrite: bool): Option<nat> {
    if overwrite then
      var off := IndexOffset(groupId);
      if |f.index| < WrapAdd(off, IndexBlockSize) || off < 0 then None
      else
        match ReadAt(f.index, off, IndexBlockSize)
        case None => None
        case Some(record) =>
          var block := G3(record, 3);
          if block <= 0 || block > |f.data| / DataBlockSize then None else Some(block)
    else
      var past := FreshBlock(|f.data|);
      Some(if past == 0 then 1 else past)
  }

  /** The outcome of one pass of `store`: its result and both files after it. */
  datatype Stored = Stored(ok: bool, files: Files)

  /**
   * `store(groupId, data, exists)`: find the first block, write the pointer
   * record `(|payload|, block)` at `groupId * 6`, then the chain.
   */
  function Pass(f: Files, archiveId: int32, groupId: int32, payload: seq<byte>, overwrite: bool): Stored {
    match FirstBlock(f, groupId, overwrite)
    case None => Stored(false, f)
    case Some(block) =>
      var off := IndexOffset(groupId);
      if off < 0 then Stored(false, f)
      else
        var index := WriteAt(f.index, off, Record(|payload|, block));
        var w := Chain(f.data, archiveId, groupId, payload, 0, 0, block, overwrite);
        Stored(w.ok, Files(index, w.data))
  }

  /** `store(groupId, data)`: overwrite the existing chain, and when that fails write a fresh one. */
  function StoredFiles(f: Files, archiveId: int32, groupId: int32, payload: seq<byte>): Files {
    var first := Pass(f, archiveId, groupId, payload, true);
    if first.ok then first.files else Pass(first.files, archiveId, groupId, payload, false).files
  }

  /** A fresh block is never 0, never the current block, and lies at or past the end of the file. */
  lemma AllocatePastEnd(length: nat, block: nat)
    ensures 0 < Allocate(length, block) && Allocate(length, block) != block
    ensures Allocate(length, block) * DataBlockSize >= length
  {
  }

  /** How many turns `store`'s loop takes for `rest` bytes. */
  function Turns(groupId: int32, rest: nat): nat
    decreases rest
  {
    if rest == 0 then 0 else 1 + Turns(groupId, rest - Min(rest, ContentSize(groupId)))
  }

  /** For an id up to 65535 every turn but the last writes 512 bytes. */
  lemma {:induction false} TurnsBound(groupId: int32, rest: nat)
    requires 0 <= groupId <= 65535
    ensures Turns(groupId, rest) * 512 <= rest + 511
    decreases rest
  {
    if rest > 0 {
      TurnsBound(groupId, rest - Min(rest, ContentSize(groupId)));
    }
  }


  /**
   * Where a chain that is not being overwritten stands: at block 0 (the
   * large-id case), or at the first block past the end of the data file.
   */
  predicate FreshAt(d: seq<byte>, block: nat) {
    block == 0 || block == FreshBlock(|d|) || (|d| == 0 && block == 1)
  }

  /**
   * What one turn keeps: the file grows by at most two blocks' worth, a chain
   * that stops overwriting continues past the end of the file, an overwritten
   * chain continues inside it, and a next pointer of 0 ends the payload
   * unless the id takes the large header.
   */
  lemma TurnInvariant(d: seq<byte>, archiveId: int32, groupId: int32, payload: seq<byte>, offset: nat, chunk: nat,
                      block: nat, overwrite: bool)
    requires offset < |payload|
    requires !overwrite ==> FreshAt(d, block)
    requires StoreTurn(d, archiveId, groupId, payload, offset, chunk, block, overwrite).Some?
    ensures var t := StoreTurn(d, archiveId, groupId, payload, offset, chunk, block, overwrite).value;
      |d| <= |t.data| <= |d| + 1040
      && (!t.overwrite ==> FreshAt(t.data, t.next))
      && (t.overwrite ==> t.next <= |d| / DataBlockSize)
      && (t.next == 0 ==> groupId > 65535 || offset + t.written == |payload|)
  {
    var t := StoreTurn(d, archiveId, groupId, payload, offset, chunk, block, overwrite).value;
    var found := if overwrite then CheckBlock(d, archiveId, groupId, block, chunk) else Some(0);
    var n := Min(|payload| - offset, ContentSize(groupId));
    assert |t.data| == if block * DataBlockSize + HeaderSize(groupId) + n > |d| then block * DataBlockSize + HeaderSize(groupId) + n else |d|;
    if overwrite {
      assert block * DataBlockSize + HeaderSize(groupId) <= |d|;
    }
    if !t.overwrite && t.next != 0 {
      assert found.value == 0;
      assert t.next == Allocate(|d|, block);
    }
  }

  /** The fresh pass cannot fail once its pointer record is written: nothing is checked. */
  lemma {:induction false} FreshChainSucceeds(d: seq<byte>, archiveId: int32, groupId: int32, payload: seq<byte>,
                                               offset: nat, chunk: nat, block: nat)
    requires offset <= |payload|
    ensures Chain(d, archiveId, groupId, payload, offset, chunk, block, false).ok
    decreases |payload| - offset
  {
    if offset < |payload| {
      var t := StoreTurn(d, archiveId, groupId, payload, offset, chunk, block, false).value;
      FreshChainSucceeds(t.data, archiveId, groupId, payload, offset + t.written, chunk + 1, t.next);
    }
  }

  /**
   * The fresh pass of `store` succeeds whenever the pointer record's offset
   * can be sought, and writes the record `(|payload|, first block)` with the
   * first block past the end of the data file, never block 0.
   */
  lemma FreshPass(f: Files, archiveId: int32, groupId: int32, payload: seq<byte>)
    requires IndexOffset(groupId) >= 0
    ensures var first := if FreshBlock(|f.data|) == 0 then 1 else FreshBlock(|f.data|);
      Pass(f, archiveId, groupId, payload, false)
      == Stored(true, Files(WriteAt(f.index, IndexOffset(groupId), Record(|payload|, first)),
                            Chain(f.data, archiveId, groupId, payload, 0, 0, first, false).data))
  {
    var first := if FreshBlock(|f.data|) == 0 then 1 else FreshBlock(|f.data|);
    FreshChainSucceeds(f.data, archiveId, groupId, payload, 0, 0, first);
  }

  /**
   * Block `b` of the data file `d0` belongs to another entry: its header,
   * read in the layout of `groupId`, names another group or another archive.
   */
  predicate Foreign(d0: seq<byte>, archiveId: int32, groupId: int32, b: nat) {
    match ReadAt(d0, b * DataBlockSize, HeaderSize(groupId))
    case None => false
    case Some(buf) =>
      var header := DecodeHeader(groupId, buf);
      header.group != groupId || header.archive != archiveId
  }

  /** `store` may write block `b`: one not of another entry, or block 0 for an id above 65535. */
  predicate Allowed(d0: seq<byte>, archiveId: int32, groupId: int32, b: nat) {
    !Foreign(d0, archiveId, groupId, b) || (groupId > 65535 && b == 0)
  }

  /** Byte `i` of the old file `d0` differs in `d`. */
  ghost predicate Changed(d0: seq<byte>, d: seq<byte>, i: nat) {
    i < |d0| && i < |d| && d[i] != d0[i]
  }

  /** `d` differs from `d0` only in blocks `store` may write, and only grew. */
  ghost predicate Kept(d0: seq<byte>, d: seq<byte>, archiveId: int32, groupId: int32) {
    |d0| <= |d| && forall i: nat {:trigger Changed(d0, d, i)} :: Changed(d0, d, i) ==> Allowed(d0, archiveId, groupId, i / DataBlockSize)
  }

  /** A block whose header passes `store`'s check, in a file changed only in allowed blocks, was not another entry's. */
  lemma CheckedAllowed(d0: seq<byte>, d: seq<byte>, archiveId: int32, groupId: int32, block: nat, chunk: nat)
    requires Kept(d0, d, archiveId, groupId)
    requires CheckBlock(d, archiveId, groupId, block, chunk).Some?
    ensures Allowed(d0, archiveId, groupId, block)
  {
    var p := block * DataBlockSize;
    var h := HeaderSize(groupId);
    if p + h <= |d0| && d0[p..p + h] != d[p..p + h] {
      var j :| p <= j < p + h && d0[j] != d[j];
      assert Changed(d0, d, j);
      assert j / DataBlockSize == block;
    }
  }

  /** Writing at most one block's worth of bytes at the start of a block that is allowed, or past the end, keeps `Kept`. */
  lemma WriteFrame(d0: seq<byte>, d: seq<byte>, archiveId: int32, groupId: int32, block: nat, bytes: seq<byte>)
    requires Kept(d0, d, archiveId, groupId)
    requires |bytes| <= DataBlockSize
    requires Allowed(d0, archiveId, groupId, block) || block * DataBlockSize >= |d|
    ensures Kept(d0, WriteAt(d, block * DataBlockSize, bytes), archiveId, groupId)
  {
    var p := block * DataBlockSize;
    var r := WriteAt(d, p, bytes);
    forall i: nat | Changed(d0, r, i)
      ensures Allowed(d0, archiveId, groupId, i / DataBlockSize)
    {
      WriteAtByte(d, p, bytes, i);
      if p <= i < p + |bytes| {
        assert i / DataBlockSize == block;
      } else {
        assert Changed(d0, d, i);
      }
    }
  }

  /** One turn writes only allowed blocks. */
  lemma TurnFrame(d0: seq<byte>, d: seq<byte>, archiveId: int32, groupId: int32, payload: seq<byte>, offset: nat,
                  chunk: nat, block: nat, overwrite: bool)
    requires offset < |payload|
    requires Kept(d0, d, archiveId, groupId)
    requires !overwrite ==> FreshAt(d, block) && (block == 0 ==> groupId > 65535)
    requires StoreTurn(d, archiveId, groupId, payload, offset, chunk, block, overwrite).Some?
    ensures Kept(d0, StoreTurn(d, archiveId, groupId, payload, offset, chunk, block, overwrite).value.data, archiveId, groupId)
  {
    var t := StoreTurn(d, archiveId, groupId, payload, offset, chunk, block, overwrite).value;
    var bytes := EncodeHeader(groupId, chunk, t.next, archiveId) + payload[offset..offset + t.written];
    TurnWrite(d, archiveId, groupId, payload, offset, chunk, block, overwrite);
    if overwrite {
      CheckedAllowed(d0, d, archiveId, groupId, block, chunk);
    }
    WriteFrame(d0, d, archiveId, groupId, block, bytes);
  }


  /** The block loop, ending with data file `w`, writes only allowed blocks. */
  lemma {:induction false} ChainFrame(d0: seq<byte>, d: seq<byte>, archiveId: int32, groupId: int32, payload: seq<byte>,
                                       offset: nat, chunk: nat, block: nat, overwrite: bool, w: seq<byte>)
    requires offset <= |payload|
    requires w == Chain(d, archiveId, groupId, payload, offset, chunk, block, overwrite).data
    requires Kept(d0, d, archiveId, groupId)
    requires !overwrite ==> FreshAt(d, block)
    requires !overwrite && block == 0 && offset < |payload| ==> groupId > 65535
    ensures Kept(d0, w, archiveId, groupId)
    decreases |payload| - offset
  {
    if offset < |payload| {
      ChainStep(d, archiveId, groupId, payload, offset, chunk, block, overwrite);
      var turn := StoreTurn(d, archiveId, groupId, payload, offset, chunk, block, overwrite);
      if turn.Some? {
        var t := turn.value;
        TurnInvariant(d, archiveId, groupId, payload, offset, chunk, block, overwrite);
        TurnFrame(d0, d, archiveId, groupId, payload, offset, chunk, block, overwrite);
        ChainFrame(d0, t.data, archiveId, groupId, payload, offset + t.written, chunk + 1, t.next, t.overwrite, w);
      }
    }
  }

  /** A turn takes `Min(rest, content size)` bytes, one turn's worth. */
  lemma TurnsStep(groupId: int32, rest: nat, written: nat)
    requires rest > 0 && written == Min(rest, ContentSize(groupId))
    ensures Turns(groupId, rest - written) + 1 == Turns(groupId, rest)
  {
  }

  /** A pass writes the pointer file only at `groupId * 6`, and the data file only in allowed blocks. */
  lemma PassFrame(d0: seq<byte>, f: Files, archiveId: int32, groupId: int32, payload: seq<byte>, overwrite: bool)
    requires Kept(d0, f.data, archiveId, groupId)
    ensures var g := Pass(f, archiveId, groupId, payload, overwrite).files;
      Kept(d0, g.data, archiveId, groupId) && |g.data| <= |f.data| + 1040 * Turns(groupId, |payload|)
      && (g.index == f.index || (IndexOffset(groupId) >= 0 && exists b :: g.index == WriteAt(f.index, IndexOffset(groupId), Record(|payload|, b))))
  {
    var first := FirstBlock(f, groupId, overwrite);
    if first.Some? && IndexOffset(groupId) >= 0 {
      var w := Chain(f.data, archiveId, groupId, payload, 0, 0, first.value, overwrite).data;
      ChainFrame(d0, f.data, archiveId, groupId, payload, 0, 0, first.value, overwrite, w);
    }
  }

  /** `WriteAt` changes a file only in the range it writes. */
  lemma WriteAtOnly(f: seq<byte>, pos: nat, bs: seq<byte>, i: nat)
    requires i < |f| && !(pos <= i < pos + |bs|)
    ensures WriteAt(f, pos, bs)[i] == f[i]
  {
    WriteAtByte(f, pos, bs, i);
  }

  /**
   * `store` never touches another entry: the pointer file changes only in the
   * group's own record, and the data file only beyond its old end or in
   * blocks whose header names this group and archive (and, for an id above
   * 65535, in block 0).  As for the round trip, the data file is small
   * enough that no block offset reaches 2^31.
   */
  lemma StoreFrame(f: Files, archiveId: int32, groupId: int32, payload: seq<byte>)
    requires |f.data| + 2080 * (Turns(groupId, |payload|) + 1) < 0x8000_0000
    ensures var g := StoredFiles(f, archiveId, groupId, payload);
      |f.index| <= |g.index| && |f.data| <= |g.data|
      && (forall i :: 0 <= i < |f.index| && !(IndexOffset(groupId) <= i < IndexOffset(groupId) + IndexBlockSize)
            ==> g.index[i] == f.index[i])
      && (forall i :: 0 <= i < |f.data| && Foreign(f.data, archiveId, groupId, i / DataBlockSize) && !(groupId > 65535 && i < DataBlockSize)
            ==> g.data[i] == f.data[i])
  {
    var first := Pass(f, archiveId, groupId, payload, true);
    PassFrame(f.data, f, archiveId, groupId, payload, true);
    var second := Pass(first.files, archiveId, groupId, payload, false);
    PassFrame(f.data, first.files, archiveId, groupId, payload, false);
    var g := StoredFiles(f, archiveId, groupId, payload);
    forall i | 0 <= i < |f.index| && !(IndexOffset(groupId) <= i < IndexOffset(groupId) + IndexBlockSize)
      ensures first.files.index[i] == f.index[i] && |f.index| <= |first.files.index|
    {
      if first.files.index != f.index {
        var b :| first.files.index == WriteAt(f.index, IndexOffset(groupId), Record(|payload|, b));
        WriteAtOnly(f.index, IndexOffset(groupId), Record(|payload|, b), i);
      }
    }
    forall i | 0 <= i < |f.index| && !(IndexOffset(groupId) <= i < IndexOffset(groupId) + IndexBlockSize)
      ensures g.index[i] == f.index[i]
    {
      if !first.ok && second.files.index != first.files.index {
        var b :| second.files.index == WriteAt(first.files.index, IndexOffset(groupId), Record(|payload|, b));
        WriteAtOnly(first.files.index, IndexOffset(groupId), Record(|payload|, b), i);
      }
    }
    assert Kept(f.data, g.data, archiveId, groupId);
    forall i | 0 <= i < |f.data| && Foreign(f.data, archiveId, groupId, i / DataBlockSize) && !(groupId > 65535 && i < DataBlockSize)
      ensures g.data[i] == f.data[i]
    {
      assert !Changed(f.data, g.data, i);
    }
  }

  /*
   * The round trip, for ids up to 65535: a chain `store` wrote holds the
   * group piece by piece, 512 bytes to a block, and `load` reads it back.
   */

  /** The most data file bytes the round trip is stated for: room for every block number in three bytes. */
  const Cap: nat := 0x2_0000_0000

  /** Piece `k` of a group: the bytes the `k`-th block of its chain holds. */
  function Piece(payload: seq<byte>, k: nat): (r: seq<byte>)
    requires 512 * k < |payload|
    ensures 0 < |r| == Min(|payload| - 512 * k, 512)
  {
    payload[512 * k..512 * k + Min(|payload| - 512 * k, 512)]
  }

  /** Block number `k` of `blocks`, or `last` past their end. */
  function At(blocks: seq<nat>, k: nat, last: nat): nat {
    if k < |blocks| then blocks[k] else last
  }

  /** The block after block number `k` of `blocks`, the one its header points to. */
  function Link(blocks: seq<nat>, k: nat, last: nat): nat {
    At(blocks, k + 1, last)
  }

  /** Block `b` of the data file `d` holds piece `k` of `payload`, with the next pointer `next`. */
  ghost predicate Holds(d: seq<byte>, archiveId: int32, groupId: int32, payload: seq<byte>, b: nat, k: nat, next: nat) {
    0 < b && 512 * k < |payload| &&
    ReadAt(d, b * DataBlockSize, |Piece(payload, k)| + SmallHeaderSize)
      == Some(EncodeHeader(groupId, k, next, archiveId) + Piece(payload, k))
  }

  /** The blocks `blocks` hold the first `|blocks|` pieces of `payload` in order, the last pointing to `last`. */
  ghost predicate Laid(d: seq<byte>, archiveId: int32, groupId: int32, payload: seq<byte>, blocks: seq<nat>, last: nat) {
    forall i {:trigger Link(blocks, i, last)} :: 0 <= i < |blocks| ==>
      Holds(d, archiveId, groupId, payload, blocks[i], i, Link(blocks, i, last))
  }

  /** A laid block is inside the data file, so its number fits three bytes, and its header reads back. */
  lemma LaidHeader(d: seq<byte>, archiveId: int32, groupId: int32, payload: seq<byte>, blocks: seq<nat>, last: nat, i: nat)
    requires 0 <= groupId <= 65535 && 0 <= archiveId < 0x100 && |payload| < 0x100_0000
    requires |d| <= Cap && last < 0x100_0000
    requires Laid(d, archiveId, groupId, payload, blocks, last) && i < |blocks|
    ensures 0 < blocks[i] <= |d| / DataBlockSize && blocks[i] < 0x100_0000
    ensures Link(blocks, i, last) < 0x100_0000
    ensures blocks[i] * DataBlockSize + SmallHeaderSize <= |d|
    ensures DecodeHeader(groupId, d[blocks[i] * DataBlockSize..blocks[i] * DataBlockSize + SmallHeaderSize])
         == BlockHeader(groupId, i, Link(blocks, i, last), archiveId)
  {
    var next := Link(blocks, i, last);
    assert Holds(d, archiveId, groupId, payload, blocks[i], i, next);
    if i + 1 < |blocks| {
      assert Holds(d, archiveId, groupId, payload, blocks[i + 1], i + 1, Link(blocks, i + 1, last));
    }
    var p := blocks[i] * DataBlockSize;
    var header := EncodeHeader(groupId, i, next, archiveId);
    var full := d[p..p + |Piece(payload, i)| + SmallHeaderSize];
    assert full == header + Piece(payload, i);
    assert d[p..p + SmallHeaderSize] == full[..SmallHeaderSize] == header + [];
    HeaderRoundTrip(groupId, i, next, archiveId, []);
  }

  /** `load` reads a laid block as its piece and its next pointer. */
  lemma ReadBlockLaid(d: seq<byte>, archiveId: int32, groupId: int32, payload: seq<byte>, blocks: seq<nat>, k: nat)
    requires 0 <= groupId <= 65535 && 0 <= archiveId < 0x100 && |payload| < 0x100_0000
    requires |d| <= Cap
    requires Laid(d, archiveId, groupId, payload, blocks, 0) && k < |blocks|
    ensures 512 * k < |payload|
    ensures ReadBlock(d, archiveId, groupId, blocks[k], k, Min(|payload| - 512 * k, ContentSize(groupId)))
         == Some(Step(Link(blocks, k, 0), Piece(payload, k)))
  {
    var next := Link(blocks, k, 0);
    assert Holds(d, archiveId, groupId, payload, blocks[k], k, next);
    LaidHeader(d, archiveId, groupId, payload, blocks, 0, k);
    if k + 1 < |blocks| {
      LaidHeader(d, archiveId, groupId, payload, blocks, 0, k + 1);
    }
    var piece := Piece(payload, k);
    var bytes := EncodeHeader(groupId, k, next, archiveId) + piece;
    HeaderRoundTrip(groupId, k, next, archiveId, piece);
    assert bytes[SmallHeaderSize..] == piece;
    ReadBlockOf(d, archiveId, groupId, blocks[k], k, |piece|, bytes);
  }


  /** `load`'s walk from laid block `k`, with the first `k` pieces gathered, ends with the whole group. */
  lemma {:induction false} WalkLaid(d: seq<byte>, archiveId: int32, groupId: int32, payload: seq<byte>, blocks: seq<nat>,
                                     k: nat)
    requires 0 <= groupId <= 65535 && 0 <= archiveId < 0x100 && |payload| < 0x100_0000
    requires |d| <= Cap
    requires Laid(d, archiveId, groupId, payload, blocks, 0)
    requires |payload| <= 512 * |blocks| && k <= |blocks|
    ensures Walk(d, archiveId, groupId, |payload|, At(blocks, k, 0), k, payload[..Min(512 * k, |payload|)]) == Some(payload)
    decreases |blocks| - k
  {
    var acc := payload[..Min(512 * k, |payload|)];
    if k == |blocks| {
      assert acc == payload;
    } else {
      ReadBlockLaid(d, archiveId, groupId, payload, blocks, k);
      WalkStep(d, archiveId, groupId, |payload|, blocks[k], k, acc);
      WalkLaid(d, archiveId, groupId, payload, blocks, k + 1);
      PiecesAppend(payload, k);
    }
  }

  /** The first `k` pieces and piece `k` make the first `k + 1` pieces. */
  lemma PiecesAppend(payload: seq<byte>, k: nat)
    requires 512 * k < |payload|
    ensures payload[..Min(512 * k, |payload|)] + Piece(payload, k) == payload[..Min(512 * (k + 1), |payload|)]
  {
    var n := Min(512 * (k + 1), |payload|);
    assert payload[..n] == payload[..512 * k] + payload[512 * k..n];
  }

  /** A write that misses every laid block keeps them laid. */
  lemma LaidAfterWrite(d: seq<byte>, archiveId: int32, groupId: int32, payload: seq<byte>, blocks: seq<nat>, last: nat,
                       block: nat, bytes: seq<byte>)
    requires Laid(d, archiveId, groupId, payload, blocks, last)
    requires |bytes| <= DataBlockSize
    requires forall i :: 0 <= i < |blocks| ==> blocks[i] != block
    ensures Laid(WriteAt(d, block * DataBlockSize, bytes), archiveId, groupId, payload, blocks, last)
  {
    var d' := WriteAt(d, block * DataBlockSize, bytes);
    forall i | 0 <= i < |blocks|
      ensures Holds(d', archiveId, groupId, payload, blocks[i], i, Link(blocks, i, last))
    {
      assert Holds(d, archiveId, groupId, payload, blocks[i], i, Link(blocks, i, last));
      ReadElsewhere(d, block * DataBlockSize, bytes, blocks[i] * DataBlockSize, |Piece(payload, i)| + SmallHeaderSize);
    }
  }

  /** A block holding the next piece extends the laid chain. */
  lemma LaidExtend(d: seq<byte>, archiveId: int32, groupId: int32, payload: seq<byte>, blocks: seq<nat>, block: nat,
                   next: nat)
    requires Laid(d, archiveId, groupId, payload, blocks, block)
    requires Holds(d, archiveId, groupId, payload, block, |blocks|, next)
    ensures Laid(d, archiveId, groupId, payload, blocks + [block], next)
  {
    var blocks' := blocks + [block];
    forall i | 0 <= i < |blocks'|
      ensures Holds(d, archiveId, groupId, payload, blocks'[i], i, Link(blocks', i, next))
    {
      if i < |blocks| {
        assert Link(blocks', i, next) == Link(blocks, i, block);
        assert Holds(d, archiveId, groupId, payload, blocks[i], i, Link(blocks, i, block));
      }
    }
  }

  /**
   * Where `store`'s loop stands for the round trip after `|blocks|` turns: the
   * blocks so far are laid and point to `block`, which is where the file ends
   * when not overwriting, is 0 exactly when the group is all written, and the
   * file stays within `Cap` for the turns still to come.
   */
  ghost predicate Laying(d: seq<byte>, archiveId: int32, groupId: int32, payload: seq<byte>, blocks: seq<nat>, block: nat,
                         overwrite: bool) {
    var offset := Min(512 * |blocks|, |payload|);
    Laid(d, archiveId, groupId, payload, blocks, block)
    && InReach(|d|, block)
    && (!overwrite ==> FreshAt(d, block))
    && |d| + 1040 * Turns(groupId, |payload| - offset) <= Cap
    && (offset < |payload| <==> block > 0)
  }

  /** The block a turn writes is none of the laid ones: its header names a later chunk, or it lies past the end. */
  lemma NotLaid(d: seq<byte>, archiveId: int32, groupId: int32, payload: seq<byte>, blocks: seq<nat>, block: nat,
                overwrite: bool)
    requires 0 <= groupId <= 65535 && 0 <= archiveId < 0x100 && |payload| < 0x100_0000
    requires Laying(d, archiveId, groupId, payload, blocks, block, overwrite) && 0 < block
    requires overwrite ==> CheckBlock(d, archiveId, groupId, block, |blocks|).Some?
    ensures forall i :: 0 <= i < |blocks| ==> blocks[i] != block
  {
    forall i | 0 <= i < |blocks|
      ensures blocks[i] != block
    {
      assert FreshBlock(|d|) < 0x100_0000;
      LaidHeader(d, archiveId, groupId, payload, blocks, block, i);
    }
  }

  /** The turn at laid block count `|blocks|` writes the next piece to `block`, pointing to the turn's next block. */
  lemma TurnLaid(d: seq<byte>, archiveId: int32, groupId: int32, payload: seq<byte>, blocks: seq<nat>, block: nat,
                 overwrite: bool)
    requires 0 <= groupId <= 65535 && 0 <= archiveId < 0x100 && |payload| < 0x100_0000
    requires Laying(d, archiveId, groupId, payload, blocks, block, overwrite)
    requires 512 * |blocks| < |payload|
    requires StoreTurn(d, archiveId, groupId, payload, 512 * |blocks|, |blocks|, block, overwrite).Some?
    ensures var t := StoreTurn(d, archiveId, groupId, payload, 512 * |blocks|, |blocks|, block, overwrite).value;
      Laid(t.data, archiveId, groupId, payload, blocks + [block], t.next)
  {
    var k := |blocks|;
    var t := StoreTurn(d, archiveId, groupId, payload, 512 * k, k, block, overwrite).value;
    NotLaid(d, archiveId, groupId, payload, blocks, block, overwrite);
    var bytes := EncodeHeader(groupId, k, t.next, archiveId) + Piece(payload, k);
    TurnWrite(d, archiveId, groupId, payload, 512 * k, k, block, overwrite);
    assert payload[512 * k..512 * k + t.written] == Piece(payload, k);
    LaidAfterWrite(d, archiveId, groupId, payload, blocks, block, block, bytes);
    ReadWritten(d, block * DataBlockSize, bytes, |bytes|);
    assert bytes[..|bytes|] == bytes;
    assert Holds(t.data, archiveId, groupId, payload, block, k, t.next);
    LaidExtend(t.data, archiveId, groupId, payload, blocks, block, t.next);
  }

  /** One turn keeps `Laying`, with one more laid block. */
  lemma LayingStep(d: seq<byte>, archiveId: int32, groupId: int32, payload: seq<byte>, blocks: seq<nat>, block: nat,
                   overwrite: bool)
    requires 0 <= groupId <= 65535 && 0 <= archiveId < 0x100 && |payload| < 0x100_0000
    requires Laying(d, archiveId, groupId, payload, blocks, block, overwrite)
    requires 512 * |blocks| < |payload|
    requires StoreTurn(d, archiveId, groupId, payload, 512 * |blocks|, |blocks|, block, overwrite).Some?
    ensures var t := StoreTurn(d, archiveId, groupId, payload, 512 * |blocks|, |blocks|, block, overwrite).value;
      512 * |blocks| + t.written == Min(512 * (|blocks| + 1), |payload|)
      && Laying(t.data, archiveId, groupId, payload, blocks + [block], t.next, t.overwrite)
  {
    var k := |blocks|;
    var offset := 512 * k;
    var t := StoreTurn(d, archiveId, groupId, payload, offset, k, block, overwrite).value;
    TurnLaid(d, archiveId, groupId, payload, blocks, block, overwrite);
    TurnInvariant(d, archiveId, groupId, payload, offset, k, block, overwrite);
    TurnsStep(groupId, |payload| - offset, t.written);
    assert |payload| - Min(512 * (k + 1), |payload|) == |payload| - offset - t.written;
  }

  /** A turn of a loop that runs to the end leads to a `Laying` state with one more laid block and the same outcome. */
  lemma LayingTurn(d: seq<byte>, archiveId: int32, groupId: int32, payload: seq<byte>, blocks: seq<nat>, offset: nat,
                   chunk: nat, block: nat, overwrite: bool, w: Written)
    returns (d': seq<byte>, offset': nat, chunk': nat, block': nat, overwrite': bool)
    requires 0 <= groupId <= 65535 && 0 <= archiveId < 0x100 && 0 < |payload| < 0x100_0000
    requires Laying(d, archiveId, groupId, payload, blocks, block, overwrite)
    requires offset == Min(512 * |blocks|, |payload|) < |payload| && chunk == |blocks|
    requires w == Chain(d, archiveId, groupId, payload, offset, chunk, block, overwrite) && w.ok
    ensures Laying(d', archiveId, groupId, payload, blocks + [block], block', overwrite')
    ensures offset' == Min(512 * |blocks + [block]|, |payload|) && chunk' == |blocks + [block]|
    ensures w == Chain(d', archiveId, groupId, payload, offset', chunk', block', overwrite')
    ensures offset < offset'
  {
    d', offset', block', overwrite' := ChainNext(d, archiveId, groupId, payload, offset, chunk, block, overwrite, w);
    LayingStep(d, archiveId, groupId, payload, blocks, block, overwrite);
    assert |blocks + [block]| == |blocks| + 1;
    chunk' := chunk + 1;
  }

  /** From a `Laying` state, a loop that runs to the end leaves a chain `load` reads back from its first block. */
  lemma {:induction false} ChainLays(d: seq<byte>, archiveId: int32, groupId: int32, payload: seq<byte>, blocks: seq<nat>,
                                      offset: nat, chunk: nat, block: nat, overwrite: bool, w: Written)
    requires 0 <= groupId <= 65535 && 0 <= archiveId < 0x100 && 0 < |payload| < 0x100_0000
    requires Laying(d, archiveId, groupId, payload, blocks, block, overwrite)
    requires offset == Min(512 * |blocks|, |payload|) && chunk == |blocks|
    requires w == Chain(d, archiveId, groupId, payload, offset, chunk, block, overwrite) && w.ok
    ensures 0 < At(blocks, 0, block) <= |w.data| / DataBlockSize
    ensures Walk(w.data, archiveId, groupId, |payload|, At(blocks, 0, block), 0, []) == Some(payload)
    decreases |payload| - offset
  {
    if offset < |payload| {
      var d', offset', chunk', block', overwrite' :=
        LayingTurn(d, archiveId, groupId, payload, blocks, offset, chunk, block, overwrite, w);
      ChainLays(d', archiveId, groupId, payload, blocks + [block], offset', chunk', block', overwrite', w);
    } else {
      assert block == 0 && w.data == d && |blocks| > 0;
      LaidHeader(d, archiveId, groupId, payload, blocks, 0, 0);
      WalkLaid(d, archiveId, groupId, payload, blocks, 0);
      assert payload[..Min(512 * 0, |payload|)] == [];
    }
  }

  /** `IndexOffset` is the plain product for an id up to 65535. */
  lemma IndexOffsetSmall(groupId: int32)
    requires 0 <= groupId <= 65535
    ensures IndexOffset(groupId) == groupId * IndexBlockSize
  {
  }

  /** A pass starts in a `Laying` state at its first block, which fits the record's three bytes. */
  lemma FirstLaying(f: Files, archiveId: int32, groupId: int32, payload: seq<byte>, overwrite: bool)
    requires 0 <= groupId <= 65535 && 0 <= archiveId < 0x100 && 0 < |payload| < 0x100_0000
    requires |f.data| + 1040 * Turns(groupId, |payload|) <= Cap
    requires FirstBlock(f, groupId, overwrite).Some?
    ensures Laying(f.data, archiveId, groupId, payload, [], FirstBlock(f, groupId, overwrite).value, overwrite)
    ensures FirstBlock(f, groupId, overwrite).value < 0x100_0000
  {
    assert FreshBlock(|f.data|) < 0x100_0000;
  }

  /** The pointer record a pass writes is read back by `load`. */
  lemma RecordWritten(index: seq<byte>, off: nat, size: nat, block: nat)
    requires size < 0x100_0000 && block < 0x100_0000
    ensures |WriteAt(index, off, Record(size, block))| >= off + IndexBlockSize
    ensures ReadAt(WriteAt(index, off, Record(size, block)), off, IndexBlockSize) == Some(Record(size, block))
    ensures G3(Record(size, block), 0) == size && G3(Record(size, block), 3) == block
  {
    var record := Record(size, block);
    ReadWritten(index, off, record, IndexBlockSize);
    assert record[..IndexBlockSize] == record;
    RecordRoundTrip(size, block);
  }

  /** A pass that succeeds, with room in the data file, leaves the group where `load` finds it. */
  lemma PassRoundTrip(f: Files, archiveId: int32, groupId: int32, payload: seq<byte>, overwrite: bool)
    requires 0 <= groupId <= 65535 && 0 <= archiveId < 0x100 && 0 < |payload| < 0x100_0000
    requires |f.data| + 1040 * Turns(groupId, |payload|) <= Cap
    requires Pass(f, archiveId, groupId, payload, overwrite).ok
    ensures Loaded(Pass(f, archiveId, groupId, payload, overwrite).files, archiveId, groupId) == Some(payload)
  {
    IndexOffsetSmall(groupId);
    var off := IndexOffset(groupId);
    var first := FirstBlock(f, groupId, overwrite).value;
    var w := Chain(f.data, archiveId, groupId, payload, 0, 0, first, overwrite);
    FirstLaying(f, archiveId, groupId, payload, overwrite);
    ChainLays(f.data, archiveId, groupId, payload, [], 0, 0, first, overwrite, w);
    RecordWritten(f.index, off, |payload|, first);
  }

  /**
   * `store` then `load` gives the group back, for an id up to 65535, an
   * archive id that fits its byte, a non-empty group shorter than 2^24
   * bytes, and a data file small enough that no block offset `block * 520`
   * of either pass reaches 2^31.
   */
  lemma StoreRoundTrip(f: Files, archiveId: int32, groupId: int32, payload: seq<byte>)
    requires 0 <= groupId <= 65535 && 0 <= archiveId < 0x100 && 0 < |payload| < 0x100_0000
    requires |f.data| + 2080 * (Turns(groupId, |payload|) + 1) < 0x8000_0000
    ensures Loaded(StoredFiles(f, archiveId, groupId, payload), archiveId, groupId) == Some(payload)
  {
    TurnsBound(groupId, |payload|);
    var first := Pass(f, archiveId, groupId, payload, true);
    if first.ok {
      PassRoundTrip(f, archiveId, groupId, payload, true);
    } else {
      PassFrame(f.data, f, archiveId, groupId, payload, true);
      IndexOffsetSmall(groupId);
      FreshPass(first.files, archiveId, groupId, payload);
      PassRoundTrip(first.files, archiveId, groupId, payload, false);
    }
  }

  /**
   * Line 225 ends the chain when at most 512 bytes remain, the content of a
   * small block.  For an id above 65535 a block holds only 510, so with 511
   * or 512 bytes left a turn writes 510 of them and points at block 0.
   */
  lemma StoreTurnEndsEarly(d: seq<byte>, archiveId: int32, groupId: int32, payload: seq<byte>, offset: nat, chunk: nat,
                           block: nat, overwrite: bool)
    requires groupId > 65535 && offset < |payload| && LargeContentSize < |payload| - offset <= SmallContentSize
    requires StoreTurn(d, archiveId, groupId, payload, offset, chunk, block, overwrite).Some?
    ensures StoreTurn(d, archiveId, groupId, payload, offset, chunk, block, overwrite).value.next == 0
    ensures StoreTurn(d, archiveId, groupId, payload, offset, chunk, block, overwrite).value.written < |payload| - offset
  {
  }

  /**
   * The effect: storing 511 bytes under id 65536 into two empty files.  The
   * fresh pass writes 510 bytes to block 1, pointing at block 0, and the
   * last byte into block 0 itself; `load` then meets block 0 with a byte
   * still to read and returns null.
   */
  lemma StoreLosesTail()
    ensures Loaded(StoredFiles(Files([], []), 0, 65536, seq(511, _ => 0)), 0, 65536) == None
  {
    var f := Files([], []);
    var payload: seq<byte> := seq(511, _ => 0);
    var id: int32 := 65536;
    assert IndexOffset(id) == 393216;
    assert Pass(f, 0, id, payload, true) == Stored(false, f);
    assert FirstBlock(f, id, false) == Some(1);
    var index := WriteAt([], 393216, Record(511, 1));
    var h1 := EncodeHeader(id, 0, 0, 0);
    var d1 := WriteAt([], 520, h1 + payload[0..510]);
    TurnOf([], 0, id, payload, 0, 0, 1, false, 0, 0, 510, false);
    TurnOf(d1, 0, id, payload, 510, 1, 0, false, 0, 0, 1, false);
    var d2 := WriteAt(d1, 0, EncodeHeader(id, 1, 0, 0) + payload[510..511]);
    ChainStep([], 0, id, payload, 0, 0, 1, false);
    ChainStep(d1, 0, id, payload, 510, 1, 0, false);
    assert Chain([], 0, id, payload, 0, 0, 1, false) == Written(true, d2);
    assert StoredFiles(f, 0, id, payload) == Files(index, d2);
    RecordWritten([], 393216, 511, 1);
    ReadWritten([], 520, h1 + payload[0..510], 520);
    assert (h1 + payload[0..510])[..520] == h1 + payload[0..510];
    ReadElsewhere(d1, 0, EncodeHeader(id, 1, 0, 0) + payload[510..511], 520, 520);
    HeaderRoundTrip(id, 0, 0, 0, payload[0..510]);
    ReadBlockOf(d2, 0, id, 1, 0, 510, h1 + payload[0..510]);
    WalkStep(d2, 0, id, 511, 1, 0, []);
    WalkStep(d2, 0, id, 511, 0, 1, payload[0..510]);
  }

  /**
   * The turn line 225 evidently intends: the chain ends exactly when what
   * remains fits the block's own content size, 512 or 510 bytes.
   */
  function StoreTurnChecked(d: seq<byte>, archiveId: int32, groupId: int32, payload: seq<byte>, offset: nat, chunk: nat,
                            block: nat, overwrite: bool): (r: Option<Turn>)
    requires offset < |payload|
    ensures r.Some? ==> r.value.written == Min(|payload| - offset, ContentSize(groupId))
    ensures r.Some? ==> (r.value.next == 0 <==> r.value.written == |payload| - offset)
  {
    var found := if overwrite then CheckBlock(d, archiveId, groupId, block, chunk) else Some(0);
    if found.None? then None
    else
      var grown := if found.value == 0 then Allocate(|d|, block) else found.value;
      var next := if |payload| - offset <= ContentSize(groupId) then 0 else grown;
      var n := Min(|payload| - offset, ContentSize(groupId));
      var written := WriteAt(d, block * DataBlockSize, EncodeHeader(groupId, chunk, next, archiveId) + payload[offset..offset + n]);
      Some(Turn(written, next, n, overwrite && found.value != 0))
  }

  /** For an id up to 65535 the turn as written is the intended one, which is why the round trip holds there. */
  lemma StoreTurnAgrees(d: seq<byte>, archiveId: int32, groupId: int32, payload: seq<byte>, offset: nat, chunk: nat,
                        block: nat, overwrite: bool)
    requires groupId <= 65535 && offset < |payload|
    ensures StoreTurn(d, archiveId, groupId, payload, offset, chunk, block, overwrite)
         == StoreTurnChecked(d, archiveId, groupId, payload, offset, chunk, block, overwrite)
  {
  }

  /** `JavaFileStore`: a pointer file and a data file, and the archive it stores. */
  class JavaFileStore {
    const archiveId: int32
    const dataFile: RandomAccessFile
    const indexFile: RandomAccessFile

    constructor(archiveId: int32, dataFile: RandomAccessFile, indexFile: RandomAccessFile)
      requires dataFile != indexFile
      ensures this.archiveId == archiveId && this.dataFile == dataFile && this.indexFile == indexFile
      ensures Valid()
    {
      this.archiveId := archiveId;
      this.dataFile := dataFile;
      this.indexFile := indexFile;
    }

    /** The two files are distinct. */
    predicate Valid() {
      dataFile != indexFile
    }

    /** The contents of both files. */
    function State(): Files
      reads dataFile, indexFile
    {
      Files(indexFile.bytes, dataFile.bytes)
    }

    /** `load(groupId)`: the group's bytes, or `None` for Java's `null`. */
    method Load(groupId: int32) returns (r: Option<seq<byte>>)
      requires Valid()
      modifies dataFile, indexFile
      ensures State() == old(State())
      ensures r == Loaded(State(), archiveId, groupId)
    {
      var off := IndexOffset(groupId);
      if indexFile.Length() < WrapAdd(off, IndexBlockSize) {
        return None;
      }
      var ok := indexFile.Seek(off);
      if !ok {
        return None;
      }
      var record := indexFile.Read(IndexBlockSize);
      if record.None? {
        return None;
      }
      var size := G3(record.value, 0);
      var block := G3(record.value, 3);
      if block <= 0 || block > dataFile.Length() / DataBlockSize {
        return None;
      }
      var data := new byte[size];
      r := ReadChain(groupId, size, block, data);
    }

    /** `getGroupCount()`. */
    method GroupCount() returns (n: int32)
      ensures n == Groups(indexFile.bytes)
    {
      n := Wrap32(indexFile.Length() / IndexBlockSize);
    }

    /** `store(groupId, data)`. */
    method Store(groupId: int32, data: seq<byte>)
      requires Valid()
      modifies dataFile, indexFile
      ensures State() == StoredFiles(old(State()), archiveId, groupId, data)
    {
      var ok := StorePass(groupId, data, true);
      if !ok {
        ok := StorePass(groupId, data, false);
      }
    }

    /** `store(groupId, data, exists)`. */
    method StorePass(groupId: int32, data: seq<byte>, overwrite: bool) returns (ok: bool)
      requires Valid()
      modifies dataFile, indexFile
      ensures Stored(ok, State()) == Pass(old(State()), archiveId, groupId, data, overwrite)
    {
      var off := IndexOffset(groupId);
      var block: nat;
      if overwrite {
        if indexFile.Length() < WrapAdd(off, IndexBlockSize) {
          return false;
        }
        var sought := indexFile.Seek(off);
        if !sought {
          return false;
        }
        var record := indexFile.Read(IndexBlockSize);
        if record.None? {
          return false;
        }
        block := G3(record.value, 3);
        if block <= 0 || block > dataFile.Length() / DataBlockSize {
          return false;
        }
      } else {
        block := FreshBlock(dataFile.Length());
        if block == 0 {
          block := 1;
        }
      }
      var sought := indexFile.Seek(off);
      if !sought {
        return false;
      }
      indexFile.Write(Record(|data|, block));
      ok := WriteChain(groupId, data, block, overwrite);
    }

    /** The block loop of `store`, lines 180-257. */
    method WriteChain(groupId: int32, data: seq<byte>, first: nat, overwrite: bool) returns (ok: bool)
      modifies dataFile
      ensures Written(ok, dataFile.bytes) == Chain(old(dataFile.bytes), archiveId, groupId, data, 0, 0, first, overwrite)
    {
      ghost var target := Chain(dataFile.bytes, archiveId, groupId, data, 0, 0, first, overwrite);
      var offset: nat := 0;
      var chunk: nat := 0;
      var block: nat := first;
      var going := overwrite;
      while offset < |data|
        invariant offset <= |data|
        invariant Chain(dataFile.bytes, archiveId, groupId, data, offset, chunk, block, going) == target
        decreases |data| - offset
      {
        ChainStep(dataFile.bytes, archiveId, groupId, data, offset, chunk, block, going);
        var turn := WriteBlockAt(groupId, data, offset, chunk, block, going);
        if turn.None? {
          return false;
        }
        offset := offset + turn.value.written;
        block := turn.value.next;
        going := turn.value.overwrite;
        chunk := chunk + 1;
      }
      return true;
    }

    /** One turn of `store`'s loop: check the block when overwriting, pick the next one, write header and bytes. */
    method WriteBlockAt(groupId: int32, data: seq<byte>, offset: nat, chunk: nat, block: nat, overwrite: bool)
      returns (r: Option<Turn>)
      requires offset < |data|
      modifies dataFile
      ensures var t := StoreTurn(old(dataFile.bytes), archiveId, groupId, data, offset, chunk, block, overwrite);
        r == t && (r.None? ==> dataFile.bytes == old(dataFile.bytes)) && (r.Some? ==> dataFile.bytes == r.value.data)
    {
      ghost var d := dataFile.bytes;
      var found: nat := 0;
      if overwrite {
        var checked := CheckBlockAt(groupId, block, chunk);
        if checked.None? {
          return None;
        }
        found := checked.value;
      }
      assert (if overwrite then CheckBlock(d, archiveId, groupId, block, chunk) else Some(0)) == Some(found);
      var next := found;
      var keep := overwrite;
      if next == 0 {
        keep := false;
        next := FreshBlock(dataFile.Length());
        if next == 0 {
          next := next + 1;
        }
        if next == block {
          next := next + 1;
        }
        assert next == Allocate(|d|, block);
      }
      if |data| - offset <= SmallContentSize {
        next := 0;
      }
      var _ := dataFile.Seek(block * DataBlockSize);
      var header := EncodeHeader(groupId, chunk, next, archiveId);
      dataFile.Write(header);
      var n := Min(|data| - offset, ContentSize(groupId));
      dataFile.Write(data[offset..offset + n]);
      WriteTwice(d, block * DataBlockSize, header, data[offset..offset + n]);
      assert dataFile.bytes == WriteAt(d, block * DataBlockSize, header + data[offset..offset + n]);
      r := Some(Turn(dataFile.bytes, next, n, keep));
      TurnOf(d, archiveId, groupId, data, offset, chunk, block, overwrite, found, next, n, keep);
    }

    /** Lines 182-213: read the header of the block about to be overwritten and check it. */
    method CheckBlockAt(groupId: int32, block: nat, chunk: nat) returns (r: Option<nat>)
      modifies dataFile
      ensures dataFile.bytes == old(dataFile.bytes)
      ensures r == CheckBlock(dataFile.bytes, archiveId, groupId, block, chunk)
    {
      var _ := dataFile.Seek(block * DataBlockSize);
      var buf := dataFile.Read(HeaderSize(groupId));
      if buf.None? {
        return None;
      }
      var header := DecodeHeader(groupId, buf.value);
      if header.group != groupId || header.chunk != chunk || header.archive != archiveId {
        return None;
      }
      if header.next < 0 || header.next > dataFile.Length() / DataBlockSize {
        return None;
      }
      return Some(header.next);
    }

    /** The block loop of `load`, filling `data` chunk by chunk. */
    method ReadChain(groupId: int32, size: nat, first: nat, data: array<byte>) returns (r: Option<seq<byte>>)
      requires data.Length == size
      modifies dataFile, data
      ensures dataFile.bytes == old(dataFile.bytes)
      ensures r == Walk(dataFile.bytes, archiveId, groupId, size, first, 0, [])
    {
      ghost var bytes := dataFile.bytes;
      ghost var walk := Walk(bytes, archiveId, groupId, size, first, 0, []);
      ghost var acc: seq<byte> := [];
      var offset: nat := 0;
      var chunk: nat := 0;
      var block: nat := first;
      while offset < size
        invariant offset <= size && |acc| == offset
        invariant dataFile.bytes == bytes
        invariant data[..offset] == acc
        invariant Walk(bytes, archiveId, groupId, size, block, chunk, acc) == walk
        decreases size - offset
      {
        var next;
        next, acc := ReadPiece(groupId, size, block, chunk, data, offset, acc);
        if next.None? {
          return None;
        }
        offset := offset + Min(size - offset, ContentSize(groupId));
        block := next.value;
        chunk := chunk + 1;
      }
      WalkDone(bytes, archiveId, groupId, size, block, chunk, acc);
      assert data[..] == acc;
      return Some(data[..]);
    }

    /**
     * One turn of `load`'s loop: block `block` is read and its content copied
     * to `data` at `offset`; the result is its next pointer, and the walk
     * goes on from there with the bytes gathered so far in `acc'`.
     */
    method ReadPiece(groupId: int32, size: nat, block: nat, chunk: nat, data: array<byte>, offset: nat, ghost acc: seq<byte>)
      returns (r: Option<nat>, ghost acc': seq<byte>)
      requires offset < size == data.Length && |acc| == offset && data[..offset] == acc
      modifies dataFile, data
      ensures dataFile.bytes == old(dataFile.bytes)
      ensures r.None? ==> Walk(dataFile.bytes, archiveId, groupId, size, block, chunk, acc) == None
      ensures r.Some? ==>
        && |acc'| == offset + Min(size - offset, ContentSize(groupId)) && data[..|acc'|] == acc'
        && Walk(dataFile.bytes, archiveId, groupId, size, r.value, chunk + 1, acc')
           == Walk(dataFile.bytes, archiveId, groupId, size, block, chunk, acc)
    {
      var count := Min(size - offset, ContentSize(groupId));
      WalkStep(dataFile.bytes, archiveId, groupId, size, block, chunk, acc);
      var step := ReadBlockAt(groupId, block, chunk, count);
      if step.None? {
        return None, acc;
      }
      Copy(data, offset, step.value.content);
      return Some(step.value.next), acc + step.value.content;
    }

    /** One pass of `load`'s loop before the copy: seek to the block, read it, check its header. */
    method ReadBlockAt(groupId: int32, block: nat, chunk: nat, count: nat) returns (r: Option<Step>)
      modifies dataFile
      ensures dataFile.bytes == old(dataFile.bytes)
      ensures r == ReadBlock(dataFile.bytes, archiveId, groupId, block, chunk, count)
    {
      if block == 0 {
        return None;
      }
      var h := HeaderSize(groupId);
      var _ := dataFile.Seek(block * DataBlockSize);
      var buf := dataFile.Read(count + h);
      if buf.None? {
        return None;
      }
      var header := DecodeHeader(groupId, buf.value);
      if header.group != groupId || header.chunk != chunk || header.archive != archiveId {
        return None;
      }
      if header.next < 0 || header.next > dataFile.Length() / DataBlockSize {
        return None;
      }
      return Some(Step(header.next, buf.value[h..]));
    }
  }

  /** The walk ends once all `size` bytes are gathered. */
  lemma WalkDone(data: seq<byte>, archiveId: int32, groupId: int32, size: nat, block: nat, chunk: nat, acc: seq<byte>)
    requires |acc| == size
    ensures Walk(data, archiveId, groupId, size, block, chunk, acc) == Some(acc)
  {
  }

  /** `for (index = h; index < h + count; index++) data[offset++] = BUFFER[index]`. */
  method Copy(data: array<byte>, offset: nat, content: seq<byte>)
    requires offset + |content| <= data.Length
    modifies data
    ensures data[..offset + |content|] == old(data[..offset]) + content
  {
    var i := 0;
    while i < |content|
      invariant i <= |content|
      invariant data[..offset + i] == old(data[..offset]) + content[..i]
    {
      data[offset + i] := content[i];
      assert content[..i + 1] == content[..i] + [content[i]];
      i := i + 1;
    }
  }
}
