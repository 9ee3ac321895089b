/**
 * `PackFileSystem`: a whole cache in one file.  The file is the index chunk,
 * then one chunk per group the index lists, in ascending group id order.  A
 * chunk is framed as `[tag:1][len:4][payload]`, the payload `len` bytes long,
 * or `len + 4` when the tag is not 0 (the JS5 envelope's decompressed length).
 *
 * The index decoder does not exist in the code (`Index` is an empty class),
 * so which groups an index blob lists is a parameter: a `GroupTable` maps
 * the blob to one presence flag per group id, as `Index.getGroups()` would
 * (a non-null entry for each present group).
 */
module PackFileSystem {
  import opened Bytes
  import opened Wrappers
  import P = Packet

  /** The exceptions reading or writing the pack ends with. */
  datatype Error = EndOfFile | IllegalArgument | BufferOverflow | IndexOutOfBounds | NullPointer | NegativeArraySize

  /** A table of nullable blobs, indexed by group id. */
  type Slots = seq<Option<seq<byte>>>

  /** `index.decode(blob); index.getGroups()`: which group ids are present. */
  type GroupTable = seq<byte> -> seq<bool>

  /** The largest piece `readPackedChunk` reads at once, 32 MiB. */
  const Piece: nat := 0x200_0000

  /** A `DataInputStream` over the bytes of the pack file. */
  class InStream {
    const data: seq<byte>
    var pos: nat

    ghost predicate Valid()
      reads this
    {
      pos <= |data|
    }

    /** The bytes not yet read. */
    ghost function Rest(): seq<byte>
      reads this
      requires Valid()
    {
      data[pos..]
    }

    constructor(data: seq<byte>)
      ensures Valid() && this.data == data && pos == 0
    {
      this.data := data;
      pos := 0;
    }

    /** `read()`: the next byte, or -1 at the end. */
    method Read() returns (b: int)
      requires Valid()
      modifies this
      ensures Valid()
      ensures old(pos) < |data| ==> b == data[old(pos)] && pos == old(pos) + 1
      ensures old(pos) == |data| ==> b == -1 && pos == old(pos)
    {
      if pos == |data| {
        return -1;
      }
      b := data[pos];
      pos := pos + 1;
    }

    /** `readInt()`: four bytes, big-endian; fewer than four left is an EOFException. */
    method ReadInt() returns (v: int32, ok: bool)
      requires Valid()
      modifies this
      ensures Valid()
      ensures ok == (old(pos) + 4 <= |data|)
      ensures ok ==> v == Int32(data[old(pos)..old(pos) + 4]) && pos == old(pos) + 4
      ensures !ok ==> pos == |data|
    {
      if pos + 4 > |data| {
        pos := |data|;
        return 0, false;
      }
      v := Int32(data[pos..pos + 4]);
      pos := pos + 4;
      ok := true;
    }

    /**
     * `readFully(b, off, len)`: the next `len` bytes into `b[off..]`; when fewer
     * are left it stores those and throws EOFException.
     */
    method ReadFully(b: array<byte>, off: nat, len: nat) returns (ok: bool)
      requires Valid() && off + len <= b.Length
      modifies this, b
      ensures Valid()
      ensures ok == (old(pos) + len <= |data|)
      ensures ok ==> pos == old(pos) + len
      ensures !ok ==> pos == |data|
      ensures b[..] == old(b[..])[..off] + data[old(pos)..pos] + old(b[..])[off + (pos - old(pos))..]
    {
      var n := if pos + len <= |data| then len else |data| - pos;
      forall k | off <= k < off + n {
        b[k] := data[pos + k - off];
      }
      assert b[..] == old(b[..])[..off] + data[pos..pos + n] + old(b[..])[off + n..];
      pos := pos + n;
      ok := n == len;
    }
  }

  /** A `DataOutputStream`: what has been written to it so far. */
  class OutStream {
    var written: seq<byte>

    constructor()
      ensures written == []
    {
      written := [];
    }

    method Write(bs: seq<byte>)
      modifies this
      ensures written == old(written) + bs
    {
      written := written + bs;
    }
  }

  /**
   * The size of the buffer `readPackedChunk` fills for a chunk whose header
   * holds the tag `ctype` and the length `len`: `clen + 5` in Java `int`
   * arithmetic, with `clen` being `len`, or `len + 4` when the tag is not 0.
   * A negative size makes the allocation throw; one under 5 cannot take the
   * header back.
   */
  function BufferSize(ctype: byte, len: int32): (r: Result<nat, Error>)
    ensures r.Success? ==> r.value >= 5
  {
    var clen := if ctype != 0 then WrapAdd(len, 4) else len;
    Sized(WrapAdd(clen, 5))
  }

  /** Allocating a buffer of `size` bytes and putting the five header bytes into it. */
  function Sized(size: int32): (r: Result<nat, Error>)
    ensures r.Success? ==> r.value == size >= 5
  {
    if size < 0 then Failure(IllegalArgument)
    else if size < 5 then Failure(BufferOverflow)
    else Success(size)
  }

  /** What `readPackedChunk` returns on a stream of `data` positioned at `pos`. */
  function Chunk(data: seq<byte>, pos: nat): (r: Result<seq<byte>, Error>)
    requires pos <= |data|
    ensures r.Success? ==> 5 <= |r.value| && pos + |r.value| <= |data| && r.value == data[pos..pos + |r.value|]
  {
    if |data| - pos < 5 then Failure(EndOfFile)
    else
      match BufferSize(data[pos], Int32(data[pos + 1..pos + 5]))
      case Failure(e) => Failure(e)
      case Success(size) => if |data| - pos < size then Failure(EndOfFile) else Success(data[pos..pos + size])
  }

  /** A blob that is one whole chunk: its header announces exactly its length. */
  predicate Framed(c: seq<byte>) {
    |c| >= 5 && BufferSize(c[0], Int32(c[1..5])) == Success(|c|)
  }

  /** How far the group loop of `read` got: the slots of the ids it passed, the stream position, and the error it stopped at. */
  datatype Progress = Progress(slots: Slots, pos: nat, error: Option<Error>)

  /** The group loop of `read` over the first `k` ids, on a stream of `data` positioned at `start`. */
  function ReadGroups(data: seq<byte>, start: nat, present: seq<bool>, k: nat): (p: Progress)
    requires start <= |data| && k <= |present|
    ensures |p.slots| <= k && start <= p.pos <= |data|
    ensures p.error.None? ==> |p.slots| == k
    decreases k
  {
    if k == 0 then Progress([], start, None)
    else
      var p := ReadGroups(data, start, present, k - 1);
      if p.error.Some? then p
      else if !present[k - 1] then Progress(p.slots + [None], p.pos, None)
      else
        match Chunk(data, p.pos)
        case Failure(e) => Progress(p.slots, p.pos, Some(e))
        case Success(c) => Progress(p.slots + [Some(c)], p.pos + |c|, None)
  }

  /** What `read` makes of a stream of `data` positioned at `pos`: no index, or the index and how the group loop went. */
  datatype Loaded = NoIndex(error: Error) | Loaded(index: seq<byte>, groups: Progress)

  function Parsed(data: seq<byte>, pos: nat, table: GroupTable): Loaded
    requires pos <= |data|
  {
    match Chunk(data, pos)
    case Failure(e) => NoIndex(e)
    case Success(index) => Loaded(index, ReadGroups(data, pos + |index|, table(index), |table(index)|))
  }

  /** The group table after the group loop: the ids it passed, then null slots. */
  function Padded(p: Progress, count: nat): Slots
    requires |p.slots| <= count
  {
    p.slots + seq(count - |p.slots|, _ => None)
  }

  /** What `write` has sent so far, and the error it stopped at. */
  datatype Emitted = Emitted(bytes: seq<byte>, error: Option<Error>)

  /** The group loop of `write` over the first `k` ids. */
  function WriteGroups(slots: Slots, present: seq<bool>, k: nat): Emitted
    requires k <= |present|
    decreases k
  {
    if k == 0 then Emitted([], None)
    else
      var e := WriteGroups(slots, present, k - 1);
      if e.error.Some? || !present[k - 1] then e
      else if k - 1 >= |slots| then Emitted(e.bytes, Some(IndexOutOfBounds))
      else if slots[k - 1].None? then Emitted(e.bytes, Some(NullPointer))
      else Emitted(e.bytes + slots[k - 1].value, None)
  }

  /** What `write` sends: the index blob verbatim, then the present groups' blobs. */
  function Serialized(index: Option<seq<byte>>, slots: Slots, table: GroupTable): Emitted {
    if index.None? then Emitted([], Some(NullPointer))
    else
      var e := WriteGroups(slots, table(index.value), |table(index.value)|);
      Emitted(index.value + e.bytes, e.error)
  }

  /** The first `k` slots `read` restores from what `write` sent: the present groups' blobs, null elsewhere. */
  function Restored(slots: Slots, present: seq<bool>, k: nat): (r: Slots)
    requires k <= |present|
    ensures |r| == k
  {
    if k == 0 then [] else Restored(slots, present, k - 1) + [if present[k - 1] && k - 1 < |slots| then slots[k - 1] else None]
  }

  class PackFileSystem {
    var groupData: Slots
    var indexData: Option<seq<byte>>
    /** The index decoder that `read` and `write` consult. */
    const table: GroupTable

    /** An empty pack; the Java constructor goes on to `read` the file. */
    constructor(table: GroupTable)
      ensures this.table == table && groupData == [] && indexData == None
    {
      this.table := table;
      groupData := [];
      indexData := None;
    }

    /** `loadGroup(id)`: the slot, or `None` (null) for an id outside the table. */
    function LoadGroup(id: int32): (r: Option<seq<byte>>)
      reads this
      ensures id < 0 || id >= |groupData| ==> r == None
      ensures 0 <= id < |groupData| ==> r == groupData[id]
    {
      if id < 0 || id >= |groupData| then None else groupData[id]
    }

    /**
     * `storeGroup(id, data)`: grows the table with null slots to `id + 1`
     * when it is too short, then fills slot `id`.  A negative id indexes out
     * of bounds; `id + 1` overflows for the largest `int`.
     */
    method StoreGroup(id: int32, data: Option<seq<byte>>) returns (r: Option<Error>)
      modifies this
      ensures indexData == old(indexData)
      ensures id < 0 ==> r == Some(IndexOutOfBounds) && groupData == old(groupData)
      ensures id >= |old(groupData)| && id == 0x7FFF_FFFF ==> r == Some(NegativeArraySize) && groupData == old(groupData)
      ensures r.None? <==> 0 <= id && (id < |old(groupData)| || id < 0x7FFF_FFFF)
      ensures r.None? ==> |groupData| == if id < |old(groupData)| then |old(groupData)| else id + 1
      ensures r.None? ==> LoadGroup(id) == data
      ensures r.None? ==> forall j: int32 :: j != id ==> LoadGroup(j) == old(LoadGroup(j))
    {
      if id >= |groupData| {
        if id == 0x7FFF_FFFF {
          return Some(NegativeArraySize);
        }
        groupData := groupData + seq(id + 1 - |groupData|, _ => None);
      }
      if id < 0 {
        return Some(IndexOutOfBounds);
      }
      groupData := groupData[id := data];
      r := None;
    }

    /** `loadIndex()`. */
    function LoadIndex(): Option<seq<byte>>
      reads this
    {
      indexData
    }

    /** `storeIndex(data)`: `loadIndex` returns it until the next store; the groups stay. */
    method StoreIndex(data: Option<seq<byte>>)
      modifies this
      ensures LoadIndex() == data
      ensures groupData == old(groupData)
    {
      indexData := data;
    }

    /**
     * `readPackedChunk(stream)`: a buffer of `clen + 5` bytes holding the tag,
     * `len` and the next `clen` stream bytes, read in pieces of at most 32 MiB.
     * The tag and length are written back as read, so the buffer is a copy of
     * the next `clen + 5` bytes of the stream.
     */
    static method ReadPackedChunk(s: InStream) returns (r: Result<seq<byte>, Error>)
      requires s.Valid()
      modifies s
      ensures s.Valid()
      ensures r == Chunk(s.data, old(s.pos))
      ensures r.Success? ==> s.pos == old(s.pos) + |r.value|
    {
      ghost var p0 := s.pos;
      var ctype := s.Read();
      var clen, ok := s.ReadInt();
      if !ok {
        return Failure(EndOfFile);
      }
      HeaderFields(s.data, p0, ctype, clen);
      var len := clen;
      if ctype != 0 {
        clen := WrapAdd(clen, 4);
      }
      var size := WrapAdd(clen, 5);
      assert BufferSize(s.data[p0], Int32(s.data[p0 + 1..p0 + 5])) == Sized(size);
      if size < 0 {
        return Failure(IllegalArgument);
      }
      WrapSmall(clen, size);
      var data := new byte[size](_ => 0);
      var packet := new P.Packet(data);
      ok := PutHeader(packet, ctype, len);
      if !ok {
        return Failure(BufferOverflow);
      }
      assert packet.pos == 5 && packet.buffer[..packet.pos] == s.data[p0..p0 + 5];
      ghost var sp := s.pos;
      ok := ReadPieces(s, packet, clen);
      if !ok {
        return Failure(EndOfFile);
      }
      ChunkWhole(s.data, p0, size, packet.buffer[..]);
      return Success(packet.buffer[..]);
    }

    /** The `p1(ctype)` and `p4(len)` of `readPackedChunk`, into a fresh packet. */
    static method PutHeader(packet: P.Packet, ctype: int32, len: int32) returns (ok: bool)
      requires packet.Valid() && packet.pos == 0
      modifies packet, packet.buffer
      ensures packet.Valid()
      ensures ok == (packet.buffer.Length >= 5)
      ensures ok ==> packet.pos == 5 && packet.buffer[..5] == BigEndian(ctype, 1) + BigEndian(len, 4)
    {
      ghost var zeros := packet.buffer[..];
      ok := packet.P1(ctype);
      if !ok {
        return;
      }
      ghost var once := packet.buffer[..];
      ok := packet.P4(len);
      if !ok {
        return;
      }
      HeaderWritten(packet.buffer[..], once, zeros, BigEndian(ctype, 1), BigEndian(len, 4));
    }

    /**
     * The `readFully` calls of `readPackedChunk`: `clen` stream bytes into the
     * rest of the buffer, 32 MiB at a time, then the remainder.
     */
    static method ReadPieces(s: InStream, packet: P.Packet, clen: int32) returns (ok: bool)
      requires s.Valid() && packet.Valid() && 0 <= clen && packet.pos + clen == packet.buffer.Length
      modifies s, packet, packet.buffer
      ensures s.Valid()
      ensures ok == (old(s.pos) + clen <= |s.data|)
      ensures ok ==> s.pos == old(s.pos) + clen
      ensures ok ==> packet.buffer[..] == old(packet.buffer[..packet.pos]) + s.data[old(s.pos)..s.pos]
    {
      ghost var head, p0 := packet.buffer[..packet.pos], s.pos;
      var left := clen;
      while left > Piece
        invariant s.Valid() && packet.Valid() && packet.pos + left == packet.buffer.Length
        invariant p0 <= s.pos && s.pos - p0 + |head| == packet.pos
        invariant packet.buffer[..packet.pos] == head + s.data[p0..s.pos]
        decreases left
      {
        ok := ReadPiece(s, packet, Piece, head, p0);
        if !ok {
          return;
        }
        left := left - Piece;
      }
      ok := ReadPiece(s, packet, left, head, p0);
      if ok {
        assert packet.buffer[..] == packet.buffer[..packet.pos];
      }
    }

    /** One `readFully` into the packet at its position, followed by the position setter. */
    static method ReadPiece(s: InStream, packet: P.Packet, n: nat, ghost head: seq<byte>, ghost p0: nat)
      returns (ok: bool)
      requires s.Valid() && packet.Valid() && packet.pos + n <= packet.buffer.Length
      requires p0 <= s.pos && s.pos - p0 + |head| == packet.pos
      requires packet.buffer[..packet.pos] == head + s.data[p0..s.pos]
      modifies s, packet, packet.buffer
      ensures s.Valid() && packet.Valid()
      ensures ok == (old(s.pos) + n <= |s.data|)
      ensures ok ==> s.pos == old(s.pos) + n && packet.pos == old(packet.pos) + n
      ensures ok ==> p0 <= s.pos && s.pos - p0 + |head| == packet.pos
      ensures ok ==> packet.buffer[..packet.pos] == head + s.data[p0..s.pos]
    {
      ghost var before, at, sp := packet.buffer[..], packet.pos, s.pos;
      ok := s.ReadFully(packet.buffer, packet.pos, n);
      if !ok {
        return;
      }
      Extend(packet.buffer[..], before, at, s.data[sp..sp + n]);
      assert s.data[p0..sp] + s.data[sp..sp + n] == s.data[p0..sp + n];
      packet.pos := packet.pos + n;
    }

    /**
     * `read(stream)`: the index chunk, then, with a table of one null slot per
     * group the index lists, one chunk per present group in ascending id order.
     */
    method Read(s: InStream) returns (r: Option<Error>)
      requires s.Valid()
      modifies this, s
      ensures s.Valid()
      ensures Parsed(s.data, old(s.pos), table).NoIndex? ==>
        r == Some(Parsed(s.data, old(s.pos), table).error) && indexData == old(indexData) && groupData == old(groupData)
      ensures Parsed(s.data, old(s.pos), table).Loaded? ==>
        var loaded := Parsed(s.data, old(s.pos), table);
        indexData == Some(loaded.index) && r == loaded.groups.error &&
        groupData == Padded(loaded.groups, |table(loaded.index)|) &&
        (r.None? ==> s.pos == loaded.groups.pos)
    {
      var chunk := ReadPackedChunk(s);
      if chunk.Failure? {
        return Some(chunk.error);
      }
      indexData := Some(chunk.value);
      var present := table(chunk.value);
      r := ReadGroupChunks(s, present);
    }

    /** The group loop of `read`: a table of null slots, then one chunk per present group. */
    method ReadGroupChunks(s: InStream, present: seq<bool>) returns (r: Option<Error>)
      requires s.Valid()
      modifies this, s
      ensures s.Valid() && indexData == old(indexData)
      ensures r == ReadGroups(s.data, old(s.pos), present, |present|).error
      ensures groupData == Padded(ReadGroups(s.data, old(s.pos), present, |present|), |present|)
      ensures r.None? ==> s.pos == ReadGroups(s.data, old(s.pos), present, |present|).pos
    {
      groupData := seq(|present|, _ => None);
      ghost var start := s.pos;
      ghost var done: Slots := [];
      for groupId := 0 to |present|
        invariant s.Valid() && indexData == old(indexData)
        invariant |done| == groupId && |groupData| == |present| && groupData[..groupId] == done
        invariant forall j :: groupId <= j < |present| ==> groupData[j].None?
        invariant ReadGroups(s.data, start, present, groupId) == Progress(done, s.pos, None)
      {
        if !present[groupId] {
          assert groupData[..groupId + 1] == done + [None];
          done := done + [None];
          continue;
        }
        ghost var at := s.pos;
        var g := ReadPackedChunk(s);
        if g.Failure? {
          ReadGroupsStops(s.data, start, present, groupId + 1);
          PaddedBy(groupData, Progress(done, at, Some(g.error)), |present|);
          return Some(g.error);
        }
        groupData := groupData[groupId := Some(g.value)];
        assert groupData[..groupId + 1] == done + [Some(g.value)];
        done := done + [Some(g.value)];
      }
      PaddedBy(groupData, Progress(done, s.pos, None), |present|);
      r := None;
    }

    /**
     * `write(stream)`: the index blob verbatim, then the blob of each group
     * the index lists, in ascending id order.  No index is a null write; a
     * listed group past the table or without a blob throws.
     */
    method Write(o: OutStream) returns (r: Option<Error>)
      modifies o
      ensures o.written == old(o.written) + Serialized(indexData, groupData, table).bytes
      ensures r == Serialized(indexData, groupData, table).error
    {
      if indexData.None? {
        return Some(NullPointer);
      }
      var present := table(indexData.value);
      o.Write(indexData.value);
      ghost var start := o.written;
      for groupId := 0 to |present|
        invariant o.written == start + WriteGroups(groupData, present, groupId).bytes
        invariant WriteGroups(groupData, present, groupId).error.None?
      {
        if !present[groupId] {
          continue;
        }
        if groupId >= |groupData| {
          WriteGroupsStops(groupData, present, groupId + 1);
          return Some(IndexOutOfBounds);
        }
        if groupData[groupId].None? {
          WriteGroupsStops(groupData, present, groupId + 1);
          return Some(NullPointer);
        }
        o.Write(groupData[groupId].value);
      }
      r := None;
    }
  }

  /** The tag and length fields `readPackedChunk` reads from the start of the unread stream. */
  lemma HeaderFields(data: seq<byte>, p0: nat, ctype: int, clen: int32)
    requires p0 + 5 <= |data| && ctype == data[p0] && clen == Int32(data[p0 + 1..p0 + 5])
    ensures data[p0..p0 + 5] == BigEndian(ctype, 1) + BigEndian(clen, 4)
  {
    P.BigEndian2(ctype);
    Int32Bytes(data[p0 + 1..p0 + 5]);
    assert data[p0..p0 + 5] == [data[p0]] + data[p0 + 1..p0 + 5];
  }

  /** After `p1(ctype)` and `p4(len)` the buffer starts with the header as read. */
  lemma HeaderWritten(buffer: seq<byte>, once: seq<byte>, zeros: seq<byte>, tag: seq<byte>, len: seq<byte>)
    requires |zeros| >= 5 && |tag| == 1 && |len| == 4
    requires once == P.Overwrite(zeros, 0, tag) && buffer == P.Overwrite(once, 1, len)
    ensures buffer[..5] == tag + len
  {
    OverwritePrefix(zeros, 0, tag, once);
    OverwritePrefix(once, 1, len, buffer);
  }

  /** Up to the end of what was put, an overwritten buffer is what came before, then what was put. */
  lemma OverwritePrefix(s: seq<byte>, at: nat, bs: seq<byte>, r: seq<byte>)
    requires at + |bs| <= |s| && r == P.Overwrite(s, at, bs)
    ensures r[..at + |bs|] == s[..at] + bs
  {
    P.OverwriteFits(s, at, bs);
    assert r == (s[..at] + bs) + s[at + |bs|..];
  }

  /** Storing `src` at `at` extends the prefix of the buffer up to `at` by `src`. */
  lemma Extend(buffer: seq<byte>, before: seq<byte>, at: nat, src: seq<byte>)
    requires at + |src| <= |before| == |buffer|
    requires buffer == before[..at] + src + before[at + |src|..]
    ensures buffer[..at + |src|] == before[..at] + src
  {
  }

  /** A table that holds the slots of `p`, then only null slots, is `p` padded. */
  lemma PaddedBy(slots: Slots, p: Progress, count: nat)
    requires |p.slots| <= count == |slots| && slots[..|p.slots|] == p.slots
    requires forall j :: |p.slots| <= j < count ==> slots[j].None?
    ensures slots == Padded(p, count)
  {
  }

  /** Filling the next null slot of a padded table. */
  lemma PadStep(done: Slots, x: Option<seq<byte>>, n: nat)
    requires n > 0
    ensures (done + seq(n, _ => None))[|done| := x] == (done + [x]) + seq(n - 1, _ => None)
    ensures x.None? ==> done + seq(n, _ => None) == (done + [x]) + seq(n - 1, _ => None)
  {
  }

  /** `clen + 5` in `int` arithmetic is at least 5 only when it is `clen + 5` itself. */
  lemma WrapSmall(clen: int32, size: int32)
    requires size == WrapAdd(clen, 5) && size >= 0
    ensures size >= 5 ==> clen >= 0 && size == clen + 5
    ensures size < 5 ==> clen < 0
  {
  }

  /** Once the group loop of `read` stops, later ids change nothing. */
  lemma {:induction false} ReadGroupsStops(data: seq<byte>, start: nat, present: seq<bool>, k: nat)
    requires start <= |data| && k <= |present| && ReadGroups(data, start, present, k).error.Some?
    ensures ReadGroups(data, start, present, |present|) == ReadGroups(data, start, present, k)
    decreases |present| - k
  {
    if k < |present| {
      ReadGroupsStops(data, start, present, k + 1);
    }
  }

  /** Once the group loop of `write` stops, later ids change nothing. */
  lemma {:induction false} WriteGroupsStops(slots: Slots, present: seq<bool>, k: nat)
    requires k <= |present| && WriteGroups(slots, present, k).error.Some?
    ensures WriteGroups(slots, present, |present|) == WriteGroups(slots, present, k)
    decreases |present| - k
  {
    if k < |present| {
      WriteGroupsStops(slots, present, k + 1);
    }
  }

  /** A stream that holds the whole chunk its header announces yields it. */
  lemma ChunkWhole(data: seq<byte>, pos: nat, size: nat, buffer: seq<byte>)
    requires 5 <= size && pos + size <= |data| && BufferSize(data[pos], Int32(data[pos + 1..pos + 5])) == Success(size)
    requires buffer == data[pos..pos + 5] + data[pos + 5..pos + size]
    ensures Chunk(data, pos) == Success(buffer)
  {
    assert data[pos..pos + 5] + data[pos + 5..pos + size] == data[pos..pos + size];
  }

  /** A framed chunk where the stream stands is read back whole, whatever follows it. */
  lemma ChunkOfFramed(data: seq<byte>, pos: nat, c: seq<byte>)
    requires Framed(c) && pos + |c| <= |data| && data[pos..pos + |c|] == c
    ensures Chunk(data, pos) == Success(c)
  {
    assert data[pos] == c[0];
    forall i | 0 <= i < 4
      ensures data[pos + 1..pos + 5][i] == c[1..5][i]
    {
      assert c[1 + i] == data[pos..pos + |c|][1 + i];
    }
    assert data[pos + 1..pos + 5] == c[1..5];
  }

  /** The group loop of `write` sends every present group when each has a blob. */
  lemma {:induction false} WriteGroupsOk(slots: Slots, present: seq<bool>, k: nat)
    requires k <= |present|
    requires forall i :: 0 <= i < k && present[i] ==> i < |slots| && slots[i].Some?
    ensures WriteGroups(slots, present, k).error.None?
    ensures k > 0 ==>
      WriteGroups(slots, present, k).bytes == WriteGroups(slots, present, k - 1).bytes + (if present[k - 1] then slots[k - 1].value else [])
    decreases k
  {
    if k > 0 {
      WriteGroupsOk(slots, present, k - 1);
    }
  }

  /** Reading, from `start`, what the group loop of `write` sent gives back the present groups' blobs. */
  lemma {:induction false} GroupsRoundTrip(slots: Slots, present: seq<bool>, k: nat, data: seq<byte>, start: nat)
    requires k <= |present|
    requires forall i :: 0 <= i < k && present[i] ==> i < |slots| && slots[i].Some? && Framed(slots[i].value)
    requires start + |WriteGroups(slots, present, k).bytes| <= |data|
    requires data[start..start + |WriteGroups(slots, present, k).bytes|] == WriteGroups(slots, present, k).bytes
    ensures ReadGroups(data, start, present, k)
         == Progress(Restored(slots, present, k), start + |WriteGroups(slots, present, k).bytes|, None)
    decreases k
  {
    if k > 0 {
      WriteGroupsOk(slots, present, k);
      var prev := WriteGroups(slots, present, k - 1).bytes;
      var c := if present[k - 1] then slots[k - 1].value else [];
      SliceSplit(data, start, prev, c);
      GroupsRoundTrip(slots, present, k - 1, data, start);
      var q := ReadGroups(data, start, present, k - 1);
      if present[k - 1] {
        PresentStep(slots, present, k, data, start, q, c);
      } else {
        ReadGroupsAbsent(data, start, present, k - 1, q);
        assert prev + c == prev;
      }
    }
  }

  /** The step of `GroupsRoundTrip` for a present group. */
  lemma PresentStep(slots: Slots, present: seq<bool>, k: nat, data: seq<byte>, start: nat, q: Progress, c: seq<byte>)
    requires 0 < k <= |present| && present[k - 1] && k - 1 < |slots| && slots[k - 1] == Some(c) && Framed(c)
    requires start <= |data| && ReadGroups(data, start, present, k - 1) == q
    requires q == Progress(Restored(slots, present, k - 1), q.pos, None)
    requires q.pos + |c| <= |data| && data[q.pos..q.pos + |c|] == c
    ensures ReadGroups(data, start, present, k) == Progress(Restored(slots, present, k), q.pos + |c|, None)
  {
    ChunkOfFramed(data, q.pos, c);
    ReadGroupsChunk(data, start, present, k - 1, q, c);
  }

  /** Where the stream holds `a + b`, it holds `a`, then `b`. */
  lemma SliceSplit(data: seq<byte>, start: nat, a: seq<byte>, b: seq<byte>)
    requires start + |a| + |b| <= |data| && data[start..start + |a| + |b|] == a + b
    ensures data[start..start + |a|] == a && data[start + |a|..start + |a| + |b|] == b
  {
    assert data[start..start + |a|] == data[start..start + |a| + |b|][..|a|];
    assert data[start + |a|..start + |a| + |b|] == data[start..start + |a| + |b|][|a|..];
  }

  /** One step of the group loop of `read` on a present group whose chunk is there. */
  lemma ReadGroupsChunk(data: seq<byte>, start: nat, present: seq<bool>, k: nat, p: Progress, c: seq<byte>)
    requires start <= |data| && k < |present| && present[k]
    requires ReadGroups(data, start, present, k) == p && p.error.None? && Chunk(data, p.pos) == Success(c)
    ensures ReadGroups(data, start, present, k + 1) == Progress(p.slots + [Some(c)], p.pos + |c|, None)
  {
  }

  /** One step of the group loop of `read` on an absent group. */
  lemma ReadGroupsAbsent(data: seq<byte>, start: nat, present: seq<bool>, k: nat, p: Progress)
    requires start <= |data| && k < |present| && !present[k]
    requires ReadGroups(data, start, present, k) == p && p.error.None?
    ensures ReadGroups(data, start, present, k + 1) == Progress(p.slots + [None], p.pos, None)
  {
  }

  /** Slot `i` of the restored table is the blob of group `i` when the index lists it, and null otherwise. */
  lemma {:induction false} RestoredAt(slots: Slots, present: seq<bool>, k: nat, i: nat)
    requires i < k <= |present|
    ensures Restored(slots, present, k)[i] == if present[i] && i < |slots| then slots[i] else None
    decreases k
  {
    if i < k - 1 {
      RestoredAt(slots, present, k - 1, i);
    }
  }

  /**
   * `write` then `read`: when the index and every blob it lists are framed
   * chunks, the index comes back, each listed group's blob comes back in its
   * slot, every other slot is null, and exactly the written bytes are consumed.
   */
  lemma WriteReadRoundTrip(index: seq<byte>, slots: Slots, table: GroupTable, tail: seq<byte>)
    requires Framed(index)
    requires forall i :: 0 <= i < |table(index)| && table(index)[i] ==> i < |slots| && slots[i].Some? && Framed(slots[i].value)
    ensures Serialized(Some(index), slots, table).error.None?
    ensures
      var bytes := Serialized(Some(index), slots, table).bytes;
      Parsed(bytes + tail, 0, table) == Loaded(index, Progress(Restored(slots, table(index), |table(index)|), |bytes|, None))
  {
    var present := table(index);
    WriteGroupsOk(slots, present, |present|);
    var groups := WriteGroups(slots, present, |present|).bytes;
    var data := index + groups + tail;
    assert data[0..|index|] == index;
    ChunkOfFramed(data, 0, index);
    assert data[|index|..|index| + |groups|] == groups;
    GroupsRoundTrip(slots, present, |present|, data, |index|);
    assert Serialized(Some(index), slots, table).bytes + tail == data;
  }
}
