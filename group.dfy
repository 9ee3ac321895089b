/**
 * `Group`: a group of an archive, with its metadata and a sparse table of
 * files.  A Java `null` is `None`: `fileData` and `fileName32` are null until
 * `initFiles` or a setter assigns them, and an empty slot of `fileData` is a
 * null `byte[]`.  A query that dereferences null or indexes past an array
 * ends with the exception as a `Failure`.
 */
module Group {
  import opened Bytes
  import opened Wrappers

  /** The unchecked exceptions the queries can end with. */
  datatype Error = NullPointer | IndexOutOfBounds | NegativeArraySize

  /** The slots of the file table. */
  type Slots = seq<Option<seq<byte>>>

  class Group {
    const id: int32
    var version: int32
    var name32: int32
    var decompressedCrc: int32
    var compressedCrc: int32
    var whirlpool: Option<seq<byte>>
    var compressedSize: int32
    var decompressedSize: int32
    var fileName32: Option<seq<int32>>
    var fileData: Option<Slots>

    /** Lombok's required-arguments constructor: only `id` is set. */
    constructor(id: int32)
      ensures this.id == id && version == 0 && name32 == 0
      ensures decompressedCrc == 0 && compressedCrc == 0 && whirlpool == None
      ensures compressedSize == 0 && decompressedSize == 0
      ensures fileName32 == None && fileData == None
    {
      this.id := id;
      version, name32, decompressedCrc, compressedCrc := 0, 0, 0, 0;
      whirlpool := None;
      compressedSize, decompressedSize := 0, 0;
      fileName32, fileData := None, None;
    }

    /** The package-private setter of `fileData`. */
    method SetFileData(files: Option<Slots>)
      modifies this
      ensures fileData == files
      ensures fileName32 == old(fileName32)
    {
      fileData := files;
    }

    /** The package-private setter of `fileName32`. */
    method SetFileName32(names: Option<seq<int32>>)
      modifies this
      ensures fileName32 == names
      ensures fileData == old(fileData)
    {
      fileName32 := names;
    }

    /**
     * `initFiles(count, name32)`: `count` empty slots, and `count` zero names
     * when `name32` is set; the names are otherwise kept.  A negative count
     * throws before any field changes.
     */
    method InitFiles(count: int32, name32: bool) returns (r: Option<Error>)
      modifies this
      ensures count < 0 ==> r == Some(NegativeArraySize) && fileData == old(fileData) && fileName32 == old(fileName32)
      ensures count >= 0 ==> r == None && fileData == Some(seq(count, _ => None))
      ensures count >= 0 ==> fileName32 == if name32 then Some(seq(count, _ => 0)) else old(fileName32)
    {
      if count < 0 {
        return Some(NegativeArraySize);
      }
      fileData := Some(seq(count, _ => None));
      if name32 {
        fileName32 := Some(seq(count, _ => 0));
      }
      r := None;
    }

    /**
     * `contains(id)` as written: `id >= 0 && id <= fileData.length &&
     * fileData[id] != null`, so `id == fileData.length` indexes past the end.
     */
    function Contains(id: int32): (r: Result<bool, Error>)
      reads this
      ensures r == Failure(NullPointer) <==> id >= 0 && fileData.None?
      ensures r == Failure(IndexOutOfBounds) <==> fileData.Some? && id == |fileData.value|
      ensures r.Success? ==> (r.value <==> fileData.Some? && 0 <= id < |fileData.value| && fileData.value[id].Some?)
    {
      if id < 0 then Success(false)
      else if fileData.None? then Failure(NullPointer)
      else if id > |fileData.value| then Success(false)
      else if id == |fileData.value| then Failure(IndexOutOfBounds)
      else Success(fileData.value[id].Some?)
    }

    /** `contains(id)` with the bound the method evidently intends, `id < fileData.length`. */
    function ContainsChecked(id: int32): (r: Result<bool, Error>)
      reads this
      ensures r.Failure? <==> id >= 0 && fileData.None?
      ensures r.Failure? ==> r.error == NullPointer
      ensures r.Success? ==> (r.value <==> fileData.Some? && 0 <= id < |fileData.value| && fileData.value[id].Some?)
    {
      if id < 0 then Success(false)
      else if fileData.None? then Failure(NullPointer)
      else Success(id < |fileData.value| && fileData.value[id].Some?)
    }

    /**
     * `getFile(id)` as written: the slot's data when `contains(id)` holds,
     * `None` (null) when it does not, and its exception when it throws, so
     * `id == fileData.length` throws IndexOutOfBounds.
     */
    function GetFile(id: int32): (r: Result<Option<seq<byte>>, Error>)
      reads this
      ensures r == Failure(NullPointer) <==> id >= 0 && fileData.None?
      ensures r == Failure(IndexOutOfBounds) <==> fileData.Some? && id == |fileData.value|
      ensures r.Success? && r.value.Some? ==> fileData.Some? && 0 <= id < |fileData.value| && r.value == fileData.value[id]
      ensures r.Success? && r.value.None? ==> fileData.None? || !(0 <= id < |fileData.value|) || fileData.value[id].None?
    {
      match Contains(id)
      case Failure(e) => Failure(e)
      case Success(present) => if present then Success(fileData.value[id]) else Success(None)
    }

    /** `getFile(id)` over the corrected `contains`: null at and past the end of the table. */
    function GetFileChecked(id: int32): (r: Result<Option<seq<byte>>, Error>)
      reads this
      ensures r.Failure? <==> id >= 0 && fileData.None?
      ensures r.Failure? ==> r.error == NullPointer
      ensures r.Success? && r.value.Some? ==> fileData.Some? && 0 <= id < |fileData.value| && r.value == fileData.value[id]
      ensures r.Success? && r.value.None? ==> fileData.None? || !(0 <= id < |fileData.value|) || fileData.value[id].None?
    {
      match ContainsChecked(id)
      case Failure(e) => Failure(e)
      case Success(present) => if present then Success(fileData.value[id]) else Success(None)
    }

    /**
     * `getName32(id)` as written: -1 when there are no names (checked first,
     * so no null dereference of `fileData` then) or the file is absent, else
     * the name.  `contains` throws at `id == fileData.length`, and a names
     * array shorter than the file table throws for the files past it.
     */
    function GetName32(id: int32): (r: Result<int32, Error>)
      reads this
      ensures fileName32.None? ==> r == Success(-1)
      ensures fileName32.Some? && id >= 0 && fileData.None? ==> r == Failure(NullPointer)
      ensures r == Failure(IndexOutOfBounds) <==>
        fileName32.Some? && fileData.Some? &&
        (id == |fileData.value| || (0 <= id < |fileData.value| && fileData.value[id].Some? && id >= |fileName32.value|))
      ensures r.Success? && r.value != -1 ==>
        fileName32.Some? && fileData.Some? && 0 <= id < |fileData.value| && fileData.value[id].Some? &&
        id < |fileName32.value| && r.value == fileName32.value[id]
    {
      if fileName32.None? then Success(-1)
      else
        match Contains(id)
        case Failure(e) => Failure(e)
        case Success(present) =>
          if !present then Success(-1)
          else if id >= |fileName32.value| then Failure(IndexOutOfBounds)
          else Success(fileName32.value[id])
    }

    /** `getName32(id)` over the corrected `contains`: -1 at and past the end of the file table. */
    function GetName32Checked(id: int32): (r: Result<int32, Error>)
      reads this
      ensures fileName32.None? ==> r == Success(-1)
      ensures fileName32.Some? && id >= 0 && fileData.None? ==> r == Failure(NullPointer)
      ensures r == Failure(IndexOutOfBounds) <==>
        fileName32.Some? && fileData.Some? && 0 <= id < |fileData.value| && fileData.value[id].Some? && id >= |fileName32.value|
      ensures r.Success? && r.value != -1 ==>
        fileName32.Some? && fileData.Some? && 0 <= id < |fileData.value| && fileData.value[id].Some? &&
        id < |fileName32.value| && r.value == fileName32.value[id]
    {
      if fileName32.None? then Success(-1)
      else
        match ContainsChecked(id)
        case Failure(e) => Failure(e)
        case Success(present) =>
          if !present then Success(-1)
          else if id >= |fileName32.value| then Failure(IndexOutOfBounds)
          else Success(fileName32.value[id])
    }
  }

  /** The off-by-one as written: asking for the first id past the table throws. */
  lemma ContainsPastEnd(g: Group)
    requires g.fileData.Some? && |g.fileData.value| < 0x8000_0000
    ensures g.Contains(|g.fileData.value| as int32) == Failure(IndexOutOfBounds)
    ensures g.ContainsChecked(|g.fileData.value| as int32) == Success(false)
  {
  }

  /** Away from that one id, the method as written and the corrected one agree. */
  lemma ContainsAgrees(g: Group, id: int32)
    requires !(g.fileData.Some? && id == |g.fileData.value|)
    ensures g.Contains(id) == g.ContainsChecked(id)
  {
  }

  /** The queries as written throw at the first id past the table; the corrected ones find no file there. */
  lemma QueriesPastEnd(g: Group)
    requires g.fileData.Some? && g.fileName32.Some? && |g.fileData.value| < 0x8000_0000
    ensures g.GetFile(|g.fileData.value| as int32) == Failure(IndexOutOfBounds)
    ensures g.GetName32(|g.fileData.value| as int32) == Failure(IndexOutOfBounds)
    ensures g.GetFileChecked(|g.fileData.value| as int32) == Success(None)
    ensures g.GetName32Checked(|g.fileData.value| as int32) == Success(-1)
  {
  }

  /** Away from that one id, the queries as written and the corrected ones agree. */
  lemma QueriesAgree(g: Group, id: int32)
    requires !(g.fileData.Some? && id == |g.fileData.value|)
    ensures g.GetFile(id) == g.GetFileChecked(id)
    ensures g.GetName32(id) == g.GetName32Checked(id)
  {
    ContainsAgrees(g, id);
  }

  /** Where `contains` returns, a file is present exactly when `getFile` returns data. */
  lemma PresentIffData(g: Group, id: int32)
    requires g.Contains(id).Success?
    ensures g.GetFile(id).Success?
    ensures g.Contains(id).value <==> g.GetFile(id).value.Some?
  {
  }

  /** With the corrected bound, the same holds for every id of a non-null table. */
  lemma PresentIffDataChecked(g: Group, id: int32)
    requires g.fileData.Some?
    ensures g.ContainsChecked(id).Success? && g.GetFileChecked(id).Success?
    ensures g.ContainsChecked(id).value <==> g.GetFileChecked(id).value.Some?
  {
  }
}
