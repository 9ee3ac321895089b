/**
 * `Js5Compression.decompress`: the JS5 envelope is a method tag byte, the
 * big-endian compressed length, and, for every method but NONE, the
 * big-endian decompressed length; the payload follows.  The output array is
 * sized from the header and filled by the method's `decompress`.
 */
module Js5Compression {
  import opened Bytes
  import opened Wrappers
  import C = Compression

  /** The exception `decompress` ends with. */
  datatype Error = IllegalArgument | IndexOutOfBounds | NegativeArraySize | Unsupported

  /** The compressed length in the header. */
  function CompressedLength(data: seq<byte>): int32
    requires |data| >= 5
  {
    Int32(data[1..5])
  }

  /** The decompressed length in the header of a compressed envelope. */
  function DecompressedLength(data: seq<byte>): int32
    requires |data| >= 9
  {
    Int32(data[5..9])
  }

  /** Where the payload starts. */
  function PayloadOffset(m: C.Method): nat {
    if m == C.NoCompression then 5 else 9
  }

  /** A `decompress` exception rethrown by the envelope decoder: IOException becomes IllegalArgumentException. */
  function Rethrown(st: C.Status): Error
    requires st != C.Done
  {
    match st
    case IOError => IllegalArgument
    case IndexOutOfBounds => IndexOutOfBounds
    case Unsupported => Unsupported
  }

  /** What `decompress(data)` returns or throws. */
  function Decompressed(data: seq<byte>, bzip2: C.Backend, gzip: C.Backend): Result<seq<byte>, Error> {
    if |data| < 5 then Failure(IllegalArgument)
    else
      match C.ForId(data[0])
      case None => Failure(IllegalArgument)
      case Some(m) =>
        if m != C.NoCompression && |data| < 9 then Failure(IndexOutOfBounds)
        else
          var length := if m == C.NoCompression then CompressedLength(data) else DecompressedLength(data);
          if length < 0 then Failure(NegativeArraySize)
          else
            var st := C.StatusOf(m, data, PayloadOffset(m), length, bzip2, gzip);
            if st == C.Done then Success(C.OutputOf(m, data, PayloadOffset(m), seq(length, _ => 0), bzip2, gzip))
            else Failure(Rethrown(st))
  }

  /** `decompress(data)`: the output array, freshly allocated, or the exception. */
  method Decompress(data: array<byte>, bzip2: C.Backend, gzip: C.Backend) returns (r: Result<array<byte>, Error>)
    ensures r.Success? <==> Decompressed(data[..], bzip2, gzip).Success?
    ensures r.Success? ==> fresh(r.value) && r.value[..] == Decompressed(data[..], bzip2, gzip).value
    ensures r.Failure? ==> r.error == Decompressed(data[..], bzip2, gzip).error
  {
    if data.Length < 5 {
      return Failure(IllegalArgument);
    }
    var ctype := data[0];
    var compression := C.ForId(ctype);
    if compression.None? {
      return Failure(IllegalArgument);
    }
    var m := compression.value;
    var clen := Int32(data[1..5]);
    var output: array<byte>;
    if m == C.NoCompression {
      if clen < 0 {
        return Failure(NegativeArraySize);
      }
      output := new byte[clen](_ => 0);
    } else {
      if data.Length < 9 {
        return Failure(IndexOutOfBounds);
      }
      var dlen := Int32(data[5..9]);
      if dlen < 0 {
        return Failure(NegativeArraySize);
      }
      output := new byte[dlen](_ => 0);
    }
    assert output[..] == seq(output.Length, _ => 0);
    var st := C.Decompress(m, data, if m == C.NoCompression then 5 else 9, output, bzip2, gzip);
    if st != C.Done {
      return Failure(Rethrown(st));
    }
    return Success(output);
  }

  /** Fewer than five bytes cannot hold a header. */
  lemma ShortInput(data: seq<byte>, bzip2: C.Backend, gzip: C.Backend)
    requires |data| < 5
    ensures Decompressed(data, bzip2, gzip) == Failure(IllegalArgument)
  {
  }

  /** A tag that names no method is rejected, whatever follows it. */
  lemma UnknownTag(data: seq<byte>, bzip2: C.Backend, gzip: C.Backend)
    requires |data| >= 5 && data[0] > 3
    ensures Decompressed(data, bzip2, gzip) == Failure(IllegalArgument)
  {
  }

  /**
   * NONE: the output is the `clen` bytes after the header, and the envelope is
   * rejected exactly when they are not all there.
   */
  lemma StoredPayload(data: seq<byte>, bzip2: C.Backend, gzip: C.Backend)
    requires |data| >= 5 && data[0] == 0 && CompressedLength(data) >= 0
    ensures Decompressed(data, bzip2, gzip).Success? <==> 5 + CompressedLength(data) <= |data|
    ensures Decompressed(data, bzip2, gzip).Failure? ==> Decompressed(data, bzip2, gzip).error == IndexOutOfBounds
    ensures Decompressed(data, bzip2, gzip).Success? ==>
      Decompressed(data, bzip2, gzip).value == data[5..5 + CompressedLength(data)]
  {
  }

  /** The output has the size the header announces. */
  lemma OutputLength(data: seq<byte>, bzip2: C.Backend, gzip: C.Backend)
    requires Decompressed(data, bzip2, gzip).Success?
    ensures |data| >= 5
    ensures data[0] == 0 ==> |Decompressed(data, bzip2, gzip).value| == CompressedLength(data)
    ensures data[0] != 0 ==> |data| >= 9 && |Decompressed(data, bzip2, gzip).value| == DecompressedLength(data)
  {
  }

  /** The envelope of an uncompressed payload. */
  function StoredEnvelope(payload: seq<byte>): seq<byte> {
    [0] + BigEndian(|payload|, 4) + payload
  }

  /** An uncompressed envelope opens to its payload. */
  lemma StoredRoundTrip(payload: seq<byte>, bzip2: C.Backend, gzip: C.Backend)
    requires |payload| < 0x8000_0000
    ensures Decompressed(StoredEnvelope(payload), bzip2, gzip) == Success(payload)
  {
    var data := StoredEnvelope(payload);
    Int32OfBigEndian(|payload|);
    assert data[1..5] == BigEndian(|payload|, 4);
    assert data[5..5 + |payload|] == payload;
  }

  /** The worked example: tag 0, length 4, then the four payload bytes. */
  lemma StoredExample(bzip2: C.Backend, gzip: C.Backend)
    ensures Decompressed([0, 0, 0, 0, 4, 0xDE, 0xAD, 0xBE, 0xEF], bzip2, gzip) == Success([0xDE, 0xAD, 0xBE, 0xEF])
  {
    StoredRoundTrip([0xDE, 0xAD, 0xBE, 0xEF], bzip2, gzip);
    assert StoredEnvelope([0xDE, 0xAD, 0xBE, 0xEF]) == [0, 0, 0, 0, 4, 0xDE, 0xAD, 0xBE, 0xEF];
  }

  /**
   * GZIP: the first `dlen` decoded bytes when the decoder yields that many
   * for the payload after the nine header bytes; when it ends early, what it
   * decoded followed by the zeros of the fresh array; an IOException makes
   * the envelope illegal.  The compressed length is read but not used.
   */
  lemma GzipEnvelope(clen: int32, dlen: int32, payload: seq<byte>, bzip2: C.Backend, gzip: C.Backend)
    requires dlen >= 0
    ensures
      var data := [2] + BigEndian(clen, 4) + BigEndian(dlen, 4) + payload;
      var d := gzip(payload);
      (d.Stream? && |d.content| >= dlen ==> Decompressed(data, bzip2, gzip) == Success(d.content[..dlen])) &&
      (d.Stream? && |d.content| < dlen && !d.fails ==>
         Decompressed(data, bzip2, gzip) == Success(d.content + seq(dlen - |d.content|, _ => 0))) &&
      (d.Corrupt? || (d.fails && |d.content| < dlen) ==> Decompressed(data, bzip2, gzip) == Failure(IllegalArgument))
  {
    var data := [2] + BigEndian(clen, 4) + BigEndian(dlen, 4) + payload;
    Int32OfBigEndian(dlen);
    assert data[5..9] == BigEndian(dlen, 4);
    assert data[9..] == payload;
    var d := gzip(payload);
    var zeros := seq(dlen, _ => 0);
    if d.Stream? && |d.content| >= dlen {
      C.FillExact(d, zeros, true);
    } else if d.Stream? && !d.fails {
      C.FillShort(d, zeros, true);
      assert zeros[|d.content|..] == seq(dlen - |d.content|, _ => 0);
    }
  }

  /**
   * BZIP2: the decoder is fed the `BZh1` magic and the payload after the nine
   * header bytes.  The first `dlen` decoded bytes when it yields that many; a
   * stream that ends early runs the cursor down to IndexOutOfBounds; a
   * decoder that throws makes the envelope illegal.
   */
  lemma Bzip2Envelope(clen: int32, dlen: int32, payload: seq<byte>, bzip2: C.Backend, gzip: C.Backend)
    requires dlen >= 0
    ensures
      var data := [1] + BigEndian(clen, 4) + BigEndian(dlen, 4) + payload;
      var d := bzip2(C.Bzip2Header + payload);
      (d.Stream? && |d.content| >= dlen ==> Decompressed(data, bzip2, gzip) == Success(d.content[..dlen])) &&
      (d.Stream? && |d.content| < dlen && !d.fails ==> Decompressed(data, bzip2, gzip) == Failure(IndexOutOfBounds)) &&
      (d.Corrupt? || (d.fails && |d.content| < dlen) ==> Decompressed(data, bzip2, gzip) == Failure(IllegalArgument))
  {
    var data := [1] + BigEndian(clen, 4) + BigEndian(dlen, 4) + payload;
    Int32OfBigEndian(dlen);
    assert data[5..9] == BigEndian(dlen, 4);
    assert data[9..] == payload;
    var d := bzip2(C.Bzip2Header + payload);
    if d.Stream? && |d.content| >= dlen {
      C.FillExact(d, seq(dlen, _ => 0), false);
    }
  }

  /** LZMA is recognised but always unsupported, whatever the lengths. */
  lemma LzmaUnsupported(data: seq<byte>, bzip2: C.Backend, gzip: C.Backend)
    requires |data| >= 9 && data[0] == 3 && DecompressedLength(data) >= 0
    ensures Decompressed(data, bzip2, gzip) == Failure(Unsupported)
  {
  }
}
