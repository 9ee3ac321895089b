/**
 * The `Compression` enum: the four methods a JS5 container names by id, and
 * each method's `decompress(input, ioff, output)`, which writes into the
 * caller's output array.
 *
 * The BZIP2 and GZIP decoders (Apache Commons Compress and `java.util.zip`)
 * are foreign code.  Each is a parameter of type `Backend`: the bytes it is
 * fed determine the decoded stream it yields, as a `Decoded` value.  How the
 * decoded bytes are split across `read` calls is left open: `DecoderStream.Read`
 * returns any count the `InputStream` contract allows.  The two streams differ
 * once they have reported end of stream: `BZip2CompressorInputStream.read`
 * still checks its arguments first, while `GZIPInputStream.read` answers -1
 * straight away.
 */
module Compression {
  import opened Bytes
  import opened Wrappers

  datatype Method = NoCompression | Bzip2 | Gzip | Lzma

  /** The outcome of `decompress`: normal return or the exception it throws. */
  datatype Status = Done | IOError | IndexOutOfBounds | Unsupported

  /**
   * What a decoder yields for the bytes it is fed: either it rejects them when
   * the stream is opened (`Corrupt`), or it delivers `content` and then reports
   * end of stream (`fails == false`) or throws an IOException (`fails == true`).
   */
  datatype Decoded = Corrupt | Stream(content: seq<byte>, fails: bool)

  type Backend = seq<byte> -> Decoded

  /** `forId`: the method with the given id, `None` (Java's null) for any other id. */
  function ForId(ctype: int): Option<Method> {
    match ctype
    case 0 => Some(NoCompression)
    case 1 => Some(Bzip2)
    case 2 => Some(Gzip)
    case 3 => Some(Lzma)
    case _ => None
  }

  /** The id each method is stored under, the enum's ordinal. */
  function Id(m: Method): (r: int)
    ensures 0 <= r < 4
  {
    match m
    case NoCompression => 0
    case Bzip2 => 1
    case Gzip => 2
    case Lzma => 3
  }

  /** The `BZh1` magic that JS5 strips from BZIP2 payloads. */
  const Bzip2Header: seq<byte> := [0x42, 0x5A, 0x68, 0x31]

  /**
   * The bytes `new ByteArrayInputStream(input, ioff, input.length)` delivers:
   * the stream ends at the end of the array, and is empty when `ioff` is past it.
   */
  function Tail(input: seq<byte>, ioff: nat): (r: seq<byte>)
    ensures ioff <= |input| ==> |r| == |input| - ioff
  {
    if ioff <= |input| then input[ioff..] else []
  }

  /** The bytes a method feeds its decoder: BZIP2 puts the magic back in front. */
  function DecoderInput(m: Method, input: seq<byte>, ioff: nat): seq<byte> {
    if m == Bzip2 then Bzip2Header + Tail(input, ioff) else Tail(input, ioff)
  }

  /** The decoder of a method that has one. */
  function Decode(m: Method, input: seq<byte>, ioff: nat, bzip2: Backend, gzip: Backend): Decoded
    requires m == Bzip2 || m == Gzip
  {
    if m == Bzip2 then bzip2(DecoderInput(m, input, ioff)) else gzip(DecoderInput(m, input, ioff))
  }

  /** The decoder yields at least `length` bytes, so the `cursor` loop fills the output from it. */
  predicate Supplies(d: Decoded, length: nat) {
    d.Stream? && length <= |d.content|
  }

  /**
   * The outcome of the `cursor` loop that fills `length` output bytes from a
   * decoder; `sticky` says the stream answers -1 after end of stream without
   * checking its arguments (GZIP).
   */
  function FillStatus(d: Decoded, length: nat, sticky: bool): Status {
    match d
    case Corrupt => IOError
    case Stream(content, fails) =>
      if length <= |content| then Done
      else if fails then IOError
      else if sticky then Done
      else IndexOutOfBounds
  }

  /** The output array after the `cursor` loop, from its contents `before`. */
  function Filled(d: Decoded, before: seq<byte>): (r: seq<byte>)
    ensures |r| == |before|
  {
    match d
    case Corrupt => before
    case Stream(content, _) =>
      if |before| <= |content| then content[..|before|]
      else content + before[|content|..]
  }

  /** The outcome of `m.decompress(input, ioff, output)` for an output of `length` bytes. */
  function StatusOf(m: Method, input: seq<byte>, ioff: nat, length: nat, bzip2: Backend, gzip: Backend): Status {
    match m
    case NoCompression => if ioff + length <= |input| then Done else IndexOutOfBounds
    case Lzma => Unsupported
    case _ => FillStatus(Decode(m, input, ioff, bzip2, gzip), length, m == Gzip)
  }

  /** The output array after `m.decompress(input, ioff, output)`, from its contents `before`. */
  function OutputOf(m: Method, input: seq<byte>, ioff: nat, before: seq<byte>, bzip2: Backend, gzip: Backend): (r: seq<byte>)
    ensures |r| == |before|
  {
    match m
    case NoCompression => if ioff + |before| <= |input| then input[ioff..ioff + |before|] else before
    case Lzma => before
    case _ => Filled(Decode(m, input, ioff, bzip2, gzip), before)
  }

  /** A decoder's output stream, positioned `at` bytes into what it decodes. */
  class DecoderStream {
    const content: seq<byte>
    const fails: bool
    /** `read` answers -1 once it has reported end of stream, before it looks at its arguments. */
    const sticky: bool
    var at: nat
    /** End of stream has been reported. */
    var eos: bool

    ghost predicate Valid()
      reads this
    {
      at <= |content| && (eos ==> at == |content| && !fails)
    }

    constructor(content: seq<byte>, fails: bool, sticky: bool)
      ensures Valid() && this.content == content && this.fails == fails && this.sticky == sticky
      ensures at == 0 && !eos
    {
      this.content := content;
      this.fails := fails;
      this.sticky := sticky;
      at := 0;
      eos := false;
    }

    /**
     * `read(b, off, len)`: after end of stream a sticky stream returns -1 at
     * once.  Otherwise bad bounds throw IndexOutOfBoundsException; a zero
     * `len` reads nothing; otherwise it stores between 1 and `len` of the next
     * bytes at `b[off..]`, or at the end of the content reports end of stream
     * with -1 or throws.
     */
    method Read(b: array<byte>, off: int, len: int) returns (n: int, st: Status)
      requires Valid()
      modifies this, b
      ensures Valid()
      ensures sticky && old(eos) ==> st == Done && n == -1 && at == old(at) && eos && b[..] == old(b[..])
      ensures !(sticky && old(eos)) && (off < 0 || len < 0 || len > b.Length - off) ==>
        st == IndexOutOfBounds && at == old(at) && eos == old(eos) && b[..] == old(b[..])
      ensures !(sticky && old(eos)) && 0 <= off && 0 <= len <= b.Length - off && (len == 0 || old(at) == |content|) ==>
        at == old(at) && b[..] == old(b[..]) &&
        (if len == 0 then st == Done && n == 0 && eos == old(eos)
         else if fails then st == IOError
         else st == Done && n == -1 && eos)
      ensures !(sticky && old(eos)) && 0 <= off && 0 < len <= b.Length - off && old(at) < |content| ==>
        st == Done && 1 <= n <= len && at == old(at) + n && eos == old(eos) &&
        b[..] == old(b[..])[..off] + content[old(at)..at] + old(b[..])[off + n..]
    {
      n := 0;
      if sticky && eos {
        return -1, Done;
      }
      if off < 0 || len < 0 || len > b.Length - off {
        return 0, IndexOutOfBounds;
      }
      if len == 0 {
        return 0, Done;
      }
      if at == |content| {
        if fails {
          return 0, IOError;
        }
        eos := true;
        return -1, Done;
      }
      n :| 1 <= n <= len && n <= |content| - at;
      forall k | off <= k < off + n {
        b[k] := content[at + k - off];
      }
      assert b[..] == old(b[..])[..off] + content[at..at + n] + old(b[..])[off + n..];
      at := at + n;
      st := Done;
    }
  }

  /**
   * The `do { cursor += in.read(output, cursor, output.length - cursor); }
   * while (cursor < output.length)` loop of BZIP2 and GZIP, in Java `int`
   * arithmetic.  Each -1 from the stream moves `cursor` back by one.  BZIP2's
   * `read` then throws IndexOutOfBoundsException once `cursor` reaches -1;
   * GZIP's keeps answering -1, so `cursor` walks down to `Integer.MIN_VALUE`,
   * wraps to `Integer.MAX_VALUE` and the loop ends normally.
   */
  method FillLoop(s: DecoderStream, output: array<byte>) returns (st: Status)
    requires s.Valid() && s.at == 0 && !s.eos
    requires output.Length < 0x8000_0000
    modifies s, output
    ensures st == FillStatus(Stream(s.content, s.fails), output.Length, s.sticky)
    ensures output[..] == Filled(Stream(s.content, s.fails), old(output[..]))
  {
    ghost var before := output[..];
    var cursor: int32;
    cursor, st := FillTurn(s, output, 0, before);
    if st != Done {
      return;
    }
    while cursor < output.Length
      invariant Filling(s, output, cursor, before)
      decreases |s.content| - s.at, if s.eos then 0 else 1, if cursor >= output.Length then 0 else cursor + 0x8000_0001
    {
      cursor, st := FillTurn(s, output, cursor, before);
      if st != Done {
        return;
      }
    }
    FillEnd(s, output, cursor, before);
    st := Done;
  }

  /** The loop ends normally with the decoded bytes in front of the old tail of the output. */
  lemma FillEnd(s: DecoderStream, output: array<byte>, cursor: int32, before: seq<byte>)
    requires Filling(s, output, cursor, before) && cursor >= output.Length
    ensures FillStatus(Stream(s.content, s.fails), output.Length, s.sticky) == Done
    ensures output[..] == Filled(Stream(s.content, s.fails), before)
  {
  }

  /**
   * The fill loop's state: until end of stream the cursor is where the
   * decoded bytes end; after it the cursor lags behind them, and only a
   * sticky stream lets it wrap to `Integer.MAX_VALUE`.
   */
  ghost predicate Filling(s: DecoderStream, output: array<byte>, cursor: int32, before: seq<byte>)
    reads s, output
  {
    && s.Valid() && s.at <= output.Length && |before| == output.Length
    && (!s.eos ==> cursor == s.at)
    && (s.eos ==> s.at < output.Length && (cursor < s.at || (s.sticky && cursor == 0x7FFF_FFFF)))
    && (s.eos && !s.sticky ==> -1 <= cursor)
    && output[..] == s.content[..s.at] + before[s.at..]
  }

  /** One turn of the fill loop: a `read` at the cursor, and the cursor moved by its result. */
  method FillTurn(s: DecoderStream, output: array<byte>, cursor: int32, ghost before: seq<byte>) returns (next: int32, st: Status)
    requires output.Length < 0x8000_0000 && |before| == output.Length
    requires Filling(s, output, cursor, before) && (cursor < output.Length || !s.eos)
    modifies s, output
    ensures st != Done ==>
      st == FillStatus(Stream(s.content, s.fails), output.Length, s.sticky) && output[..] == Filled(Stream(s.content, s.fails), before)
    ensures st == Done ==> Filling(s, output, next, before)
    ensures st == Done && cursor < output.Length ==>
      old(s.at) < s.at || (!old(s.eos) && s.eos) || (old(s.eos) && s.eos && s.at == old(s.at) && next == WrapAdd(cursor, -1))
  {
    ghost var at0, prior := s.at, output[..];
    var n;
    n, st := s.Read(output, cursor, output.Length - cursor);
    next := cursor;
    if st != Done {
      return;
    }
    if n > 0 {
      Splice(s.content, before, at0, s.at, prior, output[..]);
    }
    next := WrapAdd(cursor, n);
  }

  /**
   * `m.decompress(input, ioff, output)`.  NONE is `System.arraycopy` of
   * `output.length` bytes from `ioff`; BZIP2 and GZIP open their decoder on
   * the bytes from `ioff` and run the fill loop; LZMA always throws.
   */
  method Decompress(m: Method, input: array<byte>, ioff: nat, output: array<byte>, bzip2: Backend, gzip: Backend)
    returns (st: Status)
    requires output.Length < 0x8000_0000
    modifies output
    ensures st == StatusOf(m, old(input[..]), ioff, output.Length, bzip2, gzip)
    ensures output[..] == OutputOf(m, old(input[..]), ioff, old(output[..]), bzip2, gzip)
  {
    match m
    case NoCompression =>
      if ioff + output.Length > input.Length {
        return IndexOutOfBounds;
      }
      ghost var source := input[ioff..ioff + output.Length];
      forall i | 0 <= i < output.Length {
        output[i] := input[ioff + i];
      }
      assert output[..] == source;
      st := Done;
    case Lzma =>
      st := Unsupported;
    case _ =>
      var d := Decode(m, input[..], ioff, bzip2, gzip);
      if d.Corrupt? {
        return IOError;
      }
      var s := new DecoderStream(d.content, d.fails, m == Gzip);
      st := FillLoop(s, output);
  }

  /** Storing the next decoded bytes at the cursor extends the decoded prefix of the output. */
  lemma Splice(content: seq<byte>, before: seq<byte>, a0: nat, a1: nat, prior: seq<byte>, after: seq<byte>)
    requires a0 <= a1 <= |content| && a1 <= |before|
    requires prior == content[..a0] + before[a0..]
    requires after == prior[..a0] + content[a0..a1] + prior[a1..]
    ensures after == content[..a1] + before[a1..]
  {
    assert prior[..a0] == content[..a0];
    assert prior[a1..] == before[a1..];
    assert content[..a0] + content[a0..a1] == content[..a1];
  }

  /** `forId` inverts the ordinal. */
  lemma ForIdId(m: Method)
    ensures ForId(Id(m)) == Some(m)
  {
  }

  /** `forId` knows exactly the ids 0 to 3, and each is the ordinal of what it returns. */
  lemma IdForId(ctype: int)
    ensures ForId(ctype).Some? <==> 0 <= ctype < 4
    ensures ForId(ctype).Some? ==> Id(ForId(ctype).value) == ctype
  {
  }

  /** BZIP2's decoder sees the magic, then every input byte from `ioff` on. */
  lemma Bzip2Input(input: seq<byte>, ioff: nat)
    requires ioff <= |input|
    ensures |DecoderInput(Bzip2, input, ioff)| == 4 + |input| - ioff
    ensures DecoderInput(Bzip2, input, ioff)[..4] == [0x42, 0x5A, 0x68, 0x31]
    ensures DecoderInput(Bzip2, input, ioff)[4..] == input[ioff..]
  {
  }

  /** The fill loop returns normally exactly when the stream supplies the output, or is GZIP's and ends without an error. */
  lemma FillDone(d: Decoded, length: nat, sticky: bool)
    ensures FillStatus(d, length, sticky) == Done <==> Supplies(d, length) || (d.Stream? && sticky && !d.fails)
  {
  }

  /** A stream that supplies the output leaves exactly its first `output.length` bytes, whatever the output held before. */
  lemma FillExact(d: Decoded, before: seq<byte>, sticky: bool)
    requires Supplies(d, |before|)
    ensures FillStatus(d, |before|, sticky) == Done
    ensures Filled(d, before) == d.content[..|before|]
  {
  }

  /**
   * A stream that ends early leaves its decoded bytes at the front of the
   * output and the old bytes after them; it fails with its IOException, or
   * for BZIP2 with IndexOutOfBounds, and GZIP returns normally.
   */
  lemma FillShort(d: Decoded, before: seq<byte>, sticky: bool)
    requires d.Stream? && |d.content| < |before|
    ensures Filled(d, before)[..|d.content|] == d.content
    ensures Filled(d, before)[|d.content|..] == before[|d.content|..]
    ensures FillStatus(d, |before|, sticky) == (if d.fails then IOError else if sticky then Done else IndexOutOfBounds)
  {
  }

  /**
   * NONE and BZIP2 fill the whole output from what they were given whenever
   * they return normally, and GZIP does when its stream supplies the output.
   */
  lemma DoneDeterminesOutput(m: Method, input: seq<byte>, ioff: nat, a: seq<byte>, b: seq<byte>, bzip2: Backend, gzip: Backend)
    requires |a| == |b|
    requires StatusOf(m, input, ioff, |a|, bzip2, gzip) == Done
    requires m == Gzip ==> Supplies(Decode(m, input, ioff, bzip2, gzip), |a|)
    ensures OutputOf(m, input, ioff, a, bzip2, gzip) == OutputOf(m, input, ioff, b, bzip2, gzip)
  {
    if m == Bzip2 || m == Gzip {
      FillDone(Decode(m, input, ioff, bzip2, gzip), |a|, m == Gzip);
      FillExact(Decode(m, input, ioff, bzip2, gzip), a, m == Gzip);
      FillExact(Decode(m, input, ioff, bzip2, gzip), b, m == Gzip);
    }
  }

  /** A GZIP stream that ends early without an error returns normally and keeps the output's old tail. */
  lemma GzipEndsEarly(input: seq<byte>, ioff: nat, before: seq<byte>, bzip2: Backend, gzip: Backend)
    requires Decode(Gzip, input, ioff, bzip2, gzip).Stream?
    requires |Decode(Gzip, input, ioff, bzip2, gzip).content| < |before|
    requires !Decode(Gzip, input, ioff, bzip2, gzip).fails
    ensures StatusOf(Gzip, input, ioff, |before|, bzip2, gzip) == Done
    ensures OutputOf(Gzip, input, ioff, before, bzip2, gzip)
         == Decode(Gzip, input, ioff, bzip2, gzip).content + before[|Decode(Gzip, input, ioff, bzip2, gzip).content|..]
  {
  }
}
