# A model of the JS5 cache library

This project models the storage core of a Java library for the RuneScape
JS5 cache. The core has these parts:

- **`JavaFileStore`**: the client's on-disk store. It uses a pointer file
  (`.idx`) that holds one six-byte record per group, `[size:3][first block:3]`.
  It also uses a data file (`.dat2`) cut into 520-byte blocks. Each block has
  a header followed by up to 512 bytes of the group (510 for group ids above
  65535). The header names the group, the chunk number, the next block and
  the archive. `load` follows the chain and checks every header. `store`
  first tries to overwrite the group's existing chain; when that fails, it
  writes a fresh chain at the end of the data file.
- **`Packet`**: a byte cursor over a `ByteBuffer`. It has fixed-width big- and
  little-endian puts and gets, array and string copies, and the two
  variable-width "smart" integers.
- **`Js5Compression`** and **`Compression`**: the JS5 envelope
  `[method:1][compressed length:4]([decompressed length:4])[payload]`, and the
  four methods NONE, BZIP2, GZIP and LZMA.
- **`PackFileSystem`**: a whole cache in one file. The file holds the index
  chunk, then one chunk per group that the index lists.
- **`Group`**: a group's metadata and its sparse table of files.
- **`CRC`**: the table-driven CRC-32.

Java's `null` results are `None`. Exceptions are `Failure`/status values
that name the exception. Java `int` arithmetic is written out where it can
wrap: `Wrap32`, `WrapAdd` and `IndexOffset`. A Java method that updates an
object's fields is a Dafny `class` method with a `modifies` clause. Each such
method is proved against a pure function of the old state, and the
properties are lemmas about those functions.

Files:

- `wrappers.dfy`: `Option`, `Result`.
- `bytes.dfy`: bytes, `int32`, big- and little-endian codecs and their
  round trips.
- `packet.dfy`: the cursor.
- `crc.dfy`: the CRC.
- `compression.dfy`, `js5.dfy`: decompression.
- `group.dfy`: groups.
- `pack.dfy`: the pack file system.
- `filestore.dfy`: the disk store.

Source paths below are relative to the repository root.

## Model

| member | source | states |
|---|---|---|
| Bytes.Int32RoundTrip | src/main/java/me/waliedyassen/cache/io/Packet.java:82-87 | the four bytes `p4` writes, read back as an unsigned number and then sign-wrapped, give the original `int` |
| Bytes.Int32Bytes | src/main/java/me/waliedyassen/cache/io/Packet.java:272-279 | `g4` followed by `p4` rebuilds any four bytes: the encoder is onto |
| Bytes.Int32OfBigEndian | src/main/java/me/waliedyassen/cache/compression/Js5Compression.java:27 | the header-length expression `(d[1]&0xff)<<24 \| …` decodes big-endian bytes back to every `int` |
| Bytes.Int32Unsigned | src/main/java/me/waliedyassen/cache/compression/Js5Compression.java:27 | that same expression is the unsigned big-endian value taken modulo 2^32 into the signed range |
| Bytes.Int32RoundTripLE | src/main/java/me/waliedyassen/cache/io/Packet.java:94-99 | the bytes `ip4` writes, read back little-endian, give the original `int` |
| Bytes.UnsignedBigEndian | src/main/java/me/waliedyassen/cache/io/Packet.java:222-252 | `g2`/`g3` read back any value below 256^n that `p2`/`p3` wrote |
| Bytes.BigEndianUnsigned | src/main/java/me/waliedyassen/cache/io/Packet.java:222-252 | writing back the value of any n bytes gives those bytes |
| Bytes.UnsignedLELittleEndian | src/main/java/me/waliedyassen/cache/io/Packet.java:234-265 | `ig2`/`ig3` read back any value below 256^n that `ip2`/`ip3` wrote |
| Bytes.LittleIsReversedBig | src/main/java/me/waliedyassen/cache/io/Packet.java:50-53 | the little-endian bytes of a value are its big-endian bytes reversed |
| Bytes.BigEndianPeriodic | src/main/java/me/waliedyassen/cache/io/Packet.java:41-42 | the `(byte)` casts keep only the low 8n bits: adding 256^n changes nothing written |
| Bytes.UnsignedBound | src/main/java/me/waliedyassen/cache/io/Packet.java:246-252 | n unsigned bytes read as a number below 256^n |
| Bytes.WrapAddWraps | src/main/java/me/waliedyassen/cache/fs/pack/PackFileSystem.java:138 | the branch-wise `int` addition is the sum modulo 2^32 in the signed range |
| Packet.Packet.Put | src/main/java/me/waliedyassen/cache/io/Packet.java:32 | `put` stores the byte at the position and advances it; at the limit it changes nothing and reports overflow |
| Packet.Packet.Get | src/main/java/me/waliedyassen/cache/io/Packet.java:214 | `get` returns the byte at the position and advances it; at the limit it reports underflow and stays |
| Packet.Packet.P1 | src/main/java/me/waliedyassen/cache/io/Packet.java:31-33 | writes the low byte, or overflows with nothing written |
| Packet.Packet.P2 | src/main/java/me/waliedyassen/cache/io/Packet.java:40-43 | writes the two big-endian bytes; when room runs out, the bytes that fitted are written and the position stops at the limit |
| Packet.Packet.IP2 | src/main/java/me/waliedyassen/cache/io/Packet.java:50-53 | the same for the two little-endian bytes |
| Packet.Packet.P3 | src/main/java/me/waliedyassen/cache/io/Packet.java:60-64 | the same for three big-endian bytes |
| Packet.Packet.IP3 | src/main/java/me/waliedyassen/cache/io/Packet.java:71-75 | the same for three little-endian bytes |
| Packet.Packet.P4 | src/main/java/me/waliedyassen/cache/io/Packet.java:82-87 | the same for four big-endian bytes |
| Packet.Packet.IP4 | src/main/java/me/waliedyassen/cache/io/Packet.java:94-99 | the same for four little-endian bytes |
| Packet.Packet.P5 | src/main/java/me/waliedyassen/cache/io/Packet.java:106-112 | the same for the five low big-endian bytes of a `long` |
| Packet.Packet.IP5 | src/main/java/me/waliedyassen/cache/io/Packet.java:119-125 | the same for the five low little-endian bytes of a `long` |
| Packet.Packet.G1 | src/main/java/me/waliedyassen/cache/io/Packet.java:213-215 | the unsigned byte at the position, or underflow |
| Packet.Packet.G2 | src/main/java/me/waliedyassen/cache/io/Packet.java:222-227 | the unsigned big-endian value of the next two bytes; when they are not both there, underflow with the position at the limit |
| Packet.Packet.IG2 | src/main/java/me/waliedyassen/cache/io/Packet.java:234-239 | the little-endian value of the next two bytes, or underflow |
| Packet.Packet.G3 | src/main/java/me/waliedyassen/cache/io/Packet.java:246-252 | the big-endian value of the next three bytes, or underflow |
| Packet.Packet.IG3 | src/main/java/me/waliedyassen/cache/io/Packet.java:259-265 | the little-endian value of the next three bytes, or underflow |
| Packet.Packet.G4 | src/main/java/me/waliedyassen/cache/io/Packet.java:272-279 | the next four bytes as a signed `int`: the unsigned big-endian value wrapped into the signed range |
| Packet.Packet.IG4 | src/main/java/me/waliedyassen/cache/io/Packet.java:286-293 | the same, little-endian |
| Packet.Packet.PSmart1or2 | src/main/java/me/waliedyassen/cache/io/Packet.java:134-142 | throws IllegalArgument exactly outside [0, 32768) with nothing changed; otherwise it writes one byte below 128 and else `v + 32768` in two |
| Packet.Packet.PSmart2or4 | src/main/java/me/waliedyassen/cache/io/Packet.java:151-161 | throws below -1; writes `0x7FFF` for -1, two bytes below `0x7FFF`, and `p4(v \| 0x80)` from there on |
| Packet.Packet.GSmart1or2 | src/main/java/me/waliedyassen/cache/io/Packet.java:301-307 | succeeds exactly when the smart reader accepts the remaining bytes, and returns its value and length; an absolute peek at the limit is IndexOutOfBounds and a short second byte is underflow |
| Packet.Packet.GSmart2or4 | src/main/java/me/waliedyassen/cache/io/Packet.java:315-320 | a first byte with the sign bit set selects `g4() & 0x7FFFFFFF`, any other selects `g2()`; the errors are as for `gSmart1or2` |
| Packet.Packet.PArrayBuffer | src/main/java/me/waliedyassen/cache/io/Packet.java:177-179 | the puts of the whole array, up to the limit |
| Packet.Packet.PArrayBufferRange | src/main/java/me/waliedyassen/cache/io/Packet.java:189-193 | `len` is an end index. It puts `buf[off..len)` in order, none when `off >= len`. A negative `off` or an index past `buf` throws IndexOutOfBounds once the puts before it are done. A full buffer throws BufferOverflow at the first put that does not fit |
| Packet.Packet.Pstr | src/main/java/me/waliedyassen/cache/io/Packet.java:200-205 | the low 8 bits of every character, then a 0 terminator, up to the limit |
| Packet.Packet.GArrayBuffer | src/main/java/me/waliedyassen/cache/io/Packet.java:328-330 | fills the array from the cursor up to the limit; the rest of the array keeps its old bytes |
| Packet.Packet.GArrayBufferRange | src/main/java/me/waliedyassen/cache/io/Packet.java:340-344 | one `get` per index from `off` up to and including the first bad index of `buf`, whose byte is lost. `buf[off..len)` is filled from the cursor and the rest of `buf` is kept. BufferUnderflow exactly when the gets run past the limit, otherwise IndexOutOfBounds exactly when the range leaves `buf` |
| Packet.Smart1or2RoundTrip | src/main/java/me/waliedyassen/cache/io/Packet.java:134-142 | `pSmart1or2` accepts exactly [0, 32768), in one byte below 128 and two otherwise, and `gSmart1or2` reads back the same value and length whatever follows |
| Packet.Smart2or4Range | src/main/java/me/waliedyassen/cache/io/Packet.java:151-153 | `pSmart2or4` throws exactly below -1 |
| Packet.Smart2or4RoundTrip | src/main/java/me/waliedyassen/cache/io/Packet.java:156-157 | values in [0, 0x7FFF) take two bytes and `gSmart2or4` reads them back |
| Packet.Smart2or4MinusOne | src/main/java/me/waliedyassen/cache/io/Packet.java:154-155 | -1 is written as `7F FF`, which `gSmart2or4` reads as 32767 and never as -1 |
| Packet.Smart2or4Large | src/main/java/me/waliedyassen/cache/io/Packet.java:158-160 | from 0x7FFF on, four bytes are written whose first byte has bit 7 clear, so `gSmart2or4` takes the two-byte path and reads `v / 65536`, which is never `v` |
| Packet.OrBit7High | src/main/java/me/waliedyassen/cache/io/Packet.java:159 | `v \| 0x80` keeps a non-negative `int` non-negative and leaves its high 16 bits alone |
| Crc.BuildTable | src/main/java/me/waliedyassen/cache/io/CRC.java:20-33 | 256 entries, entry i being eight reflected shift-and-xor steps with 0xEDB88320 applied to i |
| Crc.Entry | src/main/java/me/waliedyassen/cache/io/CRC.java:23-31 | the inner loop computes the entry of i |
| Crc.KnownEntries | src/main/java/me/waliedyassen/cache/io/CRC.java:13 | entry 0 is 0 and entry 128 is the polynomial itself |
| Crc.StepsEight | src/main/java/me/waliedyassen/cache/io/CRC.java:24-30 | eight turns of the inner loop are the eight-step table function |
| Crc.ComputeRange | src/main/java/me/waliedyassen/cache/io/CRC.java:53-59 | `off >= len` gives 0; otherwise it succeeds exactly when `data[off..len)` is in bounds, and the result is the complemented register after those bytes |
| Crc.Compute | src/main/java/me/waliedyassen/cache/io/CRC.java:41-43 | the checksum of the whole array |
| Crc.EmptyChecksum | src/main/java/me/waliedyassen/cache/io/CRC.java:54-58 | the checksum of no bytes is 0 |
| Crc.LoopStep | src/main/java/me/waliedyassen/cache/io/CRC.java:55-57 | one turn of the loop, through the sign-extended byte, extends the register by that byte |
| Crc.SignExtendIndex | src/main/java/me/waliedyassen/cache/io/CRC.java:56 | sign-extending the `byte` before `^ … & 0xff` does not change the table index |
| Crc.RegisterAppend | src/main/java/me/waliedyassen/cache/io/CRC.java:55-57 | the register after `a + b` is the register after `a`, continued over `b` |
| Compression.Id | src/main/java/me/waliedyassen/cache/compression/Compression.java:90-103 | the tag of each method is in [0, 4) |
| Compression.ForIdId | src/main/java/me/waliedyassen/cache/compression/Compression.java:90-103 | `forId` of a method's tag is that method |
| Compression.IdForId | src/main/java/me/waliedyassen/cache/compression/Compression.java:90-103 | `forId` is non-null exactly for 0..3 and then inverts the tag |
| Compression.DecoderStream.Read | src/main/java/me/waliedyassen/cache/compression/Compression.java:41-59 | `InputStream.read(b, off, len)`: bad bounds throw; 0 for `len == 0`; -1 at the end, which a GZIP stream then repeats without checking its arguments; otherwise between 1 and `len` bytes copied at `off` and the rest of `b` unchanged |
| Compression.FillLoop | src/main/java/me/waliedyassen/cache/compression/Compression.java:41-59 | the read loop's status and the output are the fill of the output from the decoded stream. Each -1 walks the `int` cursor back; BZIP2 then throws at -1, GZIP wraps the cursor to `Integer.MAX_VALUE` and returns normally |
| Compression.Decompress | src/main/java/me/waliedyassen/cache/compression/Compression.java:21-70 | NONE copies `output.length` bytes from `ioff`, BZIP2 feeds `BZh1` and the input to the decoder, GZIP feeds the input, and LZMA is unsupported; status and output are those of the fill loop |
| Compression.Bzip2Input | src/main/java/me/waliedyassen/cache/compression/Compression.java:31-40 | the BZIP2 decoder sees the four magic bytes `BZh1` and then exactly the input from `ioff` |
| Compression.FillDone | src/main/java/me/waliedyassen/cache/compression/Compression.java:41-59 | the loop returns normally exactly when the stream yields the whole output, or is GZIP's and ends without an IOException |
| Compression.FillExact | src/main/java/me/waliedyassen/cache/compression/Compression.java:41-44 | a stream that yields at least `output.length` bytes ends normally with exactly the first `output.length` of them |
| Compression.FillShort | src/main/java/me/waliedyassen/cache/compression/Compression.java:41-59 | when the stream is shorter than the output, the decoded bytes are copied and the rest keeps its old bytes; the loop ends with the stream's IOException, for BZIP2 with IndexOutOfBounds, and for GZIP normally |
| Compression.DoneDeterminesOutput | src/main/java/me/waliedyassen/cache/compression/Compression.java:21-61 | after a normal end of NONE or BZIP2, or of GZIP with a stream that yields the whole output, the output does not depend on what the array held before |
| Compression.GzipEndsEarly | src/main/java/me/waliedyassen/cache/compression/Compression.java:53-59 | a GZIP stream that ends early without an IOException returns normally, with the decoded bytes followed by the array's old tail |
| Js5Compression.Decompress | src/main/java/me/waliedyassen/cache/compression/Js5Compression.java:18-41 | returns a fresh array exactly when the envelope decodes, with the envelope's bytes, or else the same exception |
| Js5Compression.ShortInput | src/main/java/me/waliedyassen/cache/compression/Js5Compression.java:19-21 | fewer than five bytes is IllegalArgument |
| Js5Compression.UnknownTag | src/main/java/me/waliedyassen/cache/compression/Js5Compression.java:22-26 | a tag above 3 is IllegalArgument whatever follows |
| Js5Compression.StoredPayload | src/main/java/me/waliedyassen/cache/compression/Js5Compression.java:27-30 | NONE succeeds exactly when the `clen` bytes after the header are there and is then those bytes; otherwise it is IndexOutOfBounds |
| Js5Compression.OutputLength | src/main/java/me/waliedyassen/cache/compression/Js5Compression.java:28-34 | the output is `clen` bytes long for NONE and `dlen` bytes long otherwise |
| Js5Compression.StoredRoundTrip | src/main/java/me/waliedyassen/cache/compression/Js5Compression.java:18-41 | an uncompressed envelope built from any payload shorter than 2^31 opens to that payload |
| Js5Compression.StoredExample | src/main/java/me/waliedyassen/cache/compression/Js5Compression.java:18-41 | `00 00 00 00 04 DE AD BE EF` opens to `DE AD BE EF` |
| Js5Compression.GzipEnvelope | src/main/java/me/waliedyassen/cache/compression/Js5Compression.java:32-36 | GZIP yields the first `dlen` decoded bytes of the payload after the nine header bytes; a shorter stream yields its bytes followed by the zeros of the fresh array; a decoder IOException becomes IllegalArgument; the compressed length is ignored |
| Js5Compression.Bzip2Envelope | src/main/java/me/waliedyassen/cache/compression/Js5Compression.java:35-39 | BZIP2 yields the first `dlen` bytes decoded from `BZh1` plus the payload; a shorter stream ends in IndexOutOfBounds; a decoder IOException becomes IllegalArgument |
| Js5Compression.LzmaUnsupported | src/main/java/me/waliedyassen/cache/compression/Compression.java:68-70 | LZMA always ends in UnsupportedOperation |
| Group.Group.constructor | src/main/java/me/waliedyassen/cache/archive/Group.java:14-21 | only the id is set; every other field is 0 or null |
| Group.Group.SetFileData | src/main/java/me/waliedyassen/cache/archive/Group.java:82-84 | replaces the file table and nothing else |
| Group.Group.SetFileName32 | src/main/java/me/waliedyassen/cache/archive/Group.java:75-77 | replaces the name table and nothing else |
| Group.Group.InitFiles | src/main/java/me/waliedyassen/cache/archive/Group.java:92-97 | `count` null slots, plus `count` zero names when asked and otherwise the old names; a negative count throws with nothing changed |
| Group.Group.Contains | src/main/java/me/waliedyassen/cache/archive/Group.java:132-134 | as written: it throws on a null table, throws IndexOutOfBounds exactly at `id == length`, and is otherwise true exactly for a present slot |
| Group.Group.ContainsChecked | src/main/java/me/waliedyassen/cache/archive/Group.java:132-134 | corrected bound: it never indexes past the table and is true exactly for a present slot |
| Group.Group.GetFile | src/main/java/me/waliedyassen/cache/archive/Group.java:106-111 | as written, through `contains`: it throws on a null table and IndexOutOfBounds at `id == length`; otherwise the slot's data when present and null when not |
| Group.Group.GetFileChecked | src/main/java/me/waliedyassen/cache/archive/Group.java:106-111 | over the corrected `contains`: throws only on a null table; the slot's data when present and null otherwise |
| Group.Group.GetName32 | src/main/java/me/waliedyassen/cache/archive/Group.java:119-124 | as written: -1 with no names; otherwise `contains` throws at `id == length`; -1 for an absent file, else the file's name; a name table shorter than the file table throws for the files past it |
| Group.Group.GetName32Checked | src/main/java/me/waliedyassen/cache/archive/Group.java:119-124 | the same over the corrected `contains`: -1 at and past the end of the table |
| Group.ContainsPastEnd | src/main/java/me/waliedyassen/cache/archive/Group.java:133 | the id equal to the table length throws in the method as written and is absent in the corrected one |
| Group.ContainsAgrees | src/main/java/me/waliedyassen/cache/archive/Group.java:133 | for every other id the two agree |
| Group.QueriesPastEnd | src/main/java/me/waliedyassen/cache/archive/Group.java:106-124 | at `id == length` `getFile` and `getName32` as written throw where the corrected ones return null and -1 |
| Group.QueriesAgree | src/main/java/me/waliedyassen/cache/archive/Group.java:106-124 | at every other id the queries as written and the corrected ones agree |
| Group.PresentIffData | src/main/java/me/waliedyassen/cache/archive/Group.java:106-111 | wherever `contains` returns, it is true exactly when `getFile` returns data |
| Group.PresentIffDataChecked | src/main/java/me/waliedyassen/cache/archive/Group.java:106-111 | with a table and the corrected bound, the same holds at every id |
| PackFileSystem.PackFileSystem.LoadGroup | src/main/java/me/waliedyassen/cache/fs/pack/PackFileSystem.java:69-74 | null outside the table, the slot inside it |
| PackFileSystem.PackFileSystem.StoreGroup | src/main/java/me/waliedyassen/cache/fs/pack/PackFileSystem.java:80-85 | grows the table to `id + 1` when needed and fills slot `id`, leaving every other slot and the index unchanged; a negative id throws, and `id + 1` overflows for `Integer.MAX_VALUE` |
| PackFileSystem.PackFileSystem.StoreIndex | src/main/java/me/waliedyassen/cache/fs/pack/PackFileSystem.java:91-101 | `loadIndex` then returns the stored blob; the groups stay |
| PackFileSystem.PackFileSystem.ReadPackedChunk | src/main/java/me/waliedyassen/cache/fs/pack/PackFileSystem.java:133-149 | the buffer is a copy of the next `clen + 5` stream bytes, where `clen` is `len`, or `len + 4` for a compressed tag, in `int` arithmetic; a stream that ends early is EOF, and a negative or too-small size throws |
| PackFileSystem.PackFileSystem.ReadPieces | src/main/java/me/waliedyassen/cache/fs/pack/PackFileSystem.java:143-147 | the 32 MiB pieces and the remainder together copy exactly the next `clen` bytes after the header |
| PackFileSystem.PackFileSystem.Read | src/main/java/me/waliedyassen/cache/fs/pack/PackFileSystem.java:109-124 | the index chunk, then one chunk per listed group in ascending id order into a table of null slots; it stops at the first failing chunk |
| PackFileSystem.PackFileSystem.Write | src/main/java/me/waliedyassen/cache/fs/pack/PackFileSystem.java:157-173 | the index blob verbatim, then each listed group's blob in id order; a null index, a listed slot past the table and a null listed blob each throw |
| PackFileSystem.Chunk | src/main/java/me/waliedyassen/cache/fs/pack/PackFileSystem.java:133-149 | a chunk is at least five bytes, lies inside the stream and is a copy of it |
| PackFileSystem.ChunkOfFramed | src/main/java/me/waliedyassen/cache/fs/pack/PackFileSystem.java:133-149 | a blob whose header announces its own length is read back whole, whatever follows it |
| PackFileSystem.ReadGroupsStops | src/main/java/me/waliedyassen/cache/fs/pack/PackFileSystem.java:117-123 | after an error the rest of the group loop changes nothing |
| PackFileSystem.WriteGroupsOk | src/main/java/me/waliedyassen/cache/fs/pack/PackFileSystem.java:166-172 | `write` cannot fail when every listed group has a blob |
| PackFileSystem.GroupsRoundTrip | src/main/java/me/waliedyassen/cache/fs/pack/PackFileSystem.java:117-123 | reading back the written group blobs restores each listed slot and consumes exactly the written bytes |
| PackFileSystem.RestoredAt | src/main/java/me/waliedyassen/cache/fs/pack/PackFileSystem.java:117-123 | slot i after the round trip is the original blob when group i is listed, and null otherwise |
| PackFileSystem.WriteReadRoundTrip | src/main/java/me/waliedyassen/cache/fs/pack/PackFileSystem.java:109-173 | `write` then `read`: index and listed blobs come back, unlisted slots are null, and exactly the written bytes are consumed whatever follows |
| JavaFileStore.RandomAccessFile.Seek | src/main/java/me/waliedyassen/cache/fs/java/JavaFileStore.java:79 | a negative position is an IOException, and any other position moves the file pointer |
| JavaFileStore.RandomAccessFile.Read | src/main/java/me/waliedyassen/cache/fs/java/JavaFileStore.java:80 | the n bytes at the pointer, or a failure when the file ends before them |
| JavaFileStore.RandomAccessFile.Write | src/main/java/me/waliedyassen/cache/fs/java/JavaFileStore.java:177 | writes the bytes at the pointer, growing the file (zero-filled) when needed |
| JavaFileStore.ReadWritten | src/main/java/me/waliedyassen/cache/fs/java/JavaFileStore.java:176-177 | after a write, reading the same place gives back what was written |
| JavaFileStore.ReadElsewhere | src/main/java/me/waliedyassen/cache/fs/java/JavaFileStore.java:233-252 | a write leaves every read of other bytes unchanged |
| JavaFileStore.WriteTwice | src/main/java/me/waliedyassen/cache/fs/java/JavaFileStore.java:233-252 | writing a header and then the content after it is one write of both |
| JavaFileStore.RecordRoundTrip | src/main/java/me/waliedyassen/cache/fs/java/JavaFileStore.java:174-175 | `g3(0)` and `g3(3)` read back the size and block that `p3` wrote, for values below 2^24 |
| JavaFileStore.HeaderRoundTrip | src/main/java/me/waliedyassen/cache/fs/java/JavaFileStore.java:228-245 | the block header `store` writes, decoded as `load` decodes it, gives back group, chunk, next block and archive, in both the 8- and the 10-byte layout |
| JavaFileStore.WalkPrefix | src/main/java/me/waliedyassen/cache/fs/java/JavaFileStore.java:92-136 | the chain walk only appends: the bytes already gathered stay at the front of the result |
| JavaFileStore.LoadedChecks | src/main/java/me/waliedyassen/cache/fs/java/JavaFileStore.java:76-89 | every group that `load` returns has its record inside the pointer file and a first block inside the data file, and is exactly the record's size long |
| JavaFileStore.GroupsRecords | src/main/java/me/waliedyassen/cache/fs/java/JavaFileStore.java:271-277 | the group count is `length / 6`; an id below it has a whole record, and `load` of any id at or above it is null |
| JavaFileStore.AllocatePastEnd | src/main/java/me/waliedyassen/cache/fs/java/JavaFileStore.java:215-224 | a newly allocated block is never 0, never the block being written, and starts at or past the end of the data file |
| JavaFileStore.FreshPass | src/main/java/me/waliedyassen/cache/fs/java/JavaFileStore.java:168-173 | a fresh pass starts at block `ceil(length / 520)`, or at 1 for an empty file, and returns true for any id whose record offset `id * 6` is not negative |
| JavaFileStore.FreshChainSucceeds | src/main/java/me/waliedyassen/cache/fs/java/JavaFileStore.java:180-257 | with `exists == false`, the block loop never returns false |
| JavaFileStore.StoreFrame | src/main/java/me/waliedyassen/cache/fs/java/JavaFileStore.java:148-264 | `store` changes no byte of the pointer file outside the group's own six-byte record, and no byte of a data block whose header names another group or archive (block 0 excepted for an id above 65535); neither file shrinks; stated for a data file small enough that no block offset `block * 520` of either pass reaches 2^31 |
| JavaFileStore.PassRoundTrip | src/main/java/me/waliedyassen/cache/fs/java/JavaFileStore.java:154-258 | a pass that returns true leaves a record and chain from which `load` returns exactly the stored bytes |
| JavaFileStore.StoreRoundTrip | src/main/java/me/waliedyassen/cache/fs/java/JavaFileStore.java:73-152 | `store(id, data)` then `load(id)` returns `data`; this holds for ids up to 65535, a one-byte archive id, 0 < length < 2^24 and a data file small enough that no block offset `block * 520` of either pass reaches 2^31 |
| JavaFileStore.StoreTurnEndsEarly | src/main/java/me/waliedyassen/cache/fs/java/JavaFileStore.java:225-227 | as written: for an id above 65535, a turn with 511 or 512 bytes left points at block 0 although it writes only 510 of them |
| JavaFileStore.StoreLosesTail | src/main/java/me/waliedyassen/cache/fs/java/JavaFileStore.java:73-152 | storing 511 bytes under id 65536 into empty files and loading them gives null |
| JavaFileStore.StoreTurnChecked | src/main/java/me/waliedyassen/cache/fs/java/JavaFileStore.java:225-227 | corrected: a turn points at block 0 exactly when it writes the rest of the group |
| JavaFileStore.StoreTurnAgrees | src/main/java/me/waliedyassen/cache/fs/java/JavaFileStore.java:225-227 | for ids up to 65535 the turn as written is the corrected one |
| JavaFileStore.JavaFileStore.Load | src/main/java/me/waliedyassen/cache/fs/java/JavaFileStore.java:73-143 | the files are unchanged, and the result is `Loaded`: the record, the block checks and the chain walk with every header checked |
| JavaFileStore.JavaFileStore.GroupCount | src/main/java/me/waliedyassen/cache/fs/java/JavaFileStore.java:271-277 | `(int) (length / 6)` of the pointer file |
| JavaFileStore.JavaFileStore.Store | src/main/java/me/waliedyassen/cache/fs/java/JavaFileStore.java:148-152 | both files become `StoredFiles`: the overwrite pass, or, when that fails, a fresh pass over what it left |
| JavaFileStore.JavaFileStore.StorePass | src/main/java/me/waliedyassen/cache/fs/java/JavaFileStore.java:154-264 | both files and the result become `Pass`: the first block, the record, then the block loop |
| JavaFileStore.JavaFileStore.CheckBlockAt | src/main/java/me/waliedyassen/cache/fs/java/JavaFileStore.java:182-214 | the existing block's header is checked against group, chunk and archive, and its next pointer is returned only when it lies inside the data file |
| JavaFileStore.JavaFileStore.ReadChain | src/main/java/me/waliedyassen/cache/fs/java/JavaFileStore.java:89-137 | the loop of `load` returns the chain walk with the bytes copied out of each block |

## Left out

- I/O: a file is a byte sequence that the methods read and write whole.
  `IOException` comes only from a negative seek. `printStackTrace`, the
  `synchronized` blocks and `getGroupCount`'s `IOException` → 0 branch are
  not modelled.
- The shared 520-byte `BUFFER` of `JavaFileStore` is modelled as values. A
  `RandomAccessFile.read` that stops short is a failure (`null` / `false`).
  Java would go on decoding whatever stale bytes the buffer still held.
  Because of this, the `EOFException` `catch … break` at lines 190 and 200
  is never reached.
- JavaFileStore.StoreRoundTrip: stated only for group ids up to 65535. For
  larger ids, line 225 ends the chain when 511 or 512 bytes remain, but such
  a block holds only 510. The last one or two bytes go into block 0, and
  `load` then returns null for the whole group (line 93); see Findings.
  Other limits: the stored size is a 24-bit field, the archive id a byte,
  and the data file is bounded as the `block * 520` items below say.
- JavaFileStore.StoreRoundTrip: an empty group is excluded. `load` of a
  length-0 record still demands a first block inside the data file.
- JavaFileStore.StoreFrame: the frame allows block 0 for group ids above
  65535. When 511 or 512 bytes remain, line 225 sets the next pointer to 0,
  but such a block holds only 510. The next turn then writes the last bytes
  into block 0.
- JavaFileStore.JavaFileStore.Load, JavaFileStore.JavaFileStore.Store and
  JavaFileStore.JavaFileStore.StorePass compute `block * 520` without Java's
  32-bit wrap. From block 4,129,777 on (a data file past 2 GiB), Java seeks
  to a negative offset and fails. From block 8,259,553 on, which a 3-byte
  pointer can name, the product wraps to a positive offset and Java reads or
  writes a low block instead. The model uses the true offset in both cases.
- JavaFileStore.StoreRoundTrip and JavaFileStore.StoreFrame: stated only
  for `|data| + 2080 * (turns + 1) < 2^31`. Each pass grows the data file by
  at most 1040 bytes a turn and writes each block at most one block past its
  end, so no offset either pass computes reaches 2^31 and the model agrees
  with Java there.
- Js5Compression and Compression: the BZIP2 and GZIP decoders are function
  parameters (`Backend`). A decoder either fails at once (`Corrupt`) or
  yields a byte stream that may end in an IOException. Closing the streams
  is not modelled.
- PackFileSystem: `Index.decode` has no body in the code, so the index's
  group table is a parameter (`GroupTable`). `groupData` is never
  initialised in Java, so `read` would throw a NullPointerException. The
  model's `read` first allocates one null slot per listed group.
- PackFileSystem: `readPackedChunk` calls a `Packet(int)` constructor and
  `data()`/`pos()` accessors that the `Packet` class does not have. The
  model uses a `Packet` over a fresh array of that size.
- The PackFileSystem constructor and `commit` open files by path. Only their
  `read` and `write` bodies are modelled, over an in-memory stream.
  `CacheException` wrapping is left out.
- Packet.Packet.PArrayBuffer: the source array must not be the packet's own
  backing array. Aliasing the two is not modelled.
- Packet.Packet.PArrayBufferRange: the same aliasing precondition.
- Packet.Packet.GArrayBuffer: the same aliasing precondition. A `null`
  array (NullPointerException) has no counterpart in the model.
- Packet.Packet.GArrayBufferRange: the same aliasing precondition and no
  `null` array.
- Packet: the debugging `main` (lines 163-169) is left out.
- Crc: the table is not proved equal to a bitwise CRC-32 reference.
  `KnownEntries` and `StepsEight` pin its construction instead.
- Group: the Lombok getters and setters of the scalar metadata fields
  (version, name hash, CRCs, whirlpool, sizes) are plain field reads and
  writes in the model.
- Archive, Cache, Index and the file-system providers are not part of this
  model.

## Findings

| source | as written | input that shows it | evidently intended | confidence | as-written member | corrected member |
|---|---|---|---|---|---|---|
| src/main/java/me/waliedyassen/cache/archive/Group.java:133 | `id >= 0 && id <= fileData.length && fileData[id] != null` | a group with a two-slot table and `contains(2)`: `fileData[2]` is ArrayIndexOutOfBounds instead of `false` | `id < fileData.length` | not executed | Group.Group.Contains, Group.ContainsPastEnd, Group.Group.GetFile, Group.Group.GetName32, Group.QueriesPastEnd | Group.Group.ContainsChecked, Group.Group.GetFileChecked, Group.Group.GetName32Checked, Group.PresentIffDataChecked |
| src/main/java/me/waliedyassen/cache/fs/java/JavaFileStore.java:225 | `if (data.length - offset <= SMALL_DATA_BLOCK_CONTENT_SIZE) myNextBlock = 0;` for both header layouts | `store` of 511 bytes under group id 65536 into empty files: 510 bytes go to block 1, which points at block 0, and the last byte goes into block 0; `load` then returns null | compare with the layout's own content size, 510 bytes for ids above 65535 | not executed | JavaFileStore.StoreTurn, JavaFileStore.StoreTurnEndsEarly, JavaFileStore.StoreLosesTail | JavaFileStore.StoreTurnChecked |
