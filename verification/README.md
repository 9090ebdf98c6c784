# Packing raw bytes from a memoryview (msgpack-python)

This project models how msgpack-python's packer writes a raw byte payload
that comes from a Python buffer (a `memoryview` over an `array` or over
`bytes`). The behaviour is pinned down by `test/test_memoryview.py`. The
packer's own code is not part of this model, so the model is a small
reference encoder and decoder. Every test of that file is restated as a
lemma about it.

- **BigEndian**: bytes (`byte`, 0..255), big-endian length prefixes
  (`ToBE`, `FromBE`) and their byte layouts.
- **Formats**: the packer's `use_bin_type` flag (`Mode`: `Legacy` is False,
  `BinaryAware` is True, the default of `packb`). It also holds the header
  formats (fixstr, str16, str32, bin8, bin16, bin32), each mode's table of
  formats, and `SelectFormat`. `SelectFormat` picks the narrowest format of
  the mode's table that can hold the length. These tables follow the "str
  format family" and "bin format family" sections of the MessagePack
  specification.
- **Buffer**: a buffer view is an item size, a shape, byte strides and the
  underlying memory. `Flatten` walks the items in row-major order (the last
  dimension varies fastest) and returns their bytes.
  - `Cast` models `memoryview.cast` to a new shape, with the reshapes
    CPython allows when the format stays the same.
  - `MakeArray` models `array.frombytes`.
- **ItemOrder**: where each item lands when a view is flattened. The item
  at index (i0, i1, ...) is copied from its strided start in memory to its
  row-major position, for strided views as well as contiguous ones.
- **Codec**: `Encode` writes header ++ big-endian length ++ payload.
  - `Decode` models `unpackb` on one str/bin segment.
  - `Pack` models `packb(view, use_bin_type=...)`: flatten, then encode.
  - The header length is the view's byte count (item size × item count),
    never its element count.
- **MemoryviewTests**: `RunTest` is `_runtest`. There is one lemma per test
  function, one lemma per header range, and the multi-dimensional test.

Errors are values, not preconditions:
- `InvalidBufferShape`: item size 0, strides that do not match the shape, or
  an item outside memory.
- `LengthOverflow`: more than 2^32 − 1 bytes. No partial output is produced.
- `Truncated`, `ExtraData`, `UnsupportedFormat`: the decoder's errors.
- `CastRefused`: a reshape `memoryview.cast` does not allow.
- `NotMultipleOfItemSize`: `array.frombytes` given bytes that do not split
  into whole items.

Assumptions beyond the tests. The tests say nothing about these lengths, so
they are the model's own choices:
- Legacy mode, lengths 32–255: str16 (`0xda`). The legacy table simply has
  no 8-bit string form, because readers that predate the str/bin split do
  not know str8. No lemma claims this range as tested behaviour.
- Length 0: fixstr `0xa0` in legacy mode and bin8 `c4 00` in binary-aware
  mode. These are the first rows of the two tables.
- Lengths of 2^32 and more: `LengthOverflow`, with no output.

## Model

| member | source | states |
|---|---|---|
| BigEndian.ToBE | test/test_memoryview.py:38 | n < 256^w is written as exactly w bytes, most significant first, and reading them back gives n |
| BigEndian.FromBE | test/test_memoryview.py:38 | the value of a w-byte big-endian prefix is below 256^w |
| BigEndian.ToBEFromBE | test/test_memoryview.py:38 | every w-byte string is the ToBE of its own value, so a prefix has exactly one encoding per width |
| BigEndian.FromBEInjective | test/test_memoryview.py:38 | two prefixes of one width are equal exactly when their values are equal |
| BigEndian.ToBE1 | test/test_memoryview.py:74-80 | a one-byte prefix is the length itself (1 → 01, 255 → ff, 4 → 04, 252 → fc) |
| BigEndian.ToBE2 | test/test_memoryview.py:56-62 | a two-byte prefix is [L / 256, L % 256] (256 → 01 00, 65535 → ff ff, 65532 → ff fc) |
| BigEndian.ToBE4 | test/test_memoryview.py:66-70 | a four-byte prefix is the four base-256 digits of L, high first (65536 → 00 01 00 00) |
| Formats.SelectFormat | test/test_memoryview.py:45-98 | a format exists exactly for L ≤ 2^32 − 1 (else LengthOverflow); it belongs to the mode's table, holds L, and has the narrowest prefix of all table entries that hold L |
| Formats.SelectIsFirstFit | test/test_memoryview.py:45-98 | the selection equals scanning the mode's table (fixstr/str16/str32 or bin8/bin16/bin32) for the first entry whose range holds L |
| Formats.PrefixCapacity | test/test_memoryview.py:55-98 | a 1-, 2- or 4-byte prefix holds exactly the lengths up to the format's maximum (255, 65535, 2^32 − 1) |
| Formats.Tag | test/test_memoryview.py:45-98 | the first header byte lies in a0..bf exactly for fixstr, and a fixstr tag carries the length in its low five bits (a1, bf, a4, bc) |
| Formats.LengthPrefix | test/test_memoryview.py:38 | the prefix has the format's width and, except for fixstr, reads back as L |
| Formats.Header | test/test_memoryview.py:36-38 | a header is one tag byte plus the format's prefix width |
| Formats.ParseTag | test/test_memoryview.py:30 | a first byte is read as fixstr exactly when it lies in a0..bf, as any other format f exactly when it is f's tag, and as some format exactly when it is in a0..bf or one of da, db, c4, c5, c6 |
| Formats.DeclaredLength | test/test_memoryview.py:30 | the length read from a header never exceeds the format's maximum |
| Formats.HeaderReadsBack | test/test_memoryview.py:29-31 | every header names its own format and declares its own length |
| Formats.HeaderFromReadBack | test/test_memoryview.py:29-31 | bytes of the right width that read back as (format, L) are exactly Header(format, L) |
| Buffer.CStrides | test/test_memoryview.py:103-104 | the strides of a row-major gap-free layout: dimension k steps by item size × product of the later extents |
| Buffer.Gather | test/test_memoryview.py:104-105 | the row-major walk of a view yields item size × number of items bytes |
| Buffer.GatherRows | test/test_memoryview.py:104-105 | the first n slices of the outer dimension yield n slice-lengths of bytes |
| Buffer.ContiguousFits | test/test_memoryview.py:26 | a contiguous layout whose bytes fit in memory reaches no byte outside it |
| Buffer.ContiguousBound | test/test_memoryview.py:26 | conversely, a contiguous layout of at least one byte that fits ends inside memory |
| Buffer.ContiguousGather | test/test_memoryview.py:103-106 | walking a contiguous layout reads memory straight through: the bytes from base on, item size × item count of them |
| Buffer.ContiguousRows | test/test_memoryview.py:103-106 | the first n slices of a contiguous layout are the first n slice-lengths of memory |
| Buffer.Flatten | test/test_memoryview.py:25-26 | succeeds exactly for a valid view (else InvalidBufferShape); yields NBytes bytes; a contiguous view flattens to the leading NBytes bytes of its memory, and succeeds exactly when those exist |
| Buffer.MakeArray | test/test_memoryview.py:15-18 | `frombytes` succeeds exactly for whole items; the array holds the bytes, is one-dimensional and contiguous, and flattens back to them |
| Buffer.Cast | test/test_memoryview.py:103-104 | a recast succeeds exactly for a valid C-contiguous view of one-byte items, going from one dimension to several or from several to one, to at most 64 dimensions of positive extent, from a view without zero extents, and to a shape of the same byte count; the result is a valid contiguous view over the same memory that flattens to exactly the original's bytes |
| ItemOrder.RowMajorBound | test/test_memoryview.py:104-105 | every index inside the shape has a row-major position below the item count |
| ItemOrder.RowsSlice | test/test_memoryview.py:104-105 | slice i of the first n outer slices of the walk is the walk of slice i |
| ItemOrder.OuterSlice | test/test_memoryview.py:104-105 | slice i of the whole walk is the walk of slice i |
| ItemOrder.GatherItem | test/test_memoryview.py:104-105 | the walk holds the item at index idx at byte position RowMajor(idx) × item size, copied from memory at the item's strided start |
| ItemOrder.FlattenItem | test/test_memoryview.py:104-106 | every valid view, strided or not, flattens to its items in row-major order: the item at idx sits at position RowMajor(idx) × item size and equals the memory bytes at its strided start |
| Codec.Encode | test/test_memoryview.py:29-40 | output exists exactly for L ≤ 2^32 − 1; it is 1 + prefix width + L bytes long; its tag names the selected format; its header declares L; and the payload follows unmodified |
| Codec.Decode | test/test_memoryview.py:30-31 | an accepted segment is exactly a header declaring the payload's length followed by the payload |
| Codec.DecodeEncode | test/test_memoryview.py:29-31 | decoding an encoded payload returns the payload |
| Codec.EncodeIffDecode | test/test_memoryview.py:29-31 | Encode(mode, p) = s exactly when s decodes to p under the header the mode selects for the length of p |
| Codec.HeaderDependsOnlyOnLength | test/test_memoryview.py:50-52 | payloads of equal length get byte-identical headers and equal output lengths |
| Codec.Pack | test/test_memoryview.py:29-31 | packing succeeds exactly for a valid view of at most 2^32 − 1 bytes; InvalidBufferShape exactly for an invalid one; the output is 1 + width + NBytes long and unpacks to the flattened bytes |
| Codec.PackFlattened | test/test_memoryview.py:105 | packing a view is encoding its flattened bytes |
| Codec.PackHeaderCountsBytes | test/test_memoryview.py:24-25 | two views with the same byte count get the same header, whatever their item sizes and shapes |
| Codec.EncodeWithFormat | test/test_memoryview.py:36-40 | the output is the selected format's header followed by the payload |
| Codec.EncodeFixStr | test/test_memoryview.py:45-52 | legacy, L ≤ 31: the output is the single byte a0 + L, then the payload |
| Codec.EncodeStr16 | test/test_memoryview.py:55-62 | legacy, 256 ≤ L ≤ 65535: the output is da, L / 256, L % 256, then the payload |
| Codec.EncodeStr32 | test/test_memoryview.py:65-70 | legacy, 65536 ≤ L ≤ 2^32 − 1: the output is db, L as four big-endian bytes, then the payload |
| Codec.EncodeBin8 | test/test_memoryview.py:73-80 | binary-aware, L ≤ 255: the output is c4, L, then the payload |
| Codec.EncodeBin16 | test/test_memoryview.py:83-90 | binary-aware, 256 ≤ L ≤ 65535: the output is c5, L / 256, L % 256, then the payload |
| Codec.EncodeBin32 | test/test_memoryview.py:93-98 | binary-aware, 65536 ≤ L ≤ 2^32 − 1: the output is c6, L as four big-endian bytes, then the payload |
| Codec.DefaultPacksBin | test/test_memoryview.py:105-106 | `packb` without `use_bin_type` (the constant `Formats.DefaultMode`) writes a buffer under a bin header c4, c5 or c6, never a str one |
| Codec.LegacyEmitsRawHeadersOnly | test/test_memoryview.py:45-70 | legacy output starts with a fixstr, da or db, never with str8 (d9) or a bin tag |
| MemoryviewTests.ItemSize | test/test_memoryview.py:23-24 | `array(format).itemsize` is positive, so `nbytes // itemsize` items are well defined |
| MemoryviewTests.ArrayOf | test/test_memoryview.py:23-25 | `array(format)` after `fromlist([255] * count)`: item size = the item's width, count × width bytes of memory, and every item-sized group is the item |
| MemoryviewTests.Repeat | test/test_memoryview.py:24-25 | `count` items of w bytes fill count × w bytes |
| MemoryviewTests.RepeatChunks | test/test_memoryview.py:24-25 | every item-sized group of the filled array is the item |
| MemoryviewTests.ArrayOfBytes | test/test_memoryview.py:23-34 | the array built from nbytes // itemsize items holds nbytes bytes, flattens to them, and is what `make_array` rebuilds from them |
| MemoryviewTests.RunTest | test/test_memoryview.py:21-42 | `_runtest`: pack succeeds (29), unpack succeeds (30), `make_array` succeeds (31), the data is nbytes long (34), the first byte is the expected header (36), the next bytes are the expected prefix (38), the rest is the original data (40), and the rebuilt array equals the original (42); a passing run never has more than 2^32 − 1 bytes |
| MemoryviewTests.RunTestSelectsHeader | test/test_memoryview.py:21-42 | conversely, `_runtest` passes only for a whole number of items and only when the expected header and prefix are exactly the tag and length prefix of the format the mode selects |
| MemoryviewTests.RunTestOutcome | test/test_memoryview.py:21-42 | `_runtest` passes whenever the expected header and prefix are the tag and prefix of the format selected for nbytes |
| MemoryviewTests.RunTestFixStr | test/test_memoryview.py:45-52 | `_runtest` in legacy mode passes with header a0 + nbytes and no prefix, for every item format and nbytes ≤ 31 |
| MemoryviewTests.RunTestStr16 | test/test_memoryview.py:55-62 | `_runtest` in legacy mode passes with header da and a two-byte prefix for 256 ≤ nbytes ≤ 65535 |
| MemoryviewTests.RunTestStr32 | test/test_memoryview.py:65-70 | `_runtest` in legacy mode passes with header db and a four-byte prefix from 65536 bytes on |
| MemoryviewTests.RunTestBin8 | test/test_memoryview.py:73-80 | `_runtest` in binary-aware mode passes with header c4 and one length byte for nbytes ≤ 255 |
| MemoryviewTests.RunTestBin16 | test/test_memoryview.py:83-90 | `_runtest` in binary-aware mode passes with header c5 and a two-byte prefix for 256 ≤ nbytes ≤ 65535 |
| MemoryviewTests.RunTestBin32 | test/test_memoryview.py:93-98 | `_runtest` in binary-aware mode passes with header c6 and a four-byte prefix from 65536 bytes on |
| MemoryviewTests.FixstrFromByte | test/test_memoryview.py:45-47 | test_fixstr_from_byte passes for any byte value |
| MemoryviewTests.FixstrFromFloat | test/test_memoryview.py:50-52 | test_fixstr_from_float passes for any 4-byte item |
| MemoryviewTests.Str16FromByte | test/test_memoryview.py:55-57 | test_str16_from_byte passes for any byte value |
| MemoryviewTests.Str16FromFloat | test/test_memoryview.py:60-62 | test_str16_from_float passes for any 4-byte item |
| MemoryviewTests.Str32FromByte | test/test_memoryview.py:65-66 | test_str32_from_byte passes for any byte value |
| MemoryviewTests.Str32FromFloat | test/test_memoryview.py:69-70 | test_str32_from_float passes for any 4-byte item |
| MemoryviewTests.Bin8FromByte | test/test_memoryview.py:73-75 | test_bin8_from_byte passes for any byte value |
| MemoryviewTests.Bin8FromFloat | test/test_memoryview.py:78-80 | test_bin8_from_float passes for any 4-byte item |
| MemoryviewTests.Bin16FromByte | test/test_memoryview.py:83-85 | test_bin16_from_byte passes for any byte value |
| MemoryviewTests.Bin16FromFloat | test/test_memoryview.py:88-90 | test_bin16_from_float passes for any 4-byte item |
| MemoryviewTests.Bin32FromByte | test/test_memoryview.py:93-94 | test_bin32_from_byte passes for any byte value |
| MemoryviewTests.Bin32FromFloat | test/test_memoryview.py:97-98 | test_bin32_from_float passes for any 4-byte item |
| MemoryviewTests.CastSixZeros | test/test_memoryview.py:103-104 | six zero bytes recast as (3, 2) give a valid view that still flattens to the six zero bytes |
| MemoryviewTests.PackSmallBin | test/test_memoryview.py:105-106 | by default, a view of at most 255 bytes packs as c4, its byte count, its bytes |
| MemoryviewTests.MultidimMemoryview | test/test_memoryview.py:101-106 | the (3, 2) view of six zero bytes packs by default to exactly c4 06 00 00 00 00 00 00 |

## Left out

- The packer and unpacker themselves (C extension and pure-Python fallback): their code is not part of this model. `Encode`, `Decode` and `Pack` are reference definitions that the tests' vectors are checked against.
- Python `str` payloads: a text string in binary-aware mode is packed in the str family, which includes str8. The tests only pack buffers, so the model has no text/binary hint and no str8 on the encoding side.
- Codec.Decode: reads only the six formats the encoder writes. str8 and all non-string types are `UnsupportedFormat`, although `unpackb` reads them.
- The `raw=` flag of `unpackb` (bytes versus UTF-8 decoded text): the model returns the payload bytes in both modes.
- Float semantics of the "f" arrays: an item is an opaque group of four bytes, and every test lemma holds for any item bytes, including those of 255.0.
- MemoryviewTests.RunTest: compares the original and rebuilt arrays byte for byte. Python's `array ==` on an "f" array compares float values instead, so a NaN item would fail the comparison and -0.0 would equal 0.0. The tests fill the arrays with 255.0, where both comparisons agree.
- Buffer.Cast: the model keeps item sizes, not format characters. `memoryview.cast` to the same format needs a byte format ('B', 'b' or 'c'). The model admits every one-byte item, including '?', which CPython refuses. Casts that change the format are not modelled.
- Buffer views: strides are non-negative and there are no sub-offsets or negative steps. Views the packer might refuse for not being C-contiguous are flattened by the row-major walk; the tests only use contiguous views.
- Other MessagePack types (integers, floats, arrays, maps, ext) and message framing.
- The Python 2 skip marker: it decides only whether the tests run.
- Legacy lengths 32–255, length 0 and lengths of 2^32 or more are modelled as described above, but they are assumptions, not tested behaviour.
