/** The memoryview packing tests as statements about the model: `_runtest`
    packs an array through a memoryview, checks header, prefix and payload
    byte for byte, unpacks, and rebuilds the array. Array items are opaque
    byte groups: a "B" item is one byte, an "f" item four. */
module MemoryviewTests {
  import opened Wrappers
  import opened BigEndian
  import opened Formats
  import opened Buffer
  import opened Codec

  /** The c-th group of w bytes of s. */
  function Chunk(s: seq<byte>, c: nat, w: nat): seq<byte>
    requires (c + 1) * w <= |s|
  {
    s[c * w..(c + 1) * w]
  }

  /** `count` copies of one item's bytes, back to back. */
  function Repeat(item: seq<byte>, count: nat): (r: seq<byte>)
    ensures |r| == count * |item|
  {
    if count == 0 then []
    else
      GroupBounds(count, |item|);
      Repeat(item, count - 1) + item
  }

  /** Every item-sized group of a repetition is the item. */
  lemma {:induction false} RepeatChunks(item: seq<byte>, count: nat, c: nat)
    requires c < count
    ensures (c + 1) * |item| <= count * |item|
    ensures Chunk(Repeat(item, count), c, |item|) == item
  {
    MulMono(c + 1, count, |item|);
    var r := Repeat(item, count);
    var init := Repeat(item, count - 1);
    assert r == init + item;
    if c < count - 1 {
      MulMono(c + 1, count - 1, |item|);
      RepeatChunks(item, count - 1, c);
      assert Chunk(r, c, |item|) == Chunk(init, c, |item|);
    } else {
      GroupBounds(count, |item|);
    }
  }

  /** RepeatChunks for every group at once. */
  lemma RepeatAllChunks(item: seq<byte>, count: nat)
    ensures forall c :: 0 <= c < count ==>
              (c + 1) * |item| <= count * |item| && Chunk(Repeat(item, count), c, |item|) == item
  {
    forall c | 0 <= c < count
      ensures (c + 1) * |item| <= count * |item| && Chunk(Repeat(item, count), c, |item|) == item
    {
      RepeatChunks(item, count, c);
    }
  }

  /** The last of n groups of w bytes starts w bytes before n groups end. */
  lemma GroupBounds(n: nat, w: nat)
    requires n > 0
    ensures (n - 1) * w + w == n * w
  {
  }

  /** More groups never take fewer bytes. */
  lemma MulMono(a: nat, b: nat, w: nat)
    requires a <= b
    ensures a * w <= b * w
  {
  }

  /** The two array item formats the tests use: "B" (unsigned char) and "f" (float). */
  datatype Typecode = UnsignedChar | Float

  /** `array(format).itemsize`: every item takes at least one byte. */
  function ItemSize(t: Typecode): (r: nat)
    ensures r > 0
  {
    match t
    case UnsignedChar => 1
    case Float => 4
  }

  /** `array(format)` filled with `count` equal items: count * |item| bytes
      of memory, every item-sized group of which is the item. */
  function ArrayOf(item: seq<byte>, count: nat): (r: BufferView)
    ensures r.itemSize == |item| && |r.memory| == count * |item|
    ensures forall c :: 0 <= c < count ==> (c + 1) * |item| <= |r.memory| && Chunk(r.memory, c, |item|) == item
  {
    RepeatAllChunks(item, count);
    OneDim(|item|, Repeat(item, count))
  }

  /** The checks of `_runtest(format, nbytes, expected_header, expected_prefix,
      use_bin_type)` for an item format whose one item is written `item`. */
  predicate RunTest(format: Typecode, item: seq<byte>, nbytes: nat, expectedHeader: byte,
                    expectedPrefix: seq<byte>, mode: Mode)
    requires |item| == ItemSize(format)
    ensures RunTest(format, item, nbytes, expectedHeader, expectedPrefix, mode) ==> nbytes <= MaxPayload
  {
    var original := ArrayOf(item, nbytes / ItemSize(format));
    var packed := Pack(mode, original);
    && packed.Ok?
    && var unpacked := Decode(packed.value);
       && unpacked.Ok?
       && var rebuilt := MakeArray(ItemSize(format), unpacked.value);
          && rebuilt.Ok?
          && |original.memory| == nbytes
          && 1 + |expectedPrefix| <= |packed.value|
          && packed.value[..1] == [expectedHeader]
          && packed.value[1..1 + |expectedPrefix|] == expectedPrefix
          && packed.value[1 + |expectedPrefix|..] == original.memory
          && rebuilt.value == original
  }

  /** The array `_runtest` builds holds nbytes bytes, flattens to them, and
      is exactly what `make_array` rebuilds from them. */
  lemma {:induction false} ArrayOfBytes(item: seq<byte>, nbytes: nat)
    requires |item| > 0 && nbytes % |item| == 0
    ensures var original := ArrayOf(item, nbytes / |item|);
            && |original.memory| == nbytes
            && Flatten(original) == Ok(original.memory)
            && MakeArray(|item|, original.memory) == Ok(original)
  {
    var count := nbytes / |item|;
    assert count * |item| == nbytes;
    var data := Repeat(item, count);
    assert MakeArray(|item|, data) == Ok(OneDim(|item|, data));
  }

  /** `_runtest` passes for every whole number of items up to 2^32 - 1 bytes
      whose expected header and prefix are those of the format the mode
      selects for nbytes. */
  lemma {:induction false} RunTestOutcome(format: Typecode, item: seq<byte>, nbytes: nat, mode: Mode, f: Format,
                                          expectedHeader: byte, expectedPrefix: seq<byte>)
    requires |item| == ItemSize(format) && nbytes % ItemSize(format) == 0
    requires SelectFormat(mode, nbytes) == Ok(f)
    requires Tag(f, nbytes) == expectedHeader && LengthPrefix(f, nbytes) == expectedPrefix
    ensures RunTest(format, item, nbytes, expectedHeader, expectedPrefix, mode)
  {
    ArrayOfBytes(item, nbytes);
    var original := ArrayOf(item, nbytes / |item|);
    var data := original.memory;
    var packed := Pack(mode, original).value;
    assert Decode(packed) == Ok(data);
    assert packed == Header(f, nbytes) + data;
    assert packed == [expectedHeader] + expectedPrefix + data;
  }

  /** Conversely, `_runtest` passes only for a whole number of items and
      only when the expected header and prefix are exactly the tag and prefix
      of the format the mode selects: the test pins every header byte down. */
  lemma {:induction false} RunTestSelectsHeader(format: Typecode, item: seq<byte>, nbytes: nat, mode: Mode,
                                                expectedHeader: byte, expectedPrefix: seq<byte>)
    requires |item| == ItemSize(format)
    requires RunTest(format, item, nbytes, expectedHeader, expectedPrefix, mode)
    ensures nbytes % ItemSize(format) == 0
    ensures SelectFormat(mode, nbytes).Ok?
    ensures var f := SelectFormat(mode, nbytes).value;
            expectedHeader == Tag(f, nbytes) && expectedPrefix == LengthPrefix(f, nbytes)
  {
    var count := nbytes / ItemSize(format);
    var original := ArrayOf(item, count);
    assert count * ItemSize(format) == nbytes;
    assert nbytes % ItemSize(format) == 0 by {
      if format == UnsignedChar {
        assert nbytes == count;
      } else {
        assert nbytes == count * 4;
      }
    }
    ArrayOfBytes(item, nbytes);
    var data := original.memory;
    var f := SelectFormat(mode, nbytes).value;
    PackFlattened(mode, original);
    EncodeWithFormat(mode, data, f);
    var packed := Pack(mode, original).value;
    var w := PrefixWidth(f);
    assert packed == [Tag(f, nbytes)] + LengthPrefix(f, nbytes) + data;
    assert |packed[1 + |expectedPrefix|..]| == |data|;
    assert |expectedPrefix| == w;
    assert packed[1..1 + w] == LengthPrefix(f, nbytes);
  }

  // One lemma per header range, at the level of a whole `_runtest` call.

  /** `_runtest` in legacy mode for up to 31 bytes expects fixstr 0xa0 + nbytes, no prefix. */
  lemma RunTestFixStr(format: Typecode, item: seq<byte>, nbytes: nat)
    requires |item| == ItemSize(format) && nbytes % ItemSize(format) == 0
    requires nbytes <= 0x1F
    ensures RunTest(format, item, nbytes, 0xA0 + nbytes, [], Legacy)
  {
    RunTestOutcome(format, item, nbytes, Legacy, FixStr, 0xA0 + nbytes, []);
  }

  /** `_runtest` in legacy mode for 256 to 65535 bytes expects str16 0xda and two length bytes. */
  lemma RunTestStr16(format: Typecode, item: seq<byte>, nbytes: nat)
    requires |item| == ItemSize(format) && nbytes % ItemSize(format) == 0
    requires 0x100 <= nbytes <= 0xFFFF
    ensures RunTest(format, item, nbytes, 0xDA, ToBE(nbytes, 2), Legacy)
  {
    RunTestOutcome(format, item, nbytes, Legacy, Str16, 0xDA, ToBE(nbytes, 2));
  }

  /** `_runtest` in legacy mode from 65536 bytes on expects str32 0xdb and four length bytes. */
  lemma RunTestStr32(format: Typecode, item: seq<byte>, nbytes: nat)
    requires |item| == ItemSize(format) && nbytes % ItemSize(format) == 0
    requires 0x1_0000 <= nbytes <= MaxPayload
    ensures RunTest(format, item, nbytes, 0xDB, ToBE(nbytes, 4), Legacy)
  {
    assert Pow256(4) == 0x1_0000_0000 by { PrefixCapacity(Str32); }
    RunTestOutcome(format, item, nbytes, Legacy, Str32, 0xDB, ToBE(nbytes, 4));
  }

  /** `_runtest` in binary-aware mode for up to 255 bytes expects bin8 0xc4 and one length byte. */
  lemma RunTestBin8(format: Typecode, item: seq<byte>, nbytes: nat)
    requires |item| == ItemSize(format) && nbytes % ItemSize(format) == 0
    requires nbytes <= 0xFF
    ensures RunTest(format, item, nbytes, 0xC4, [nbytes], BinaryAware)
  {
    ToBE1(nbytes);
    RunTestOutcome(format, item, nbytes, BinaryAware, Bin8, 0xC4, [nbytes]);
  }

  /** `_runtest` in binary-aware mode for 256 to 65535 bytes expects bin16 0xc5 and two length bytes. */
  lemma RunTestBin16(format: Typecode, item: seq<byte>, nbytes: nat)
    requires |item| == ItemSize(format) && nbytes % ItemSize(format) == 0
    requires 0x100 <= nbytes <= 0xFFFF
    ensures RunTest(format, item, nbytes, 0xC5, ToBE(nbytes, 2), BinaryAware)
  {
    RunTestOutcome(format, item, nbytes, BinaryAware, Bin16, 0xC5, ToBE(nbytes, 2));
  }

  /** `_runtest` in binary-aware mode from 65536 bytes on expects bin32 0xc6 and four length bytes. */
  lemma RunTestBin32(format: Typecode, item: seq<byte>, nbytes: nat)
    requires |item| == ItemSize(format) && nbytes % ItemSize(format) == 0
    requires 0x1_0000 <= nbytes <= MaxPayload
    ensures RunTest(format, item, nbytes, 0xC6, ToBE(nbytes, 4), BinaryAware)
  {
    assert Pow256(4) == 0x1_0000_0000 by { PrefixCapacity(Bin32); }
    RunTestOutcome(format, item, nbytes, BinaryAware, Bin32, 0xC6, ToBE(nbytes, 4));
  }

  /** test_fixstr_from_byte */
  lemma FixstrFromByte(item: seq<byte>)
    requires |item| == ItemSize(UnsignedChar)
    ensures RunTest(UnsignedChar, item, 1, 0xA1, [], Legacy)
    ensures RunTest(UnsignedChar, item, 31, 0xBF, [], Legacy)
  {
    RunTestFixStr(UnsignedChar, item, 1);
    RunTestFixStr(UnsignedChar, item, 31);
  }

  /** test_fixstr_from_float */
  lemma FixstrFromFloat(item: seq<byte>)
    requires |item| == ItemSize(Float)
    ensures RunTest(Float, item, 4, 0xA4, [], Legacy)
    ensures RunTest(Float, item, 28, 0xBC, [], Legacy)
  {
    RunTestFixStr(Float, item, 4);
    RunTestFixStr(Float, item, 28);
  }

  /** test_str16_from_byte */
  lemma Str16FromByte(item: seq<byte>)
    requires |item| == ItemSize(UnsignedChar)
    ensures RunTest(UnsignedChar, item, 0x100, 0xDA, [0x01, 0x00], Legacy)
    ensures RunTest(UnsignedChar, item, 0xFFFF, 0xDA, [0xFF, 0xFF], Legacy)
  {
    ToBE2(0x100);
    RunTestStr16(UnsignedChar, item, 0x100);
    ToBE2(0xFFFF);
    RunTestStr16(UnsignedChar, item, 0xFFFF);
  }

  /** test_str16_from_float */
  lemma Str16FromFloat(item: seq<byte>)
    requires |item| == ItemSize(Float)
    ensures RunTest(Float, item, 0x100, 0xDA, [0x01, 0x00], Legacy)
    ensures RunTest(Float, item, 0xFFFC, 0xDA, [0xFF, 0xFC], Legacy)
  {
    ToBE2(0x100);
    RunTestStr16(Float, item, 0x100);
    ToBE2(0xFFFC);
    RunTestStr16(Float, item, 0xFFFC);
  }

  /** test_str32_from_byte */
  lemma Str32FromByte(item: seq<byte>)
    requires |item| == ItemSize(UnsignedChar)
    ensures RunTest(UnsignedChar, item, 0x1_0000, 0xDB, [0x00, 0x01, 0x00, 0x00], Legacy)
  {
    ToBE4(0x1_0000);
    RunTestStr32(UnsignedChar, item, 0x1_0000);
  }

  /** test_str32_from_float */
  lemma Str32FromFloat(item: seq<byte>)
    requires |item| == ItemSize(Float)
    ensures RunTest(Float, item, 0x1_0000, 0xDB, [0x00, 0x01, 0x00, 0x00], Legacy)
  {
    ToBE4(0x1_0000);
    RunTestStr32(Float, item, 0x1_0000);
  }

  /** test_bin8_from_byte */
  lemma Bin8FromByte(item: seq<byte>)
    requires |item| == ItemSize(UnsignedChar)
    ensures RunTest(UnsignedChar, item, 1, 0xC4, [0x01], BinaryAware)
    ensures RunTest(UnsignedChar, item, 0xFF, 0xC4, [0xFF], BinaryAware)
  {
    RunTestBin8(UnsignedChar, item, 1);
    RunTestBin8(UnsignedChar, item, 0xFF);
  }

  /** test_bin8_from_float */
  lemma Bin8FromFloat(item: seq<byte>)
    requires |item| == ItemSize(Float)
    ensures RunTest(Float, item, 4, 0xC4, [0x04], BinaryAware)
    ensures RunTest(Float, item, 0xFC, 0xC4, [0xFC], BinaryAware)
  {
    RunTestBin8(Float, item, 4);
    RunTestBin8(Float, item, 0xFC);
  }

  /** test_bin16_from_byte */
  lemma Bin16FromByte(item: seq<byte>)
    requires |item| == ItemSize(UnsignedChar)
    ensures RunTest(UnsignedChar, item, 0x100, 0xC5, [0x01, 0x00], BinaryAware)
    ensures RunTest(UnsignedChar, item, 0xFFFF, 0xC5, [0xFF, 0xFF], BinaryAware)
  {
    ToBE2(0x100);
    RunTestBin16(UnsignedChar, item, 0x100);
    ToBE2(0xFFFF);
    RunTestBin16(UnsignedChar, item, 0xFFFF);
  }

  /** test_bin16_from_float */
  lemma Bin16FromFloat(item: seq<byte>)
    requires |item| == ItemSize(Float)
    ensures RunTest(Float, item, 0x100, 0xC5, [0x01, 0x00], BinaryAware)
    ensures RunTest(Float, item, 0xFFFC, 0xC5, [0xFF, 0xFC], BinaryAware)
  {
    ToBE2(0x100);
    RunTestBin16(Float, item, 0x100);
    ToBE2(0xFFFC);
    RunTestBin16(Float, item, 0xFFFC);
  }

  /** test_bin32_from_byte */
  lemma Bin32FromByte(item: seq<byte>)
    requires |item| == ItemSize(UnsignedChar)
    ensures RunTest(UnsignedChar, item, 0x1_0000, 0xC6, [0x00, 0x01, 0x00, 0x00], BinaryAware)
  {
    ToBE4(0x1_0000);
    RunTestBin32(UnsignedChar, item, 0x1_0000);
  }

  /** test_bin32_from_float */
  lemma Bin32FromFloat(item: seq<byte>)
    requires |item| == ItemSize(Float)
    ensures RunTest(Float, item, 0x1_0000, 0xC6, [0x00, 0x01, 0x00, 0x00], BinaryAware)
  {
    ToBE4(0x1_0000);
    RunTestBin32(Float, item, 0x1_0000);
  }

  /** Six zero bytes recast as a 3 x 2 view: still valid, still six bytes. */
  lemma CastSixZeros(zeros: seq<byte>)
    requires zeros == [0, 0, 0, 0, 0, 0]
    ensures var data := Cast(OneDim(1, zeros), [3, 2]);
            && data.Ok?
            && Flatten(data.value) == Ok(zeros)
  {
    var view := OneDim(1, zeros);
    assert MakeArray(1, zeros) == Ok(view);
    assert Product([3, 2]) == 6 by {
      assert [3, 2][1..] == [2];
      assert [2][1..] == [];
    }
    assert CastAllowed(view, [3, 2]);
  }

  /** test_multidim_memoryview: `b"\00" * 6` viewed and recast as 3 x 2
      packs, by default, as a bin8 of six bytes, not of three rows. */
  lemma MultidimMemoryview(zeros: seq<byte>)
    requires zeros == [0, 0, 0, 0, 0, 0]
    ensures var data := Cast(OneDim(1, zeros), [3, 2]);
            && data.Ok?
            && Pack(DefaultMode, data.value) == Ok([0xC4, 0x06, 0x00, 0x00, 0x00, 0x00, 0x00, 0x00])
  {
    CastSixZeros(zeros);
    var data := Cast(OneDim(1, zeros), [3, 2]).value;
    PackSmallBin(data, zeros);
    Bin8OfSixZeros(zeros);
  }

  /** The bin8 segment of six zero bytes, written out. */
  lemma Bin8OfSixZeros(zeros: seq<byte>)
    requires zeros == [0, 0, 0, 0, 0, 0]
    ensures [0xC4, |zeros|] + zeros == [0xC4, 0x06, 0x00, 0x00, 0x00, 0x00, 0x00, 0x00]
  {
  }

  /** A view of at most 255 bytes packs by default as bin8: c4, the byte count, the bytes. */
  lemma PackSmallBin(v: BufferView, bytes: seq<byte>)
    requires Flatten(v) == Ok(bytes) && |bytes| <= 0xFF
    ensures Pack(DefaultMode, v) == Ok([0xC4, |bytes|] + bytes)
  {
    PackFlattened(DefaultMode, v);
    EncodeBin8(bytes);
  }
}
