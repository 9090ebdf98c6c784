/** Packing a byte payload as one str or bin segment, reading such a segment
    back, and packing a buffer view (flatten, then encode). */
module Codec {
  import opened Wrappers
  import opened Errors
  import opened BigEndian
  import opened Formats
  import opened Buffer

  /** header ++ length prefix ++ payload, with the narrowest header of the
      mode's family; LengthOverflow, and no bytes, past 2^32 - 1. */
  function Encode(mode: Mode, payload: seq<byte>): (r: Result<seq<byte>, PackError>)
    ensures r.Ok? <==> |payload| <= MaxPayload
    ensures r.Err? ==> r.error == LengthOverflow
    ensures r.Ok? ==>
      var f := SelectFormat(mode, |payload|).value;
      && |r.value| == 1 + PrefixWidth(f) + |payload|
      && ParseTag(r.value[0]) == Some(f)
      && DeclaredLength(f, r.value[..1 + PrefixWidth(f)]) == |payload|
      && r.value[1 + PrefixWidth(f)..] == payload
  {
    match SelectFormat(mode, |payload|)
    case Err(e) => Err(e)
    case Ok(f) =>
      var h := Header(f, |payload|);
      HeaderReadsBack(f, |payload|);
      var r := h + payload;
      assert r[..1 + PrefixWidth(f)] == h;
      Ok(r)
  }

  /** The payload of one complete str or bin segment (what `unpackb` returns
      for it), or why the bytes are not one. */
  function Decode(s: seq<byte>): (r: Result<seq<byte>, UnpackError>)
    ensures r.Ok? ==>
      && |s| > 0 && ParseTag(s[0]).Some?
      && var f := ParseTag(s[0]).value;
         && |r.value| <= MaxLen(f)
         && s == Header(f, |r.value|) + r.value
  {
    if |s| == 0 then Err(Truncated)
    else match ParseTag(s[0])
      case None => Err(UnsupportedFormat)
      case Some(f) =>
        var w := PrefixWidth(f);
        if |s| < 1 + w then Err(Truncated)
        else
          var len := DeclaredLength(f, s[..1 + w]);
          if |s| < 1 + w + len then Err(Truncated)
          else if |s| > 1 + w + len then Err(ExtraData)
          else
            var payload := s[1 + w..];
            HeaderFromReadBack(f, s[..1 + w]);
            assert |payload| == len;
            assert s == s[..1 + w] + payload;
            Ok(payload)
  }

  /** Round trip: reading back an encoded payload gives the payload. */
  lemma {:induction false} DecodeEncode(mode: Mode, payload: seq<byte>)
    requires |payload| <= MaxPayload
    ensures Decode(Encode(mode, payload).value) == Ok(payload)
  {
    var s := Encode(mode, payload).value;
    var f := SelectFormat(mode, |payload|).value;
    assert s[..1 + PrefixWidth(f)][0] == s[0];
  }

  /** Encoding is exactly canonical decoding: Encode(mode, p) is s precisely
      when s reads back as p under the header the mode selects for |p|. */
  lemma {:induction false} EncodeIffDecode(mode: Mode, payload: seq<byte>, s: seq<byte>)
    ensures Encode(mode, payload) == Ok(s)
            <==> && Decode(s) == Ok(payload)
                 && SelectFormat(mode, |payload|).Ok?
                 && ParseTag(s[0]) == Some(SelectFormat(mode, |payload|).value)
  {
    if Encode(mode, payload) == Ok(s) {
      DecodeEncode(mode, payload);
    }
    if Decode(s) == Ok(payload) && SelectFormat(mode, |payload|).Ok?
       && ParseTag(s[0]) == Some(SelectFormat(mode, |payload|).value) {
      var f := SelectFormat(mode, |payload|).value;
      assert s == Header(f, |payload|) + payload;
    }
  }

  /** Payloads of equal length get byte-identical headers. */
  lemma {:induction false} HeaderDependsOnlyOnLength(mode: Mode, a: seq<byte>, b: seq<byte>)
    requires |a| == |b| <= MaxPayload
    ensures |Encode(mode, a).value| == |Encode(mode, b).value|
    ensures Encode(mode, a).value[..1 + PrefixWidth(SelectFormat(mode, |a|).value)]
         == Encode(mode, b).value[..1 + PrefixWidth(SelectFormat(mode, |b|).value)]
  {
    var f := SelectFormat(mode, |a|).value;
    var w := 1 + PrefixWidth(f);
    assert Encode(mode, a).value[..w] == Header(f, |a|);
    assert Encode(mode, b).value[..w] == Header(f, |b|);
  }

  /** `packb(view, use_bin_type=...)`: the view's bytes in row-major order,
      encoded as one str or bin segment. The length in the header is the
      byte count, item size times number of items, not the item count. */
  function Pack(mode: Mode, v: BufferView): (r: Result<seq<byte>, PackError>)
    ensures r.Ok? <==> ValidView(v) && NBytes(v) <= MaxPayload
    ensures r.Err? ==> (r.error == InvalidBufferShape <==> !ValidView(v))
    ensures r.Ok? ==> |r.value| == 1 + PrefixWidth(SelectFormat(mode, NBytes(v)).value) + NBytes(v)
    ensures r.Ok? ==> Flatten(v).Ok? && Decode(r.value) == Ok(Flatten(v).value)
  {
    match Flatten(v)
    case Err(e) => Err(e)
    case Ok(data) =>
      if |data| <= MaxPayload then DecodeEncode(mode, data); Encode(mode, data)
      else Encode(mode, data)
  }

  /** Packing a view that flattens is encoding its flattened bytes. */
  lemma PackFlattened(mode: Mode, v: BufferView)
    requires Flatten(v).Ok?
    ensures Pack(mode, v) == Encode(mode, Flatten(v).value)
  {
  }

  /** Two views with the same byte count get the same header whatever their
      item sizes and shapes: the length is counted in bytes, not items. */
  lemma {:induction false} PackHeaderCountsBytes(mode: Mode, a: BufferView, b: BufferView)
    requires ValidView(a) && ValidView(b)
    requires NBytes(a) == NBytes(b) <= MaxPayload
    ensures var w := 1 + PrefixWidth(SelectFormat(mode, NBytes(a)).value);
            Pack(mode, a).value[..w] == Pack(mode, b).value[..w]
  {
    HeaderDependsOnlyOnLength(mode, Flatten(a).value, Flatten(b).value);
  }

  /** Encode writes the selected format's header in front of the payload. */
  lemma EncodeWithFormat(mode: Mode, payload: seq<byte>, f: Format)
    requires SelectFormat(mode, |payload|) == Ok(f)
    ensures Encode(mode, payload) == Ok(Header(f, |payload|) + payload)
  {
  }

  // Byte-exact layouts per length range. Legacy lengths 32..255 are left
  // unstated on purpose: str16 there is this model's choice, not a tested fact.

  /** Legacy mode, up to 31 bytes: one fixstr byte 0xa0 + L, no prefix. */
  lemma EncodeFixStr(payload: seq<byte>)
    requires |payload| <= 0x1F
    ensures Encode(Legacy, payload) == Ok([0xA0 + |payload|] + payload)
  {
    EncodeWithFormat(Legacy, payload, FixStr);
    assert Header(FixStr, |payload|) == [0xA0 + |payload|];
  }

  /** Legacy mode, 256 to 65535 bytes: 0xda then L in two big-endian bytes. */
  lemma EncodeStr16(payload: seq<byte>)
    requires 0x100 <= |payload| <= 0xFFFF
    ensures Encode(Legacy, payload) == Ok([0xDA, |payload| / 0x100, |payload| % 0x100] + payload)
  {
    EncodeWithFormat(Legacy, payload, Str16);
    ToBE2(|payload|);
    assert Header(Str16, |payload|) == [0xDA] + ToBE(|payload|, 2) == [0xDA, |payload| / 0x100, |payload| % 0x100];
  }

  /** Legacy mode, 65536 to 2^32 - 1 bytes: 0xdb then L in four big-endian bytes. */
  lemma EncodeStr32(payload: seq<byte>)
    requires 0x1_0000 <= |payload| <= MaxPayload
    ensures var n := |payload|;
            Encode(Legacy, payload)
            == Ok([0xDB, n / 0x100_0000, (n / 0x1_0000) % 0x100, (n / 0x100) % 0x100, n % 0x100] + payload)
  {
    EncodeWithFormat(Legacy, payload, Str32);
    ToBE4(|payload|);
    var n := |payload|;
    assert Header(Str32, n) == [0xDB] + ToBE(n, 4)
           == [0xDB, n / 0x100_0000, (n / 0x1_0000) % 0x100, (n / 0x100) % 0x100, n % 0x100];
  }

  /** Binary-aware mode, up to 255 bytes: 0xc4 then L in one byte. */
  lemma EncodeBin8(payload: seq<byte>)
    requires |payload| <= 0xFF
    ensures Encode(BinaryAware, payload) == Ok([0xC4, |payload|] + payload)
  {
    EncodeWithFormat(BinaryAware, payload, Bin8);
    ToBE1(|payload|);
    assert Header(Bin8, |payload|) == [0xC4] + ToBE(|payload|, 1) == [0xC4, |payload|];
  }

  /** Binary-aware mode, 256 to 65535 bytes: 0xc5 then L in two big-endian bytes. */
  lemma EncodeBin16(payload: seq<byte>)
    requires 0x100 <= |payload| <= 0xFFFF
    ensures Encode(BinaryAware, payload) == Ok([0xC5, |payload| / 0x100, |payload| % 0x100] + payload)
  {
    EncodeWithFormat(BinaryAware, payload, Bin16);
    ToBE2(|payload|);
    assert Header(Bin16, |payload|) == [0xC5] + ToBE(|payload|, 2) == [0xC5, |payload| / 0x100, |payload| % 0x100];
  }

  /** Binary-aware mode, 65536 to 2^32 - 1 bytes: 0xc6 then L in four big-endian bytes. */
  lemma EncodeBin32(payload: seq<byte>)
    requires 0x1_0000 <= |payload| <= MaxPayload
    ensures var n := |payload|;
            Encode(BinaryAware, payload)
            == Ok([0xC6, n / 0x100_0000, (n / 0x1_0000) % 0x100, (n / 0x100) % 0x100, n % 0x100] + payload)
  {
    EncodeWithFormat(BinaryAware, payload, Bin32);
    ToBE4(|payload|);
    var n := |payload|;
    assert Header(Bin32, n) == [0xC6] + ToBE(n, 4)
           == [0xC6, n / 0x100_0000, (n / 0x1_0000) % 0x100, (n / 0x100) % 0x100, n % 0x100];
  }

  /** `packb` without `use_bin_type` is binary-aware: a buffer is always
      written under a bin header (c4, c5 or c6), never a str one. */
  lemma DefaultPacksBin(v: BufferView)
    requires Pack(DefaultMode, v).Ok?
    ensures Pack(DefaultMode, v).value[0] in {0xC4, 0xC5, 0xC6}
  {
    PackFlattened(DefaultMode, v);
    var data := Flatten(v).value;
    var f := SelectFormat(DefaultMode, |data|).value;
    EncodeWithFormat(DefaultMode, data, f);
  }

  /** Legacy mode writes only headers that predate the str/bin split:
      fixstr, str16 or str32, never str8 (0xd9) nor a bin header. */
  lemma LegacyEmitsRawHeadersOnly(payload: seq<byte>)
    requires Encode(Legacy, payload).Ok?
    ensures var b := Encode(Legacy, payload).value[0];
            (0xA0 <= b <= 0xBF || b == 0xDA || b == 0xDB) && b != 0xD9
  {
  }
}
