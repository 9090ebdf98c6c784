/** Header selection for byte payloads: the str family (used by the legacy
    raw mode) and the bin family (used when the packer knows about binary),
    as laid out in the "str format family" and "bin format family" sections
    of the MessagePack specification. */
module Formats {
  import opened Wrappers
  import opened Errors
  import opened BigEndian

  /** The packer's `use_bin_type` flag: Legacy is False, BinaryAware is True. */
  datatype Mode = Legacy | BinaryAware

  /** `packb` packs buffers as binary unless told otherwise. */
  const DefaultMode: Mode := BinaryAware

  /** The header formats a byte payload can be written with. */
  datatype Format = FixStr | Str16 | Str32 | Bin8 | Bin16 | Bin32

  /** The longest payload any header can describe. */
  const MaxPayload: nat := 0xFFFF_FFFF

  /** The longest payload a format can describe. */
  function MaxLen(f: Format): nat
  {
    match f
    case FixStr => 0x1F
    case Bin8 => 0xFF
    case Str16 | Bin16 => 0xFFFF
    case Str32 | Bin32 => 0xFFFF_FFFF
  }

  /** How many big-endian length bytes follow the tag byte. */
  function PrefixWidth(f: Format): nat
  {
    match f
    case FixStr => 0
    case Bin8 => 1
    case Str16 | Bin16 => 2
    case Str32 | Bin32 => 4
  }

  /** The formats a mode may emit for a byte payload, narrowest first.
      The legacy table has no 8-bit-prefixed form: older readers only know
      fixstr, str16 and str32 for raw bytes. */
  function Family(mode: Mode): seq<Format>
  {
    match mode
    case Legacy => [FixStr, Str16, Str32]
    case BinaryAware => [Bin8, Bin16, Bin32]
  }

  /** Reference definition: the first entry of a table whose range holds len. */
  function FirstFit(table: seq<Format>, len: nat): Option<Format>
  {
    if |table| == 0 then None
    else if len <= MaxLen(table[0]) then Some(table[0])
    else FirstFit(table[1..], len)
  }

  /** The header format for a payload of len bytes: the narrowest format of
      the mode's family that can describe len, or LengthOverflow when none can. */
  function SelectFormat(mode: Mode, len: nat): (r: Result<Format, PackError>)
    ensures r.Ok? <==> len <= MaxPayload
    ensures r.Err? ==> r.error == LengthOverflow
    ensures r.Ok? ==> r.value in Family(mode) && len <= MaxLen(r.value)
    ensures r.Ok? ==> forall f :: f in Family(mode) && len <= MaxLen(f) ==> PrefixWidth(r.value) <= PrefixWidth(f)
  {
    if len > MaxPayload then Err(LengthOverflow)
    else match mode
      case Legacy =>
        // Lengths 32..255 take str16: the legacy family has no str8.
        if len <= 0x1F then Ok(FixStr)
        else if len <= 0xFFFF then Ok(Str16)
        else Ok(Str32)
      case BinaryAware =>
        if len <= 0xFF then Ok(Bin8)
        else if len <= 0xFFFF then Ok(Bin16)
        else Ok(Bin32)
  }

  /** The selection agrees with reading the mode's table top to bottom. */
  lemma SelectIsFirstFit(mode: Mode, len: nat)
    ensures SelectFormat(mode, len) == match FirstFit(Family(mode), len)
                                        case Some(f) => Ok(f)
                                        case None => Err(LengthOverflow)
  {
    var t := Family(mode);
    assert t[1..][1..][1..] == [];
    if len <= MaxLen(t[0]) {
      assert FirstFit(t, len) == Some(t[0]);
    } else if len <= MaxLen(t[1]) {
      assert FirstFit(t, len) == FirstFit(t[1..], len) == Some(t[1]);
    } else if len <= MaxLen(t[2]) {
      assert FirstFit(t, len) == FirstFit(t[1..][1..], len) == Some(t[2]);
    } else {
      assert FirstFit(t, len) == FirstFit(t[1..], len) == FirstFit(t[1..][1..], len);
      assert FirstFit(t[1..][1..], len) == FirstFit(t[1..][1..][1..], len) == None;
    }
  }

  /** A prefix of PrefixWidth(f) bytes holds exactly the lengths up to MaxLen(f). */
  lemma PrefixCapacity(f: Format)
    requires f != FixStr
    ensures Pow256(PrefixWidth(f)) == MaxLen(f) + 1
  {
    assert Pow256(1) == 0x100;
    assert Pow256(2) == 0x1_0000;
    assert Pow256(4) == 0x1_0000_0000 by {
      assert Pow256(3) == 0x100_0000;
    }
  }

  /** The first header byte. Only a fixstr tag lies in a0..bf, and it
      carries the length in its low five bits. */
  function Tag(f: Format, len: nat): (r: byte)
    requires len <= MaxLen(f)
    ensures 0xA0 <= r <= 0xBF <==> f == FixStr
    ensures f == FixStr ==> r % 0x20 == len
  {
    match f
    case FixStr => 0xA0 + len
    case Str16 => 0xDA
    case Str32 => 0xDB
    case Bin8 => 0xC4
    case Bin16 => 0xC5
    case Bin32 => 0xC6
  }

  /** The big-endian length bytes after the tag (none for a fixstr). */
  function LengthPrefix(f: Format, len: nat): (r: seq<byte>)
    requires len <= MaxLen(f)
    ensures |r| == PrefixWidth(f)
    ensures f != FixStr ==> FromBE(r) == len
  {
    if f == FixStr then []
    else
      PrefixCapacity(f);
      ToBE(len, PrefixWidth(f))
  }

  /** Tag and length prefix together. */
  function Header(f: Format, len: nat): (r: seq<byte>)
    requires len <= MaxLen(f)
    ensures |r| == 1 + PrefixWidth(f)
  {
    [Tag(f, len)] + LengthPrefix(f, len)
  }

  /** Which format a first byte announces, if it is one this model reads. */
  function ParseTag(b: byte): (r: Option<Format>)
    ensures r == Some(FixStr) <==> 0xA0 <= b <= 0xBF
    ensures forall f :: f != FixStr ==> (r == Some(f) <==> b == Tag(f, 0))
    ensures r.Some? <==> 0xA0 <= b <= 0xBF || b in {0xDA, 0xDB, 0xC4, 0xC5, 0xC6}
  {
    if 0xA0 <= b <= 0xBF then Some(FixStr)
    else if b == 0xDA then Some(Str16)
    else if b == 0xDB then Some(Str32)
    else if b == 0xC4 then Some(Bin8)
    else if b == 0xC5 then Some(Bin16)
    else if b == 0xC6 then Some(Bin32)
    else None
  }

  /** The length a header declares, read back from its bytes. */
  function DeclaredLength(f: Format, header: seq<byte>): (r: nat)
    requires |header| == 1 + PrefixWidth(f)
    requires f == FixStr ==> 0xA0 <= header[0] <= 0xBF
    ensures r <= MaxLen(f)
  {
    if f == FixStr then header[0] - 0xA0
    else
      PrefixCapacity(f);
      FromBE(header[1..])
  }

  /** Every header names its own format and its own length. */
  lemma {:induction false} HeaderReadsBack(f: Format, len: nat)
    requires len <= MaxLen(f)
    ensures ParseTag(Header(f, len)[0]) == Some(f)
    ensures DeclaredLength(f, Header(f, len)) == len
  {
    var h := Header(f, len);
    assert h[1..] == LengthPrefix(f, len);
  }

  /** A header is determined by the format and length it declares: any bytes
      of the right width that read back as (f, len) are Header(f, len). */
  lemma {:induction false} HeaderFromReadBack(f: Format, h: seq<byte>)
    requires |h| == 1 + PrefixWidth(f)
    requires ParseTag(h[0]) == Some(f)
    ensures DeclaredLength(f, h) <= MaxLen(f)
    ensures h == Header(f, DeclaredLength(f, h))
  {
    var len := DeclaredLength(f, h);
    if f == FixStr {
      assert h == [h[0]];
    } else {
      ToBEFromBE(h[1..]);
      assert LengthPrefix(f, len) == h[1..];
      assert Tag(f, len) == h[0];
      assert h == [h[0]] + h[1..];
    }
  }
}
