/** Unsigned integers written as big-endian byte strings: the length prefixes
    of the str and bin formats of the MessagePack specification. */
module BigEndian {

  type byte = x: int | 0 <= x < 0x100

  /** 256^n: one more than the largest value an n-byte prefix can hold. */
  function Pow256(n: nat): (r: nat)
    ensures r >= 1
  {
    if n == 0 then 1 else 0x100 * Pow256(n - 1)
  }

  /** The value of a big-endian byte string, most significant byte first. */
  function FromBE(s: seq<byte>): (r: nat)
    ensures r < Pow256(|s|)
  {
    if |s| == 0 then 0 else FromBE(s[..|s| - 1]) * 0x100 + s[|s| - 1]
  }

  /** n written as exactly `width` big-endian bytes; reading them back gives n. */
  function ToBE(n: nat, width: nat): (r: seq<byte>)
    requires n < Pow256(width)
    ensures |r| == width
    ensures FromBE(r) == n
  {
    if width == 0 then []
    else
      var high := ToBE(n / 0x100, width - 1);
      var r := high + [n % 0x100];
      assert r[..|r| - 1] == high;
      r
  }

  /** A big-endian string is the only encoding of its value at its width. */
  lemma {:induction false} ToBEFromBE(s: seq<byte>)
    ensures ToBE(FromBE(s), |s|) == s
  {
    if |s| > 0 {
      var init := s[..|s| - 1];
      ToBEFromBE(init);
      assert init + [s[|s| - 1]] == s;
    }
  }

  /** Two big-endian strings of one width are equal exactly when their values are. */
  lemma FromBEInjective(a: seq<byte>, b: seq<byte>)
    requires |a| == |b|
    ensures FromBE(a) == FromBE(b) <==> a == b
  {
    ToBEFromBE(a);
    ToBEFromBE(b);
  }

  /** The byte layout of a one-byte prefix. */
  lemma ToBE1(n: nat)
    requires n < 0x100
    ensures ToBE(n, 1) == [n]
  {
  }

  /** The byte layout of a two-byte prefix: high byte first. */
  lemma ToBE2(n: nat)
    requires n < 0x1_0000
    ensures ToBE(n, 2) == [n / 0x100, n % 0x100]
  {
    assert ToBE(n, 2) == ToBE(n / 0x100, 1) + [n % 0x100];
  }

  /** The byte layout of a four-byte prefix: most significant byte first. */
  lemma ToBE4(n: nat)
    requires n < 0x1_0000_0000
    ensures ToBE(n, 4) == [n / 0x100_0000, (n / 0x1_0000) % 0x100, (n / 0x100) % 0x100, n % 0x100]
  {
    assert ToBE(n, 4) == ToBE(n / 0x100, 3) + [n % 0x100];
    assert ToBE(n / 0x100, 3) == ToBE(n / 0x100 / 0x100, 2) + [(n / 0x100) % 0x100];
    ToBE2(n / 0x100 / 0x100);
    assert n / 0x100 / 0x100 == n / 0x1_0000;
    assert n / 0x1_0000 / 0x100 == n / 0x100_0000;
  }
}
