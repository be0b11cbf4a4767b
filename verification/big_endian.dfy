/**
 The byte type of the wire protocol and the unsigned big-endian integer
 conversions used for the frame's length field (Python's
 `int.to_bytes(n, width, byteorder="big")` and
 `int.from_bytes(bytes, byteorder="big")`).
 */
module BigEndian {

  type byte = b: int | 0 <= b < 256

  /** 256 raised to `width`: the number of values a `width`-byte field can hold. */
  function Pow256(width: nat): (r: nat)
    ensures r >= 1
  {
    if width == 0 then 1 else 256 * Pow256(width - 1)
  }

  /** The bound of an 8-byte unsigned field, 2^64. */
  const UINT64_LIMIT: nat := 0x1_0000_0000_0000_0000

  lemma Pow256Of8()
    ensures Pow256(8) == UINT64_LIMIT
  {
    assert Pow256(1) == 256;
    assert Pow256(2) == 0x1_0000;
    assert Pow256(4) == 256 * (256 * Pow256(2));
    assert Pow256(8) == 256 * (256 * (256 * (256 * Pow256(4))));
  }

  /** The low `width` bytes of `n`, most significant first. */
  function ToBE(n: nat, width: nat): (r: seq<byte>)
    ensures |r| == width
  {
    if width == 0 then [] else ToBE(n / 256, width - 1) + [n % 256]
  }

  /** The unsigned integer whose big-endian bytes are `s` (any length, the empty sequence is 0). */
  function FromBE(s: seq<byte>): (r: nat)
    ensures r < Pow256(|s|)
  {
    if s == [] then 0 else FromBE(s[..|s| - 1]) * 256 + s[|s| - 1]
  }

  /** Decoding the `width` bytes of a value that fits in them gives the value back. */
  lemma {:induction false} FromBEOfToBE(n: nat, width: nat)
    requires n < Pow256(width)
    ensures FromBE(ToBE(n, width)) == n
  {
    if width > 0 {
      var init, last := ToBE(n / 256, width - 1), n % 256;
      assert n / 256 < Pow256(width - 1);
      FromBEOfToBE(n / 256, width - 1);
      var s := init + [last];
      assert s[..|s| - 1] == init;
      assert FromBE(s) == FromBE(init) * 256 + last;
    }
  }

  /** Encoding a decoded field at its own width gives the same bytes back. */
  lemma {:induction false} ToBEOfFromBE(s: seq<byte>)
    ensures ToBE(FromBE(s), |s|) == s
  {
    if s != [] {
      var init, last := s[..|s| - 1], s[|s| - 1];
      var n := FromBE(s);
      assert n == FromBE(init) * 256 + last;
      assert n / 256 == FromBE(init) && n % 256 == last;
      ToBEOfFromBE(init);
      assert s == init + [last];
    }
  }

  /** Python's `n.to_bytes(8, byteorder="big")` for a value that fits in 8 bytes. */
  function ToBE8(n: nat): (r: seq<byte>)
    requires n < UINT64_LIMIT
    ensures |r| == 8 && FromBE(r) == n
  {
    Pow256Of8();
    FromBEOfToBE(n, 8);
    ToBE(n, 8)
  }
}
