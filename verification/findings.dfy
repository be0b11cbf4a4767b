/**
 Two streams on which `Server.HandleClient` (the handler as written) and
 the reference reading `Frame.DecodeFrame` part ways. Each is a complete,
 well-formed frame together with a first or second read that `recv` is
 allowed to return; `Server.HandleClientExact`, which reads the tag and the
 size in full, agrees with the reference reading on every stream.
 */
module Findings {
  import opened BigEndian
  import opened Frame
  import opened Server

  /**
   The frame for an empty payload, with the first `recv(7)` delivering only
   "ZIP": the read compared with the tag is not the tag, so the handler
   answers UnexpectedType for a frame the reference reading accepts.
   */
  lemma SplitTagRead()
    ensures var s := Encode([]);
            DecodeFrame(s) == Payload(0, []) &&
            RecvAllows(s, 0, TAG_LENGTH, s[..3]) && s[..3] != TAG
  {
    DecodeEncode([], []);
    assert Encode([]) + [] == Encode([]);
  }

  /** The size field of a one-byte payload: seven zero bytes, then 1. */
  lemma SizeFieldOfOne()
    ensures ToBE(1, SIZE_LENGTH) == [0, 0, 0, 0, 0, 0, 0, 1]
  {
    assert ToBE(0, 0) == [];
    assert ToBE(0, 1) == [0];
    assert ToBE(0, 2) == [0, 0];
    assert ToBE(0, 3) == [0, 0, 0];
    assert ToBE(0, 4) == [0, 0, 0, 0];
    assert ToBE(0, 5) == [0, 0, 0, 0, 0];
    assert ToBE(0, 6) == [0, 0, 0, 0, 0, 0];
    assert ToBE(0, 7) == [0, 0, 0, 0, 0, 0, 0];
  }

  /** Three zero bytes read, big-endian, as 0. */
  lemma ThreeZerosReadAsZero()
    ensures FromBE([0, 0, 0]) == 0
  {
    var z: seq<byte> := [0, 0, 0];
    assert z[..2] == [0, 0] && z[..2][..1] == [0] && z[..2][..1][..0] == [];
    assert FromBE([0]) == 0;
    assert FromBE([0, 0]) == 0;
  }

  /**
   The frame for the one-byte payload [42], with the `recv(8)` for the size
   delivering only its first three bytes: the handler takes the size to be
   0 and leaves the slot file empty, while the frame declares 1 byte and
   carries it.
   */
  lemma SplitSizeRead()
    ensures var s := Encode([42]);
            DecodeFrame(s) == Payload(1, [42]) &&
            RecvAllows(s, TAG_LENGTH, SIZE_LENGTH, s[TAG_LENGTH..TAG_LENGTH + 3]) &&
            FromBE(s[TAG_LENGTH..TAG_LENGTH + 3]) == 0
  {
    var s := Encode([42]);
    DecodeEncode([42], []);
    assert s + [] == s;
    SizeFieldOfOne();
    ThreeZerosReadAsZero();
    assert |TAG| == TAG_LENGTH;
    assert s == TAG + ToBE(1, SIZE_LENGTH) + [42];
    assert s[TAG_LENGTH..TAG_LENGTH + 3] == ToBE(1, SIZE_LENGTH)[..3] == [0, 0, 0];
  }
}
