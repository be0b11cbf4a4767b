/**
 The archive transfer frame: a 7-byte ASCII kind tag "ZIPFILE", the payload
 size as an 8-byte big-endian unsigned integer, then the payload bytes.
 `Encode` is what the client writes; `DecodeFrame` is the reference reading
 of a whole byte stream that the server's handler is proved against.
 */
module Frame {
  import opened BigEndian

  const TAG_LENGTH: nat := 7
  const SIZE_LENGTH: nat := 8
  const HEADER_LENGTH: nat := TAG_LENGTH + SIZE_LENGTH

  function Min(a: nat, b: nat): nat { if a < b then a else b }

  /** The bytes of an ASCII string, one per character. */
  function Ascii(s: string): (r: seq<byte>)
    requires forall i :: 0 <= i < |s| ==> s[i] < 128 as char
    ensures |r| == |s|
    ensures forall i :: 0 <= i < |s| ==> r[i] == s[i] as int
  {
    seq(|s|, i requires 0 <= i < |s| => s[i] as int)
  }

  /** The kind tag of an archive transfer, "ZIPFILE" in ASCII. */
  const TAG: seq<byte> := Ascii("ZIPFILE")

  /** The frame the client sends for a payload: tag, 8-byte size, payload. */
  function Encode(payload: seq<byte>): (frame: seq<byte>)
    requires |payload| < UINT64_LIMIT
    ensures |frame| == HEADER_LENGTH + |payload|
    ensures frame[..TAG_LENGTH] == TAG
    ensures FromBE(frame[TAG_LENGTH..HEADER_LENGTH]) == |payload|
    ensures frame[HEADER_LENGTH..] == payload
  {
    var size := ToBE8(|payload|);
    var frame := TAG + size + payload;
    assert frame[TAG_LENGTH..HEADER_LENGTH] == size;
    frame
  }

  /** What a reader of a frame obtains: an unknown kind, or the declared size and the payload bytes delivered. */
  datatype Decoded = UnknownKind | Payload(declared: nat, data: seq<byte>)

  /**
   The reference reading of a stream whose every read returns as many bytes
   as were asked for, up to the end of the stream: the first 7 bytes must be
   the tag; the next (up to) 8 bytes are the size; then at most that many
   payload bytes, fewer only when the stream ends first.
   */
  function DecodeFrame(s: seq<byte>): (d: Decoded)
    ensures d.UnknownKind? <==> !(|s| >= TAG_LENGTH && s[..TAG_LENGTH] == TAG)
    ensures d.Payload? ==> |d.data| <= d.declared
    ensures d.Payload? && |s| >= HEADER_LENGTH ==>
              d.declared == FromBE(s[TAG_LENGTH..HEADER_LENGTH]) &&
              HEADER_LENGTH + |d.data| <= |s| &&
              d.data == s[HEADER_LENGTH..HEADER_LENGTH + |d.data|]
    ensures d.Payload? && |d.data| < d.declared ==>
              |s| <= HEADER_LENGTH + |d.data|
  {
    if |s| < TAG_LENGTH || s[..TAG_LENGTH] != TAG then UnknownKind
    else
      var sizeEnd := if |s| < HEADER_LENGTH then |s| else HEADER_LENGTH;
      var declared := FromBE(s[TAG_LENGTH..sizeEnd]);
      var body := s[sizeEnd..];
      var n := Min(declared, |body|);
      Payload(declared, body[..n])
  }

  /**
   Reading a stream that starts with the tag and a size field: the declared
   size is the field's value, and the payload is as much of the rest as it
   declares, or all of the rest when the stream ends first. The field is 8
   bytes, or shorter only when the stream ends inside it.
   */
  lemma DecodeHeader(sizeField: seq<byte>, rest: seq<byte>)
    requires |sizeField| == SIZE_LENGTH || (|sizeField| < SIZE_LENGTH && rest == [])
    ensures var declared := FromBE(sizeField);
            var n := Min(declared, |rest|);
            DecodeFrame(TAG + sizeField + rest) == Payload(declared, rest[..n])
  {
    ConcatSlices(TAG, sizeField, rest);
  }

  /** A suffix of a sequence is its slices between the given cut points, in order. */
  lemma SplitSuffix<T>(d: seq<T>, i: nat, j: nat, k: nat)
    requires i <= j <= k <= |d|
    ensures d[i..] == d[i..j] + d[j..k] + d[k..]
  {
  }

  /** The three parts of a concatenation are slices of it. */
  lemma ConcatSlices<T>(a: seq<T>, b: seq<T>, c: seq<T>)
    ensures (a + b + c)[..|a|] == a
    ensures (a + b + c)[|a|..|a| + |b|] == b
    ensures (a + b + c)[|a| + |b|..] == c
  {
  }

  /** A prefix of a suffix is a slice of the whole. */
  lemma PrefixOfSuffix<T>(d: seq<T>, p: nat, n: nat)
    requires p + n <= |d|
    ensures d[p..][..n] == d[p..p + n]
  {
  }

  /** A stream read from offset `p0` that holds the tag and then a size field there. */
  lemma HeaderAt(data: seq<byte>, p0: nat, sizeField: seq<byte>)
    requires p0 + TAG_LENGTH + |sizeField| <= |data|
    requires data[p0..p0 + TAG_LENGTH] == TAG
    requires sizeField == data[p0 + TAG_LENGTH..p0 + TAG_LENGTH + |sizeField|]
    ensures data[p0..] == TAG + sizeField + data[p0 + TAG_LENGTH + |sizeField|..]
  {
    SplitSuffix(data, p0, p0 + TAG_LENGTH, p0 + TAG_LENGTH + |sizeField|);
  }

  /**
   The reference reading of a stream from offset `p0`, in terms of the
   stream itself: the tag at `p0`, a size field of 8 bytes (or cut short by
   the end of the stream) after it, then min(declared, available) bytes.
   */
  lemma DecodeAt(data: seq<byte>, p0: nat, sizeField: seq<byte>, contents: seq<byte>)
    requires p0 + TAG_LENGTH + |sizeField| <= |data|
    requires data[p0..p0 + TAG_LENGTH] == TAG
    requires |sizeField| == SIZE_LENGTH || p0 + TAG_LENGTH + |sizeField| == |data|
    requires |sizeField| <= SIZE_LENGTH
    requires sizeField == data[p0 + TAG_LENGTH..p0 + TAG_LENGTH + |sizeField|]
    requires var start := p0 + TAG_LENGTH + |sizeField|;
             contents == data[start..start + Min(FromBE(sizeField), |data| - start)]
    ensures DecodeFrame(data[p0..]) == Payload(FromBE(sizeField), contents)
  {
    var start := p0 + TAG_LENGTH + |sizeField|;
    var rest := data[start..];
    HeaderAt(data, p0, sizeField);
    var declared := FromBE(sizeField);
    var n := Min(declared, |rest|);
    PrefixOfSuffix(data, start, n);
    assert rest[..n] == contents;
    DecodeHeader(sizeField, rest);
  }

  /** Round trip: decoding an encoded frame, whatever follows it on the stream, gives back the payload and its size. */
  lemma DecodeEncode(payload: seq<byte>, rest: seq<byte>)
    requires |payload| < UINT64_LIMIT
    ensures DecodeFrame(Encode(payload) + rest) == Payload(|payload|, payload)
  {
    var frame := Encode(payload);
    var s := frame + rest;
    assert s[..TAG_LENGTH] == frame[..TAG_LENGTH];
    assert s[TAG_LENGTH..HEADER_LENGTH] == frame[TAG_LENGTH..HEADER_LENGTH];
    assert s[HEADER_LENGTH..] == payload + rest;
    assert (payload + rest)[..|payload|] == payload;
  }

  /**
   A frame cut short after its header: the declared size is still the
   payload's, and what arrives is the prefix of the payload that was sent.
   */
  lemma DecodeTruncated(payload: seq<byte>, k: nat)
    requires |payload| < UINT64_LIMIT
    requires HEADER_LENGTH <= k <= HEADER_LENGTH + |payload|
    ensures DecodeFrame(Encode(payload)[..k]) == Payload(|payload|, payload[..k - HEADER_LENGTH])
  {
    var frame := Encode(payload);
    var s := frame[..k];
    assert s[..TAG_LENGTH] == frame[..TAG_LENGTH];
    assert s[TAG_LENGTH..HEADER_LENGTH] == frame[TAG_LENGTH..HEADER_LENGTH];
    assert s[HEADER_LENGTH..] == payload[..k - HEADER_LENGTH];
  }
}
