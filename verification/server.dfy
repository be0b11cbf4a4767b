/**
 The receiving side of the transfer: the connection as a byte stream read
 with `recv`, the numbered destination file, the slot allocator that probes
 `received_data1.zip`, `received_data2.zip`, ... and the per-connection
 handler that reads one frame into the allocated file.
 */
module Server {
  import opened BigEndian
  import opened Frame

  /** The largest read the receive loop asks for. */
  const CHUNK_SIZE: nat := 1024

  /**
   What one `recv(n)` at offset `pos` of a peer's byte stream `data` may
   return: the next bytes of the stream, at most `n` of them, and none only
   when nothing is left (or nothing was asked for).
   */
  ghost predicate RecvAllows(data: seq<byte>, pos: nat, n: nat, chunk: seq<byte>)
  {
    pos + |chunk| <= |data| &&
    chunk == data[pos..pos + |chunk|] &&
    |chunk| <= n &&
    (n > 0 && pos < |data| ==> |chunk| > 0)
  }

  /** A connected client socket: every byte the peer sends before closing, and how far it has been read. */
  class Connection {
    const data: seq<byte>
    var pos: nat
    var closed: bool

    ghost predicate Valid()
      reads this
    {
      pos <= |data|
    }

    constructor (sent: seq<byte>)
      ensures Valid() && data == sent && pos == 0 && !closed
    {
      data := sent;
      pos := 0;
      closed := false;
    }

    /** `recv(n)`: how many bytes arrive is up to the network, so any amount the stream allows may be returned. */
    method Recv(n: nat) returns (chunk: seq<byte>)
      requires Valid() && !closed
      modifies this`pos
      ensures Valid()
      ensures RecvAllows(data, old(pos), n, chunk)
      ensures pos == old(pos) + |chunk|
    {
      var k: nat := 0;
      if n > 0 && pos < |data| {
        k :| 0 < k <= n && pos + k <= |data|;
      }
      chunk := data[pos..pos + k];
      pos := pos + k;
    }

    method Close()
      modifies this`closed
      ensures closed
    {
      closed := true;
    }
  }

  /** One numbered destination file `received_dataN.zip`. */
  class SlotFile {
    var contents: seq<byte>

    /** `Path.touch()`: the file is created empty. */
    constructor ()
      ensures contents == []
    {
      contents := [];
    }

    /** `open(path, "wb")`: opening for writing truncates. */
    method Truncate()
      modifies this
      ensures contents == []
    {
      contents := [];
    }

    /** `file.write(chunk)` appends. */
    method Write(chunk: seq<byte>)
      modifies this
      ensures contents == old(contents) + chunk
    {
      contents := contents + chunk;
    }
  }

  /** If 1..i all belong to a finite set of naturals, the set has at least i elements. */
  lemma {:induction false} PrefixCount(used: set<nat>, i: nat)
    requires forall j :: 1 <= j <= i ==> j in used
    ensures i <= |used|
  {
    if i > 0 {
      var rest := used - {i};
      assert forall j :: 1 <= j <= i - 1 ==> j in rest;
      PrefixCount(rest, i - 1);
    }
  }

  /** The server's folder of received files, by the numbers N of the `received_dataN.zip` files present. */
  class Folder {
    var used: set<nat>

    constructor (existing: set<nat>)
      ensures used == existing
    {
      used := existing;
    }

    /**
     `find_next_file`: probe 1, 2, ... and create the first slot file that
     does not exist yet. The slot is the least positive number not in use;
     exactly that number is added.
     */
    method FindNextFile() returns (i: nat, file: SlotFile)
      modifies this
      ensures 1 <= i && i !in old(used)
      ensures forall j :: 1 <= j < i ==> j in old(used)
      ensures used == old(used) + {i}
      ensures fresh(file) && file.contents == []
    {
      i := 1;
      while i in used
        invariant used == old(used)
        invariant 1 <= i <= |used| + 1
        invariant forall j :: 1 <= j < i ==> j in used
        decreases |used| + 1 - i
      {
        PrefixCount(used, i);
        i := i + 1;
      }
      file := new SlotFile();
      used := used + {i};
    }
  }

  /** The size of the next read of the receive loop: `min(1024, remaining)`. */
  function ChunkRequest(remaining: nat): (n: nat)
    requires remaining > 0
    ensures 0 < n <= CHUNK_SIZE && n <= remaining
    ensures n == CHUNK_SIZE || n == remaining
  {
    if remaining < CHUNK_SIZE then remaining else CHUNK_SIZE
  }

  /**
   Open the slot file for writing, then the receive loop: read chunks of at
   most `min(1024, remaining)` bytes and append them to the file until
   `size` bytes have arrived or a read comes back empty. Exactly
   `min(size, bytes left on the stream)` bytes are taken from the stream,
   and the file holds exactly those bytes.
   */
  method ReceivePayload(conn: Connection, dest: SlotFile, size: nat)
    requires conn.Valid() && !conn.closed
    modifies conn`pos, dest
    ensures conn.Valid()
    ensures conn.pos == old(conn.pos) + Min(size, |conn.data| - old(conn.pos))
    ensures dest.contents == conn.data[old(conn.pos)..conn.pos]
  {
    dest.Truncate();
    var remaining: nat := size;
    while remaining > 0
      invariant conn.Valid() && old(conn.pos) <= conn.pos
      invariant (conn.pos - old(conn.pos)) + remaining == size
      invariant dest.contents == conn.data[old(conn.pos)..conn.pos]
      decreases remaining
    {
      ghost var before := conn.pos;
      var chunk := conn.Recv(ChunkRequest(remaining));
      if |chunk| == 0 {
        assert conn.pos == |conn.data|;
        break;
      }
      dest.Write(chunk);
      assert conn.data[old(conn.pos)..conn.pos] == conn.data[old(conn.pos)..before] + chunk;
      remaining := remaining - |chunk|;
    }
  }

  /** How a handler ended: the tag read was not "ZIPFILE", or the frame was received after the given size field. */
  datatype Reception = UnexpectedType(tag: seq<byte>) | Received(sizeField: seq<byte>)

  /**
   `handle_client` as written: one `recv(7)` for the tag, one `recv(8)` for
   the size, then the receive loop into the freshly truncated slot file;
   the connection is closed in every case. Either read may return fewer
   bytes than asked for; when both came back whole, the file holds what
   the reference reading of the stream delivers.
   */
  method HandleClient(conn: Connection, dest: SlotFile) returns (r: Reception)
    requires conn.Valid() && !conn.closed
    modifies conn, dest
    ensures conn.Valid() && conn.closed && old(conn.pos) <= conn.pos
    ensures r.UnexpectedType? ==>
              |r.tag| <= TAG_LENGTH && r.tag != TAG &&
              r.tag == conn.data[old(conn.pos)..conn.pos] &&
              dest.contents == old(dest.contents)
    ensures r.Received? ==>
              var p0 := old(conn.pos);
              var start := p0 + TAG_LENGTH + |r.sizeField|;
              |r.sizeField| <= SIZE_LENGTH && start <= conn.pos &&
              conn.data[p0..p0 + TAG_LENGTH] == TAG &&
              r.sizeField == conn.data[p0 + TAG_LENGTH..start] &&
              conn.pos - start == Min(FromBE(r.sizeField), |conn.data| - start) &&
              dest.contents == conn.data[start..conn.pos]
    ensures r.Received? && |r.sizeField| == SIZE_LENGTH ==>
              DecodeFrame(conn.data[old(conn.pos)..]) == Payload(FromBE(r.sizeField), dest.contents)
    ensures DecodeFrame(conn.data[old(conn.pos)..]).UnknownKind? ==> r.UnexpectedType?
    ensures r.Received? && FromBE(r.sizeField) == 0 ==> dest.contents == []
  {
    ghost var p0 := conn.pos;
    var tag := conn.Recv(TAG_LENGTH);
    if tag != TAG {
      conn.Close();
      return UnexpectedType(tag);
    }
    assert |tag| == TAG_LENGTH && conn.data[p0..p0 + TAG_LENGTH] == TAG;
    var sizeField := conn.Recv(SIZE_LENGTH);
    var size := FromBE(sizeField);
    ReceivePayload(conn, dest, size);
    conn.Close();
    r := Received(sizeField);
    if |sizeField| == SIZE_LENGTH {
      DecodeAt(conn.data, p0, sizeField, dest.contents);
    }
  }

  /**
   Read until `n` bytes have arrived or the stream ends: exactly
   `min(n, bytes left)` bytes, the next ones on the stream.
   */
  method RecvExact(conn: Connection, n: nat) returns (got: seq<byte>)
    requires conn.Valid() && !conn.closed
    modifies conn`pos
    ensures conn.Valid()
    ensures conn.pos == old(conn.pos) + Min(n, |conn.data| - old(conn.pos))
    ensures got == conn.data[old(conn.pos)..conn.pos]
  {
    got := [];
    while |got| < n
      invariant conn.Valid() && old(conn.pos) <= conn.pos
      invariant |got| <= n
      invariant got == conn.data[old(conn.pos)..conn.pos]
      decreases n - |got|
    {
      var chunk := conn.Recv(n - |got|);
      if |chunk| == 0 {
        break;
      }
      got := got + chunk;
    }
  }

  /**
   `handle_client` with the tag and the size read in full (see the
   findings): the handler rejects exactly the streams the reference reading
   rejects, and otherwise the slot file holds exactly the payload bytes that
   reading delivers.
   */
  method HandleClientExact(conn: Connection, dest: SlotFile) returns (r: Reception)
    requires conn.Valid() && !conn.closed
    modifies conn, dest
    ensures conn.Valid() && conn.closed && old(conn.pos) <= conn.pos
    ensures r.UnexpectedType? <==> DecodeFrame(conn.data[old(conn.pos)..]).UnknownKind?
    ensures r.UnexpectedType? ==>
              conn.pos <= old(conn.pos) + TAG_LENGTH && dest.contents == old(dest.contents)
    ensures r.Received? ==>
              DecodeFrame(conn.data[old(conn.pos)..]) == Payload(FromBE(r.sizeField), dest.contents)
    ensures r.Received? ==>
              conn.pos == old(conn.pos) + TAG_LENGTH + |r.sizeField| + |dest.contents|
  {
    ghost var p0 := conn.pos;
    ghost var s := conn.data[p0..];
    var tag := RecvExact(conn, TAG_LENGTH);
    if tag != TAG {
      conn.Close();
      assert |s| >= TAG_LENGTH ==> s[..TAG_LENGTH] == tag;
      return UnexpectedType(tag);
    }
    assert s[..TAG_LENGTH] == TAG;
    var sizeField := RecvExact(conn, SIZE_LENGTH);
    var size := FromBE(sizeField);
    ReceivePayload(conn, dest, size);
    conn.Close();
    r := Received(sizeField);
    DecodeAt(conn.data, p0, sizeField, dest.contents);
  }
}
