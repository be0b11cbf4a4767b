# Cookie-folder transfer: frame codec, receive loop, slot allocator, archive naming

This project models, in Dafny, the transfer logic of `main.py` of a small
client/server tool. The client packs browser cookie files into a zip archive
and sends it over TCP. The server saves each incoming transfer to a fresh
numbered file `received_dataN.zip`.

The wire format is one frame per connection:

- the 7-byte ASCII kind tag `ZIPFILE`;
- the payload size as an 8-byte big-endian unsigned integer;
- the payload bytes.

The model has five modules:

- `BigEndian` (`big_endian.dfy`): the byte type, `int.to_bytes(..., "big")`
  as `ToBE`/`ToBE8`, and `int.from_bytes(..., "big")` as `FromBE`. Two
  round-trip lemmas show the 8-byte size field is a bijection.
- `Frame` (`frame.dfy`): the tag, the client's `Encode`, and `DecodeFrame`.
  `DecodeFrame` is the reference reading of a whole stream when every read
  returns as many bytes as are available. It is proved to invert `Encode`,
  and to return a payload prefix when the stream is cut short.
- `Server` (`server.dfy`): the client socket as a `Connection` class. It
  holds the peer's bytes and a read position. `Recv(n)` may return any
  0..n next bytes, and returns none only at end of stream. The module also
  has:
  - the slot file, as a class `SlotFile`;
  - the slot folder, as a class `Folder` holding the set of used slot numbers;
  - `find_next_file` as `Folder.FindNextFile`;
  - the receive loop as `ReceivePayload`;
  - `handle_client` as written, as `HandleClient`;
  - a corrected handler, `HandleClientExact`, that reads the header in full
    (see Findings).
- `Archive` (`archive.dfy`): which files `zip_cookies_folder` stores and
  under which names. The file system is a map from paths to files and
  directories. A member is the folder name it is filed under and the file it
  is read from; its name in the archive, `Arcname`, joins the folder name
  and the file's name. `ZipCookiesFolder` has the source's nested loops and
  is proved equal to the specification `Entries`. Membership lemmas
  characterise `Entries` exactly.
- `Findings` (`findings.dfy`): two concrete streams on which the as-written
  handler and the reference reading disagree.

Points of the code that the model follows:

- Slot numbering: the code takes the least positive number not in use, filling
  gaps. It does not take one more than the largest number in use.
- Slot timing: the slot is allocated in the accept loop (main.py:137), before
  the handler thread starts (main.py:138). The handler does not allocate it.
- Framing variants: only the tagged, length-prefixed frame occurs in this
  file. The untagged and unframed variants are not modelled.
- String values: the docstring of `zip_cookies_folder` shows string values,
  but the code accepts only `Path` objects and lists. A string value is
  skipped with a diagnostic, like any other value (`Source.Other`).

## Model

| member | source | states |
|---|---|---|
| `BigEndian.ToBE8` | main.py:240 | The size field has exactly 8 bytes and reads back, big-endian, as the size it encodes (for sizes below 2^64). |
| `BigEndian.FromBE` | main.py:76 | A big-endian field of w bytes denotes a value below 256^w. |
| `BigEndian.FromBEOfToBE` | main.py:240 | Decoding the w big-endian bytes of any n < 256^w gives n back. |
| `BigEndian.ToBEOfFromBE` | main.py:76 | Re-encoding a decoded field at its own width gives the same bytes, so no two fields denote the same size. |
| `Frame.Encode` | main.py:235-243 | The frame is 15 + \|payload\| bytes long: the `ZIPFILE` tag, then 8 bytes that decode to \|payload\|, then the payload. |
| `Frame.DecodeFrame` | main.py:68-87 | A stream is rejected iff its first 7 bytes are not the tag. Otherwise the delivered payload comes right after the 8-byte size. It never exceeds the declared size, and falls short only when the stream ends. |
| `Frame.DecodeHeader` | main.py:68-87 | A stream made of the tag, a size field (8 bytes, or shorter only when the stream ends inside it) and the rest is read as the field's value with min(value, \|rest\|) bytes of the rest. |
| `Frame.DecodeAt` | main.py:68-87 | The same reading for a stream read from an offset, stated on the stream's own slices: tag at the offset, size field after it, then min(declared, available) bytes. |
| `Frame.DecodeEncode` | main.py:65-89 | Round trip: reading an encoded frame, whatever follows it, gives back exactly its size and payload. |
| `Frame.DecodeTruncated` | main.py:82-85 | A frame cut off after its header still declares the full size. What arrives is the prefix of the payload that was sent. |
| `Server.Connection.Recv` | main.py:83 | `recv(n)` returns the next 0..n bytes of the stream, and returns none only when nothing is left. |
| `Server.Connection.Close` | main.py:89 | The socket is closed. |
| `Server.SlotFile.constructor` | main.py:112 | `touch()` creates the slot file empty. |
| `Server.SlotFile.Truncate` | main.py:80 | Opening with `"wb"` empties the file. |
| `Server.SlotFile.Write` | main.py:86 | `write` appends the chunk. |
| `Server.Folder.FindNextFile` | main.py:107-114 | The slot is the least i ≥ 1 not in use. Exactly that number is marked used, and the new slot file is empty. |
| `Server.ChunkRequest` | main.py:83 | Each read asks for min(1024, remaining): at least 1, at most 1024, at most `remaining`. |
| `Server.ReceivePayload` | main.py:80-87 | The file is opened for writing, and the loop terminates having taken exactly min(size, bytes left) bytes from the stream. The file then holds exactly those bytes. Its invariants keep bytes received plus `remaining` equal to the size, and `remaining` never goes negative. |
| `Server.HandleClient` | main.py:65-89 | Wrong tag: nothing beyond the ≤ 7 tag bytes is consumed, the slot file is untouched, and a stream not starting with the tag is always rejected. Right tag: the file holds the bytes after the size field, min(declared, available) of them, and is empty for size 0. If the size read returned 8 bytes, the result equals the reference reading. The socket is closed in every case. |
| `Server.RecvExact` | main.py:68-76 | Reads until n bytes arrive or the stream ends, returning exactly the next min(n, left) bytes. |
| `Server.HandleClientExact` | main.py:65-89 | Rejects exactly the streams the reference reading rejects, consuming at most 7 bytes and leaving the file untouched. Otherwise the file holds exactly the payload the reference reading delivers, and the stream has been read exactly up to the end of that payload. |
| `Archive.JoinShape` | main.py:190 | `os.path.join(folder, name)` ends with `name`. An absolute `name` is the whole result. A relative `name` follows `folder`, separated by exactly one `/` when the folder is non-empty and has no trailing `/`, and by nothing otherwise. |
| `Archive.AddPath` | main.py:185-195 | The members one path adds are exactly `Named(folder, PathFiles(path))`: the listed file children of a directory in listing order, or the file itself. |
| `Archive.AddPaths` | main.py:196-211 | The members a list adds are exactly those of each of its paths, in list order. |
| `Archive.ZipCookiesFolder` | main.py:182-213 | The members written by the nested loops are exactly `Entries`, in order. |
| `Archive.ChildFilesMember` | main.py:188-191 | A directory contributes exactly its listed children that are files, one level deep and never deeper. |
| `Archive.PathFilesMember` | main.py:185-195 | A path contributes itself if it is a file, its listed file children if it is a directory, and nothing otherwise. |
| `Archive.SelectFilesMember` | main.py:199-211 | A list contributes exactly what some element of it contributes. |
| `Archive.NamedMember` | main.py:190-191 | An item's members are exactly its selected files, each filed under the item's folder name (its name in the archive is `Arcname`, the join of folder and file name). |
| `Archive.EntriesMember` | main.py:183-213 | A (folder, file) member is in the archive iff some item of the source map has that folder name and selects that file. |
| `Archive.EntrySoundness` | main.py:183-213 | Every member is a regular file, stored under `folder/<file name>` for an item whose value is a path or a list (never for any other value). |
| `Archive.EntryCompleteness` | main.py:183-213 | Every file a listed path selects (the path itself, or a listed file child of a directory) is in the archive under `folder/<file name>`. |
| `Archive.ExampleEntries` | main.py:183-213 | Source map {a: directory of f1, f2 and a sub-directory; b: file f3; c: other value}: the archive holds exactly f1 and f2 under `a` and f3 under `b`, in that order. |
| `Archive.ExampleArcnames` | main.py:190-195 | Those members are named a/f1, a/f2 and b/f3 inside the archive. |
| `Findings.SplitTagRead` | main.py:68-72 | A complete valid frame whose first `recv(7)` legally returns only 3 bytes fails the tag check. |
| `Findings.SplitSizeRead` | main.py:75-76 | A complete valid frame for payload [42] whose `recv(8)` legally returns 3 bytes is read as size 0. |

## Left out

- Sockets: creation, `bind`/`listen`/`accept`, `connect` and `sendall` (main.py:124-131, 231-232) are network I/O. The stream is modelled only as the peer's byte sequence read through `Connection.Recv`. Socket errors such as a reset connection are not modelled.
- Threads: the thread-per-connection dispatch and the `KeyboardInterrupt` shutdown of `start_server` (main.py:129-143) are concurrency and signals. The model is sequential. The source allocates slots one after another in the accept loop, and creates each slot file there (main.py:112, 137). The handlers run concurrently, but each writes a different file.
- File-system errors: an `OSError` stops the source. It can come from `open(file_folder, "wb")` (main.py:80), from `is_dir`, `is_file` or `iterdir` (main.py:186-207), or from `zip_file.write` reading a member (main.py:191, 195, 206, 211), for example a `PermissionError` on a cookie database a browser holds locked. Such an error aborts `handle_client` or the whole `zip_cookies_folder`. In the model, `Server.ReceivePayload` and `Archive.ZipCookiesFolder` always finish.
- Blocking reads: `recv` blocks until data arrives or the peer closes, and no timeout is set. A peer that declares N > 0 bytes and then goes silent without closing holds the handler at main.py:83 forever. The stream is modelled as the finite sequence `Connection.data`, on which every `Recv` returns. The termination of `Server.ReceivePayload` therefore assumes that every `recv` returns.
- `find_cookies_files` (main.py:9-46) only probes the host file system for browser profile paths.
- Compression: DEFLATE and the zip container (main.py:180-182, 191, 215-216) belong to `zipfile`. Only the selected members and their names are modelled.
- `Server.HandleClient`: the tag is compared bytewise with `ZIPFILE`, not UTF-8 decoded. The comparison gives the same answer whenever decoding succeeds. When decoding fails, the source raises, closes the socket and writes nothing, which the model reports as `UnexpectedType`.
- `Frame.Encode`: requires the payload to be shorter than 2^64 bytes. `to_bytes(8)` would raise `OverflowError` beyond that, but no in-memory buffer reaches that size.
- `Server.Folder.FindNextFile`: the folder is modelled as the set of numbers N of its `received_dataN.zip` files. Other files in it, the creation of the folder itself (main.py:134-136) and the `Path.home()` lookup are not modelled.
- `Archive.Join`: modelled as POSIX `os.path.join`. The Windows separator and `zipfile`'s normalisation of member names are not modelled.
- `Archive.ZipCookiesFolder`: list elements are modelled as paths. A list element that is not a `Path` makes the source raise `AttributeError`, which is not modelled.
- Console diagnostics (`print`), the interactive mode prompt (main.py:267-274), `client_main_folder_finder` (main.py:247-265) and the hard-coded host and port are I/O.

## Findings

| source | as written | input that shows it | evidently intended | confidence | as-written member | corrected member |
|---|---|---|---|---|---|---|
| main.py:68-72 | One `recv(7)` is taken as the whole tag, but `recv` may return fewer bytes than asked. | A valid frame whose first `recv(7)` returns only `ZIP` (the other 4 tag bytes arrive later) is rejected as an unexpected type. | Read until 7 bytes have arrived or the stream ends. | medium, not executed | `Server.HandleClient`, `Findings.SplitTagRead` | `Server.HandleClientExact` |
| main.py:75-76 | One `recv(8)` is taken as the whole size field. | The frame for payload [42] whose `recv(8)` returns its first 3 bytes `00 00 00`: the size is read as 0 and the slot file stays empty. | Read until 8 bytes have arrived or the stream ends. | medium, not executed | `Server.HandleClient`, `Findings.SplitSizeRead` | `Server.HandleClientExact` |
