# physfs-cpp stream buffer, modelled in Dafny

physfs-cpp wraps the PhysicsFS virtual file system in C++ streams. The only
logic it adds is `fbuf`, a `std::streambuf` that sits over a `PHYSFS_File`
handle and turns the handle's block reads, block writes and absolute seeks into
a byte-at-a-time stream. `fbuf` owns one heap buffer of `bufferSize` bytes
(2048 by default) and keeps two cursor windows over it:

- a get area `[eback, egptr)` with read cursor `gptr`, which `underflow` refills;
- a put area `[pbase, epptr)` with write cursor `pptr`, which `flush`,
  `overflow` and `sync` drain.

`seekoff` and `seekpos` move the handle and reset the two areas. Around `fbuf`
sit `openWithMode`, which opens a handle by mode, and `base_fstream`, which owns
that handle.

The model has five modules.

- `Handle` (handle.dfy) is an abstract `PHYSFS_File`. A handle is a byte
  sequence with a position. It is opened for reading or for writing, never both,
  and a writable handle can take only `room` more bytes.
  - A read on a write handle returns -1.
  - A write on a read handle returns -1.
  - Only a read handle reaches end-of-file.
  - A write comes up short once `room` runs out.
  - A read on a read handle never fails, and it comes up short only at the
    end of the file (see "## Left out").
  - A seek outside `[0, length]` fails and leaves the handle where it was. A
    negative target reaches the library as a huge unsigned offset.

  The pure functions `Read`, `Write` and `SeekTo` describe a handle as a value.
  The class `File` updates one in place.
- `BufferSpec` (buffer_spec.dfy) is `fbuf` as a state machine over values.
  `BufState` holds the buffer bytes, the six cursors (as offsets from the start
  of the buffer) and the handle. Each virtual is a function from the state
  before the call to the state after it and the value it returns. Its
  `ensures` clauses state what the operation promises.
- `StreamBuffer` (stream_buffer.dfy) is the class `FBuf`. It has an
  `array<Byte>` buffer, six cursor fields and a `File`. Every method updates
  them in place, in the source's order. Each method is proved to leave exactly
  the state, and return exactly the value, that the matching `BufferSpec`
  function gives for the state before the call.
- `StreamClient` (stream_client.dfy) holds the end-to-end properties. It writes
  out the two standard-library callers that move the cursors one byte at a time
  (`sputc` and `sbumpc`). They are not part of physfs-cpp; they exist only so
  that the following can be stated and proved:
  - bytes written through a fresh buffer reach the handle once `sync` runs;
  - a fresh buffer over a read handle yields the whole file, then eof;
  - what is written comes back unchanged when read;
  - a relative seek reports the reader's logical position, not the handle's;
  - a seek with the out bit drops unflushed bytes.
- `FStream` (fstream.dfy) models `openWithMode` over a small library state
  `Vfs`: the visible files, whether a write directory is set, and a log of the
  open calls made. It also models `base_fstream`'s null check and its `close`.

## Model

| member | source | states |
|---|---|---|
| BufferSpec.Underflow | src/physfs.cpp:18-32 | At end of file it returns eof and changes nothing. It returns eof exactly when the handle is at its end or cannot be read. Otherwise the get window is `[0, n)` with `0 < n <= bufferSize`, and those n bytes are the handle's next n bytes. The handle advances by n, the bytes past n are untouched and `gptr` is not advanced. The result is the first byte as an unsigned value. `n` is exactly the count the handle's read returned. A window shorter than the buffer happens only when the read reached the end of the file, and it leaves the handle there. The put cursors are unchanged. |
| BufferSpec.Flush | src/physfs.cpp:107-121 | With nothing pending it returns 0 and leaves the handle untouched. It returns -1 exactly when bytes are pending and the handle writes fewer than all of them. On 0 the handle holds `buffer[pbase..pptr)` spliced in order at its old position, and the position has moved past them. On -1 a read handle is untouched, and a write handle holds the first `room` pending bytes spliced at its old position, with its position moved past them and no room left. The result is always 0 or -1. |
| BufferSpec.Overflow | src/physfs.cpp:80-97 | If flush fails it returns eof, and only the handle has changed. Otherwise the put area is the whole buffer again and c is returned. For c == eof nothing is pending and the buffer is unchanged. For any other c exactly one byte, `(char)c`, is pending at `buffer[0]` and the rest of the buffer is unchanged. The get area is untouched. |
| BufferSpec.Sync | src/physfs.cpp:99-105 | It returns flush's result and leaves flush's handle. The put area is the whole buffer with nothing pending even when the flush failed. The buffer and the get area are untouched. |
| BufferSpec.SeekOff | src/physfs.cpp:34-62 | The handle moves to `off` (beg), `tell + off - (egptr - gptr)` (cur) or `fileLength + off` (end) when that lies in the file, and stays put otherwise. The result is the handle's position after the seek. With the in bit the get area is empty, at the old `egptr`. With the out bit the put area is `[buffer, buffer)`. Each area is unchanged without its bit. The buffer is untouched. |
| BufferSpec.SeekPos | src/physfs.cpp:64-78 | The handle moves to `pos` when it lies in the file. The result and the resets of the areas are as for seekoff. |
| BufferSpec.SeekPosIsSeekOffFromBeg | src/physfs.cpp:34-78 | seekpos(p, mode) is seekoff(p, beg, mode). |
| BufferSpec.ToChar | src/physfs.cpp:92 | `(char)c` keeps every value in 0..255 unchanged. |
| Handle.IsEof | src/physfs.cpp:20 | PHYSFS_eof holds only for a handle opened for reading, and on a valid handle exactly when its position is at the end of the file. |
| Handle.Read | src/physfs.cpp:25 | PHYSFS_readBytes returns -1 on a write handle. Otherwise it returns exactly the next min(n, remaining) bytes, and the position moves past them. In this model a read is short only at end of file. |
| Handle.Write | src/physfs.cpp:115 | PHYSFS_writeBytes returns -1 on a read handle. Otherwise it writes exactly min(length of d, room) bytes of d at the position, and the write is short exactly when room runs out. |
| Handle.File.Eof | src/physfs.cpp:20 | The handle's eof holds exactly when it was opened for reading and its position is at the end of the file. |
| Handle.File.ReadBytes | src/physfs.cpp:25 | The handle ends as Handle.Read says, the count is Read's count, and the bytes read are copied to the front of the buffer with the rest of the buffer unchanged. |
| Handle.File.WriteBytes | src/physfs.cpp:115 | The handle ends as Handle.Write says for the bytes `buf[from..from+n)`, and the count is Write's count. |
| Handle.File.Seek | src/physfs.cpp:39-46 | The handle ends as Handle.SeekTo says, and the result says whether the target lay in the file. |
| Handle.File.Tell | src/physfs.cpp:61 | PHYSFS_tell returns the handle's position, which is never negative. |
| Handle.File.FileLength | src/physfs.cpp:46 | PHYSFS_fileLength returns the number of bytes in the file. |
| Handle.File.Close | src/physfs.cpp:190 | PHYSFS_close marks the handle closed and leaves its bytes and position as they were. |
| Handle.SeekTo | src/physfs.cpp:39-46 | PHYSFS_seek moves to t when t lies in `[0, length]` and otherwise leaves the handle unchanged. |
| Handle.Splice | src/physfs.cpp:115 | Writing d at p keeps the bytes before p, puts d at p, and keeps the bytes after it when d ends inside the file. |
| StreamBuffer.FBuf.constructor | src/physfs.cpp:130-136 | The buffer is fresh and has `bufferSize` bytes. `gptr == egptr == eback == bufferSize`: the get area is empty, at the end. `pbase == pptr == 0` and `epptr == bufferSize`: the put area is the whole buffer with nothing pending. |
| StreamBuffer.FBuf.Underflow | src/physfs.cpp:18-32 | The buffer, cursors and handle end as BufferSpec.Underflow says, and it returns the same value. |
| StreamBuffer.FBuf.SeekOff | src/physfs.cpp:34-62 | The cursors and handle end as BufferSpec.SeekOff says, and it returns the same value. |
| StreamBuffer.FBuf.SeekPos | src/physfs.cpp:64-78 | The cursors and handle end as BufferSpec.SeekPos says, and it returns the same value. |
| StreamBuffer.FBuf.Overflow | src/physfs.cpp:80-97 | The buffer, cursors and handle end as BufferSpec.Overflow says, and it returns the same value. |
| StreamBuffer.FBuf.Sync | src/physfs.cpp:99-105 | The cursors and handle end as BufferSpec.Sync says, and it returns the same value. |
| StreamBuffer.FBuf.Flush | src/physfs.cpp:107-121 | Only the handle changes, to BufferSpec.Flush's handle, and it returns the same value. |
| StreamBuffer.FBuf.Destroy | src/physfs.cpp:138-142 | The destructor leaves the handle as flush does and ignores flush's result. |
| StreamClient.FlushCompletesAppend | src/physfs.cpp:107-121 | On a stream appending to a writable handle with room for the pending bytes, flush succeeds and the handle then holds everything written. |
| StreamClient.SputcAppends | src/physfs.cpp:80-97 | Putting one byte on an appending stream with room left appends it, whether the put area had room or overflow had to flush first. |
| StreamClient.PutAllAppends | src/physfs.cpp:80-121 | Putting a sequence of bytes that fits in the room keeps the stream appending with those bytes added. |
| StreamClient.WrittenBytesReachTheFile | src/physfs.cpp:80-136 | Bytes put through a freshly constructed buffer over a writable handle at its end are all in the handle, after its earlier bytes, once sync returns 0. |
| StreamClient.SbumpcReads | src/physfs.cpp:18-32 | On a reader, taking a byte yields the byte at the logical position and moves one byte on. At end of file it yields eof and changes nothing. |
| StreamClient.GetNTakesOne | src/physfs.cpp:18-32 | Taking n > 0 bytes before end of file starts with the byte at the logical position. The rest is taken by a reader one byte further on. |
| StreamClient.GetNAtEnd | src/physfs.cpp:20-23 | At end of file a reader gets no bytes and stays where it is. |
| StreamClient.GetNAdvances | src/physfs.cpp:18-32 | Taking n bytes leaves a reader exactly min(n, remaining) bytes further along the same file. |
| StreamClient.GetNReads | src/physfs.cpp:18-32 | Taking n bytes yields exactly the next min(n, remaining) bytes of the file. |
| StreamClient.ReadsWholeFile | src/physfs.cpp:18-136 | A freshly constructed buffer over a handle opened for reading yields the whole file, then eof. |
| StreamClient.RoundTrip | src/physfs.cpp:18-136 | Bytes written through one buffer and synced come back unchanged through a buffer reading that file, followed by eof. |
| StreamClient.TellIsLogicalPosition | src/physfs.cpp:41-55 | seekoff(0, cur, in) returns the reader's logical position, which is the handle position less the unconsumed bytes. Afterwards the reader is still at that position, with an empty get area. |
| StreamClient.SeekToEndThenEof | src/physfs.cpp:45-55 | seekoff(0, end, in) returns the file length, and the next byte taken is eof. |
| StreamClient.SeekOutDropsPending | src/physfs.cpp:57-60 | A seek with the out bit leaves nothing pending and writes nothing. A later sync does not write the dropped bytes either. |
| StreamClient.TellpLosesPendingOutput | src/physfs.cpp:41-60 | On an appending stream with pending bytes, seekoff(0, cur, out) returns a position short of the bytes written, and those bytes are lost. |
| StreamClient.SeekOffFlushing | src/physfs.cpp:34-62 | The corrected seekoff: with the out bit and bytes pending it flushes first. A failed flush returns -1 and changes only the handle, as flush left it. Otherwise it seeks as seekoff does, from the flushed state. |
| StreamClient.TellpKeepsPendingOutput | src/physfs.cpp:41-60 | With the corrected seekoff, tellp on an appending stream returns the number of bytes written, and the handle holds all of them. |
| FStream.OpenWithMode | src/physfs.cpp:164-184 | It makes exactly one library open call, the one the mode selects. A null handle becomes `invalid_argument("file not found: " + filename)`. Read fails exactly when the file is missing. Write and append fail exactly when no write directory is set. On success it returns the handle the mode gives: read at 0, write on the file truncated in the map, append at the end of the file, created in the map if missing. A failed open leaves the map unchanged. |
| FStream.BaseFStream.Create | src/physfs.cpp:145-151 | A null handle is rejected with `invalid_argument("attempted to construct fstream with NULL ptr")`. Otherwise the stream owns the handle. |
| FStream.BaseFStream.Close | src/physfs.cpp:186-193 | An owned handle is closed and its contents kept, and the stream forgets it. With no handle nothing changes, so a second close is a no-op. |
| FStream.Vfs.OpenReadFile | src/physfs.cpp:176 | PHYSFS_openRead is null exactly when the file is missing. Otherwise it gives a read handle at position 0. |
| FStream.Vfs.OpenWriteFile | src/physfs.cpp:170 | PHYSFS_openWrite is null exactly when no write directory is set. Otherwise it truncates the file and gives an empty write handle. |
| FStream.Vfs.OpenAppendFile | src/physfs.cpp:173 | PHYSFS_openAppend is null exactly when no write directory is set. Otherwise it creates the file if it is missing and gives a write handle at its end. |

## Findings

| source | as written | input that shows it | evidently intended | confidence | as-written member | corrected member |
|---|---|---|---|---|---|---|
| src/physfs.cpp:57-60 | With the out bit, seekoff and seekpos reset the put area to `[buffer, buffer)` without writing the bytes in `[pbase, pptr)`. `std::ostream::tellp` calls `seekoff(0, cur, out)`, so calling it on an output stream with unflushed bytes discards them, and it reports a position short of what was written. | An appending stream that has put one byte which is still pending, followed by `tellp()`. | Flush the pending bytes before moving the handle, as `std::basic_filebuf` does. tellp then reports the number of bytes written, and no byte is lost. | likely; not executed | StreamClient.TellpLosesPendingOutput | StreamClient.SeekOffFlushing, StreamClient.TellpKeepsPendingOutput |

`StreamBuffer.FBuf.SeekOff`, `StreamBuffer.FBuf.SeekPos` and `BufferSpec.SeekOff`
model the code as written. The corrected seekoff is stated beside them and is
not used by the class.

## Left out

- The one-line forwarders to PhysicsFS are not modelled: init and deinit, mounting, the search path, the write directory, enumeration, stat, the allocator, and `base_fstream::length`. They hold no logic of their own.
- The `Util` byte-swap and UTF-8 helpers are not modelled. They pass straight through to the library.
- The `ifstream`, `ofstream` and `fstream` facades are not modelled, and neither is the `base_fstream` destructor. They manage `rdbuf` ownership and object lifetime on top of the standard iostream machinery.
- include/physfs.hpp is not modelled beyond the `mode` enum, which is mirrored as `FStream.Mode`.
- `sputc` and `sbumpc` belong to the C++ standard library. They are written out in `StreamClient` only to state the end-to-end properties.
- Handle.Read: a read on a handle opened for reading never fails and is short only at end of file. PhysicsFS may also return a short count or -1 in the middle of a file when the underlying archive or disk fails. In that case underflow's `bytesRead < 1` branch (src/physfs.cpp:27-29) ends the stream early, and the reader cannot tell this from the real end of the file. StreamClient.GetNReads, StreamClient.ReadsWholeFile and StreamClient.RoundTrip hold only for reads that do not fail.
- The library itself is abstract: no archives, permissions or mount resolution. `PHYSFS_close` on a handle does not flush library-side buffers.
- FStream.Vfs.OpenWriteFile and FStream.Vfs.OpenAppendFile do not tie later writes through the handle back to the library's file map.
- Positions and offsets are unbounded integers. The 64-bit `off_type`, `PHYSFS_sint64` and `PHYSFS_uint64` arithmetic and its overflow are not modelled, except that a negative seek target fails.
- seekoff's `default:` branch, for a seekdir value outside beg, cur and end, is not modelled. `SeekDir` has only those three values.
- StreamBuffer.FBuf.constructor requires `bufferSize > 0`. With a zero-size buffer, `overflow` would store a byte past the end of the buffer.
- Handle.File.ReadBytes copies the bytes into the buffer with one parallel assignment rather than a byte loop. PhysicsFS's own copying is not part of this model.
- The buffer is an `array<Byte>` over a byte newtype (0..255). `char`'s signedness plays no part, because underflow returns `(unsigned char)` and overflow stores `(char)c`.
