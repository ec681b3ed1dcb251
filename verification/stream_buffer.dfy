/** The fbuf class of src/physfs.cpp: one heap buffer, six cursors into it and
    the handle it reads from and writes to. Every method updates the buffer and
    cursors in place, and each is proved to leave exactly the state the
    matching function of BufferSpec describes. */
module StreamBuffer {
  import opened Handle
  import opened BufferSpec

  class FBuf {
    const file: File
    const bufferSize: nat
    const buffer: array<Byte>
    var eback: nat
    var gptr: nat
    var egptr: nat
    var pbase: nat
    var pptr: nat
    var epptr: nat

    ghost predicate Valid()
      reads this, file
    {
      && buffer.Length == bufferSize > 0
      && eback <= gptr <= egptr <= bufferSize
      && pbase <= pptr <= epptr <= bufferSize
      && file.Valid() && file.isOpen
    }

    /** The whole state as a value of BufferSpec. */
    ghost function Snapshot(): BufState
      reads this, buffer, file
    {
      BufState(buffer[..], eback, gptr, egptr, pbase, pptr, epptr, file.State())
    }

    /** fbuf(file, bufferSize): allocate the buffer, give the get area no bytes
        at its end and the put area the whole buffer. */
    constructor (file: File, bufferSize: nat := DefaultBufferSize)
      requires file.Valid() && file.isOpen && 0 < bufferSize
      ensures Valid() && fresh(buffer)
      ensures this.file == file && this.bufferSize == bufferSize
      ensures JustConstructed(Snapshot())
      ensures eback == gptr == egptr == bufferSize
      ensures pbase == pptr == 0 && epptr == bufferSize
    {
      this.file := file;
      this.bufferSize := bufferSize;
      buffer := new Byte[bufferSize];
      var end := bufferSize;
      eback, gptr, egptr := end, end, end;
      pbase, pptr, epptr := 0, 0, end;
    }

    method Underflow() returns (r: int)
      requires Valid()
      modifies this, buffer, file
      ensures Valid()
      ensures Snapshot() == BufferSpec.Underflow(old(Snapshot())).state
      ensures r == BufferSpec.Underflow(old(Snapshot())).result
    {
      if file.Eof() {
        return EOF;
      }
      var bytesRead := file.ReadBytes(buffer, bufferSize);
      if bytesRead < 1 {
        return EOF;
      }
      eback, gptr, egptr := 0, 0, bytesRead;
      r := buffer[gptr] as int;
      assert buffer[..] == buffer[..bytesRead] + buffer[bytesRead..];
    }

    method SeekOff(off: int, dir: SeekDir, mode: OpenMode) returns (r: int)
      requires Valid()
      modifies this, file
      ensures Valid()
      ensures Snapshot() == BufferSpec.SeekOff(old(Snapshot()), off, dir, mode).state
      ensures r == BufferSpec.SeekOff(old(Snapshot()), off, dir, mode).result
    {
      ghost var s := Snapshot();
      match dir {
        case Beg =>
          var _ := file.Seek(off);
        case Cur =>
          // subtract the bytes read ahead and not yet consumed
          var _ := file.Seek((file.Tell() + off) - (egptr - gptr));
        case End =>
          var _ := file.Seek(file.FileLength() + off);
      }
      assert file.State() == SeekTo(s.file, SeekTarget(s, off, dir));
      if mode.input {
        eback, gptr := egptr, egptr;
      }
      if mode.output {
        pbase, pptr, epptr := 0, 0, 0;
      }
      r := file.Tell();
    }

    method SeekPos(pos: int, mode: OpenMode) returns (r: int)
      requires Valid()
      modifies this, file
      ensures Valid()
      ensures Snapshot() == BufferSpec.SeekPos(old(Snapshot()), pos, mode).state
      ensures r == BufferSpec.SeekPos(old(Snapshot()), pos, mode).result
    {
      var _ := file.Seek(pos);
      if mode.input {
        eback, gptr := egptr, egptr;
      }
      if mode.output {
        pbase, pptr, epptr := 0, 0, 0;
      }
      r := file.Tell();
    }

    method Overflow(c: int := EOF) returns (r: int)
      requires Valid()
      modifies this, buffer, file
      ensures Valid()
      ensures Snapshot() == BufferSpec.Overflow(old(Snapshot()), c).state
      ensures r == BufferSpec.Overflow(old(Snapshot()), c).result
    {
      var flushed := Flush();
      if flushed < 0 {
        return EOF;
      }
      pbase, pptr, epptr := 0, 0, bufferSize;
      if c != EOF {
        buffer[pptr] := ToChar(c);
        pptr := pptr + 1;
      }
      r := c;
    }

    method Sync() returns (r: int)
      requires Valid()
      modifies this, file
      ensures Valid()
      ensures Snapshot() == BufferSpec.Sync(old(Snapshot())).state
      ensures r == BufferSpec.Sync(old(Snapshot())).result
    {
      r := Flush();
      pbase, pptr, epptr := 0, 0, bufferSize;
    }

    /** flush is const: it changes only the handle. */
    method Flush() returns (r: int)
      requires Valid()
      modifies file
      ensures Valid()
      ensures file.State() == BufferSpec.Flush(old(Snapshot())).file
      ensures r == BufferSpec.Flush(old(Snapshot())).result
    {
      ghost var s := Snapshot();
      var len := pptr - pbase;
      if len == 0 {
        return 0;
      }
      assert buffer[pbase..pbase + len] == s.buf[s.pbase..s.pptr];
      var written := file.WriteBytes(buffer, pbase, len);
      assert file.State() == Write(s.file, s.buf[s.pbase..s.pptr]).handle;
      if written < len {
        return -1;
      }
      return 0;
    }

    /** ~fbuf: flush whatever is pending (ignoring the result); the buffer is
        then released. */
    method Destroy()
      requires Valid()
      modifies file
      ensures file.Valid() && file.isOpen
      ensures file.State() == BufferSpec.Flush(old(Snapshot())).file
    {
      var _ := Flush();
    }
  }
}
