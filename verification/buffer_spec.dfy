/** The fbuf stream buffer of src/physfs.cpp as a state machine over values.
    Each virtual of fbuf (underflow, overflow, sync, seekoff, seekpos) and its
    helper flush is a function from the buffer's state before the call to its
    state after it and the value it returns. The class in stream_buffer.dfy
    implements each of them in place and is proved equal to these functions. */
module BufferSpec {
  import opened Handle

  /** traits_type::eof() of a char stream. */
  const EOF: int := -1

  /** The buffer size fbuf is given when its constructor is called with one argument. */
  const DefaultBufferSize: nat := 2048

  /** The ios_base::in and ios_base::out bits of an ios_base::openmode. */
  datatype OpenMode = OpenMode(input: bool, output: bool)

  /** ios_base::seekdir. */
  datatype SeekDir = Beg | Cur | End

  /** The bytes of the buffer; the get area [eback, egptr) with its cursor gptr;
      the put area [pbase, epptr) with its cursor pptr (all six as offsets
      from the start of the buffer); and the state of the handle. */
  datatype BufState = BufState(buf: seq<Byte>,
                               eback: nat, gptr: nat, egptr: nat,
                               pbase: nat, pptr: nat, epptr: nat,
                               file: HandleState)
  {
    ghost predicate Valid() {
      && 0 < |buf|
      && eback <= gptr <= egptr <= |buf|
      && pbase <= pptr <= epptr <= |buf|
      && file.Valid()
    }

    /** Bytes read from the handle and not yet consumed. */
    function Unread(): int {
      egptr - gptr
    }

    /** Bytes put into the buffer and not yet written to the handle. */
    function Pending(): seq<Byte>
      requires Valid()
    {
      buf[pbase..pptr]
    }
  }

  /** The state the constructor leaves (src/physfs.cpp:130-136): the get area is
      empty and sits at the end of the buffer, the put area spans the whole
      buffer and nothing is pending. */
  ghost predicate JustConstructed(s: BufState) {
    && s.Valid()
    && s.eback == s.gptr == s.egptr == |s.buf|
    && s.pbase == s.pptr == 0 && s.epptr == |s.buf|
  }

  /** The cast (char)c: the low eight bits of an int_type. */
  function ToChar(c: int): (b: Byte)
    ensures 0 <= c < 256 ==> b as int == c
  {
    (c % 256) as Byte
  }

  /** What an operation leaves behind and what it returns. */
  datatype Step = Step(state: BufState, result: int)

  /** underflow: refill the get area from the handle and return its first byte,
      without consuming it. */
  function Underflow(s: BufState): (r: Step)
    requires s.Valid()
    ensures r.state.Valid()
    // end of file, or a read that yields nothing: eof, and nothing changes
    ensures IsEof(s.file) ==> r == Step(s, EOF)
    ensures r.result == EOF <==> IsEof(s.file) || !s.file.forReading
    ensures r.result == EOF ==> r.state == s
    // a successful read: the get window is exactly the bytes read, the cursor is at its start
    ensures r.result != EOF ==>
      && r.state.eback == r.state.gptr == 0
      && 0 < r.state.egptr <= |s.buf| == |r.state.buf|
      && r.state.file == s.file.(pos := s.file.pos + r.state.egptr)
      && r.state.buf[..r.state.egptr] == s.file.contents[s.file.pos..r.state.file.pos]
      && r.state.buf[r.state.egptr..] == s.buf[r.state.egptr..]
    // a short read happens only at the end of the file
    ensures r.result != EOF ==> (r.state.egptr < |s.buf| <==> |s.file.contents| < s.file.pos + |s.buf|)
    ensures r.result != EOF && r.state.egptr < |s.buf| ==> r.state.file.pos == |s.file.contents|
    // the window is exactly what the handle's read returned
    ensures r.result != EOF ==> r.state.egptr == Read(s.file, |s.buf|).count
    // the result is the first byte as an unsigned char, so it is never eof
    ensures r.result != EOF ==> 0 <= r.result < 256 && r.result == r.state.buf[0] as int
    // the put area's cursors are left alone
    ensures r.state.pbase == s.pbase && r.state.pptr == s.pptr && r.state.epptr == s.epptr
  {
    if IsEof(s.file) then Step(s, EOF)
    else
      var rd := Read(s.file, |s.buf|);
      if rd.count < 1 then Step(s.(file := rd.handle), EOF)
      else
        Step(s.(buf := rd.data + s.buf[rd.count..], eback := 0, gptr := 0, egptr := rd.count,
                file := rd.handle),
             rd.data[0] as int)
  }

  /** What flush leaves behind: it changes no field of fbuf, only the handle. */
  datatype FlushOutcome = FlushOutcome(file: HandleState, result: int)

  /** flush: write the pending bytes [pbase, pptr) at the handle's position. */
  function Flush(s: BufState): (r: FlushOutcome)
    requires s.Valid()
    ensures r.file.Valid() && r.file.forReading == s.file.forReading
    ensures r.result == 0 || r.result == -1
    // nothing pending: success without touching the handle
    ensures s.pptr == s.pbase ==> r == FlushOutcome(s.file, 0)
    // a short write (or a handle that cannot be written) is a failure
    ensures r.result == -1 <==> s.pbase < s.pptr && (s.file.forReading || s.file.room < s.pptr - s.pbase)
    // failure: a read handle is untouched; a write handle took the first `room` pending bytes
    ensures r.result == -1 && s.file.forReading ==> r.file == s.file
    ensures r.result == -1 && !s.file.forReading ==>
      && r.file.contents == Splice(s.file.contents, s.file.pos, s.Pending()[..s.file.room])
      && r.file.pos == s.file.pos + s.file.room
      && r.file.room == 0
    // success: the pending bytes are in the file, in order, at the old position
    ensures r.result == 0 ==>
      && r.file.contents == Splice(s.file.contents, s.file.pos, s.Pending())
      && r.file.pos == s.file.pos + |s.Pending()|
      && r.file.room == s.file.room - |s.Pending()|
  {
    var len := s.pptr - s.pbase;
    if len == 0 then FlushOutcome(s.file, 0)
    else
      var w := Write(s.file, s.buf[s.pbase..s.pptr]);
      FlushOutcome(w.handle, if w.count < len then -1 else 0)
  }

  /** overflow(c): flush, reset the put area to the whole buffer and store c
      (unless it is eof) as its first pending byte. */
  function Overflow(s: BufState, c: int): (r: Step)
    requires s.Valid()
    ensures r.state.Valid()
    ensures r.state.file == Flush(s).file
    // a failed flush: eof, and only the handle has changed
    ensures Flush(s).result != 0 ==> r == Step(s.(file := Flush(s).file), EOF)
    // otherwise the put area is the whole buffer again and c is returned
    ensures Flush(s).result == 0 ==> r.result == c && r.state.pbase == 0 && r.state.epptr == |s.buf|
    ensures Flush(s).result == 0 && c == EOF ==> r.state.pptr == 0 && r.state.buf == s.buf
    ensures Flush(s).result == 0 && c != EOF ==>
      r.state.Pending() == [ToChar(c)] && r.state.buf[1..] == s.buf[1..]
    // the get area is left alone
    ensures r.state.eback == s.eback && r.state.gptr == s.gptr && r.state.egptr == s.egptr
  {
    var f := Flush(s);
    if f.result < 0 then Step(s.(file := f.file), EOF)
    else
      var reset := s.(pbase := 0, pptr := 0, epptr := |s.buf|, file := f.file);
      if c != EOF then Step(reset.(buf := s.buf[0 := ToChar(c)], pptr := 1), c)
      else Step(reset, c)
  }

  /** sync: flush, then reset the put area to the whole buffer whether or not
      the flush succeeded; return flush's result. */
  function Sync(s: BufState): (r: Step)
    requires s.Valid()
    ensures r.state.Valid()
    ensures r.result == Flush(s).result && r.state.file == Flush(s).file
    ensures r.state.pbase == r.state.pptr == 0 && r.state.epptr == |s.buf|
    ensures r.state.Pending() == []
    ensures r.state.buf == s.buf
    ensures r.state.eback == s.eback && r.state.gptr == s.gptr && r.state.egptr == s.egptr
  {
    var f := Flush(s);
    Step(s.(pbase := 0, pptr := 0, epptr := |s.buf|, file := f.file), f.result)
  }

  /** The handle position seekoff asks for. From the current position it
      subtracts the bytes read ahead into the get area and not yet consumed. */
  function SeekTarget(s: BufState, off: int, dir: SeekDir): int {
    match dir
    case Beg => off
    case Cur => (s.file.pos + off) - (s.egptr - s.gptr)
    case End => |s.file.contents| + off
  }

  /** The cursor resets that follow the handle seek in seekoff and seekpos. */
  function ResetAreas(s: BufState, mode: OpenMode): BufState {
    var afterIn := if mode.input then s.(eback := s.egptr, gptr := s.egptr) else s;
    if mode.output then afterIn.(pbase := 0, pptr := 0, epptr := 0) else afterIn
  }

  /** seekoff(off, dir, mode): seek the handle to SeekTarget, empty the get area
      (in) and shrink the put area to nothing (out); return the handle's position. */
  function SeekOff(s: BufState, off: int, dir: SeekDir, mode: OpenMode): (r: Step)
    requires s.Valid()
    ensures r.state.Valid()
    ensures var t := SeekTarget(s, off, dir);
      && (0 <= t <= |s.file.contents| ==> r.state.file == s.file.(pos := t))
      && (!(0 <= t <= |s.file.contents|) ==> r.state.file == s.file)
    ensures r.result == r.state.file.pos
    ensures r.state.buf == s.buf
    // in: the get area is empty, at the old end of the get area
    ensures mode.input ==> r.state.eback == r.state.gptr == r.state.egptr == s.egptr
    ensures !mode.input ==> r.state.eback == s.eback && r.state.gptr == s.gptr && r.state.egptr == s.egptr
    // out: the put area has no capacity, and unflushed bytes are dropped
    ensures mode.output ==> r.state.pbase == r.state.pptr == r.state.epptr == 0
    ensures !mode.output ==> r.state.pbase == s.pbase && r.state.pptr == s.pptr && r.state.epptr == s.epptr
  {
    var moved := SeekTo(s.file, SeekTarget(s, off, dir));
    Step(ResetAreas(s, mode).(file := moved), moved.pos)
  }

  /** seekpos(pos, mode): as seekoff, with the handle sought to pos itself. */
  function SeekPos(s: BufState, pos: int, mode: OpenMode): (r: Step)
    requires s.Valid()
    ensures r.state.Valid()
    ensures 0 <= pos <= |s.file.contents| ==> r.state.file == s.file.(pos := pos)
    ensures !(0 <= pos <= |s.file.contents|) ==> r.state.file == s.file
    ensures r.result == r.state.file.pos
    ensures r.state.buf == s.buf
    ensures mode.input ==> r.state.eback == r.state.gptr == r.state.egptr == s.egptr
    ensures !mode.input ==> r.state.eback == s.eback && r.state.gptr == s.gptr && r.state.egptr == s.egptr
    ensures mode.output ==> r.state.pbase == r.state.pptr == r.state.epptr == 0
    ensures !mode.output ==> r.state.pbase == s.pbase && r.state.pptr == s.pptr && r.state.epptr == s.epptr
  {
    var moved := SeekTo(s.file, pos);
    Step(ResetAreas(s, mode).(file := moved), moved.pos)
  }

  /** seekpos(p, mode) is seekoff(p, beg, mode). */
  lemma SeekPosIsSeekOffFromBeg(s: BufState, p: int, mode: OpenMode)
    requires s.Valid()
    ensures SeekPos(s, p, mode) == SeekOff(s, p, Beg, mode)
  {
  }
}
