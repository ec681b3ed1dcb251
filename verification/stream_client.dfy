/** What a stream built on fbuf reads and writes. The two callers below,
    std::streambuf::sputc and std::streambuf::sbumpc, belong to the C++
    standard library, not to src/physfs.cpp; they are written out only so that
    the end-to-end promises of the adapter (bytes written come back when read,
    reading stops cleanly at the end, a relative seek reports the logical
    position) can be stated about BufferSpec. */
module StreamClient {
  import opened Handle
  import opened BufferSpec

  /** sputc(b): store b at pptr while the put area has room, otherwise overflow(b). */
  function Sputc(s: BufState, b: Byte): (r: Step)
    requires s.Valid()
    ensures r.state.Valid()
  {
    if s.pptr < s.epptr then Step(s.(buf := s.buf[s.pptr := b], pptr := s.pptr + 1), b as int)
    else Overflow(s, b as int)
  }

  /** sbumpc(): take the byte at gptr; when the get area is exhausted, underflow
      first and, unless it returned eof, take the byte it made available. */
  function Sbumpc(s: BufState): (r: Step)
    requires s.Valid()
    ensures r.state.Valid()
    ensures r.result == EOF || 0 <= r.result < 256
  {
    if s.gptr < s.egptr then Step(s.(gptr := s.gptr + 1), s.buf[s.gptr] as int)
    else
      var u := Underflow(s);
      if u.result == EOF then u
      else Step(u.state.(gptr := u.state.gptr + 1), u.state.buf[u.state.gptr] as int)
  }

  /** Put every byte of `data` with sputc, stopping at the first failure. */
  function PutAll(s: BufState, data: seq<Byte>): (r: BufState)
    requires s.Valid()
    ensures r.Valid()
    decreases |data|
  {
    if data == [] then s
    else
      var p := Sputc(s, data[0]);
      if p.result == EOF then p.state else PutAll(p.state, data[1..])
  }

  datatype Got = Got(state: BufState, bytes: seq<Byte>)

  /** Take up to n bytes with sbumpc, stopping at end-of-stream. */
  function GetN(s: BufState, n: nat): (r: Got)
    requires s.Valid()
    ensures r.state.Valid()
    decreases n, 0
  {
    if n == 0 then Got(s, []) else GetAfter(Sbumpc(s), n - 1)
  }

  /** The rest of GetN once sbumpc has produced `g`: stop on eof, otherwise
      keep g's byte and take up to n more. */
  function GetAfter(g: Step, n: nat): (r: Got)
    requires g.state.Valid() && (g.result == EOF || 0 <= g.result < 256)
    ensures r.state.Valid()
    decreases n, 1
  {
    if g.result == EOF then Got(g.state, [])
    else
      var rest := GetN(g.state, n);
      Got(rest.state, [g.result as Byte] + rest.bytes)
  }

  // ---------------------------------------------------------------- writing

  /** A stream appending to a writable handle: the put area starts at the start
      of the buffer and spans it, the get area is empty, the handle sits at its
      end, and the handle's bytes followed by the pending bytes are `written`. */
  ghost predicate Appending(s: BufState, written: seq<Byte>) {
    && s.Valid()
    && !s.file.forReading
    && s.pbase == 0 && s.epptr == |s.buf|
    && s.gptr == s.egptr
    && s.file.pos == |s.file.contents|
    && s.file.contents + s.Pending() == written
  }

  /** flush completes an append as long as the handle has room for the pending
      bytes; this is what sync and the destructor rely on. */
  lemma FlushCompletesAppend(s: BufState, written: seq<Byte>)
    requires Appending(s, written) && s.pptr <= s.file.room
    ensures Flush(s).result == 0
    ensures Flush(s).file.contents == written
    ensures Flush(s).file.pos == |written| && Flush(s).file.room == s.file.room - s.pptr
  {
  }

  /** One sputc appends one byte, through overflow when the put area is full,
      and uses up exactly one byte of the handle's remaining room. */
  lemma SputcAppends(s: BufState, written: seq<Byte>, b: Byte)
    requires Appending(s, written) && s.pptr < s.file.room
    ensures Sputc(s, b).result == b as int
    ensures Appending(Sputc(s, b).state, written + [b])
    ensures Sputc(s, b).state.file.room - Sputc(s, b).state.pptr == s.file.room - s.pptr - 1
  {
  }

  lemma {:induction false} PutAllAppends(s: BufState, written: seq<Byte>, data: seq<Byte>)
    requires Appending(s, written) && s.pptr + |data| <= s.file.room
    ensures Appending(PutAll(s, data), written + data)
    ensures PutAll(s, data).pptr <= PutAll(s, data).file.room
    decreases |data|
  {
    if data == [] {
      assert written + data == written;
    } else {
      SputcAppends(s, written, data[0]);
      var p := Sputc(s, data[0]);
      PutAllAppends(p.state, written + [data[0]], data[1..]);
      assert written + [data[0]] + data[1..] == written + data;
    }
  }

  /** Bytes put through a freshly constructed buffer over a writable handle all
      reach the handle, after the handle's earlier bytes, once sync runs. */
  lemma WrittenBytesReachTheFile(s: BufState, data: seq<Byte>)
    requires JustConstructed(s) && !s.file.forReading
    requires s.file.pos == |s.file.contents| && |data| <= s.file.room
    ensures Sync(PutAll(s, data)).result == 0
    ensures Sync(PutAll(s, data)).state.file.contents == s.file.contents + data
  {
    assert s.Pending() == [];
    assert Appending(s, s.file.contents);
    PutAllAppends(s, s.file.contents, data);
    FlushCompletesAppend(PutAll(s, data), s.file.contents + data);
  }

  // ---------------------------------------------------------------- reading

  /** The position a reader of the stream is at: the handle's position less the
      bytes read ahead into the get area and not yet consumed. */
  function Logical(s: BufState): int {
    s.file.pos - s.Unread()
  }

  /** A stream reading a readable handle: the unconsumed part of the get area
      holds the handle's bytes from the logical position up to the handle's
      position. */
  ghost predicate Reading(s: BufState) {
    && s.Valid()
    && s.file.forReading
    && s.Unread() <= s.file.pos
    && s.buf[s.gptr..s.egptr] == s.file.contents[Logical(s)..s.file.pos]
  }

  /** sbumpc yields the byte at the logical position and moves past it; at the
      end of the file it yields eof and changes nothing, however often it is
      called. */
  lemma SbumpcReads(s: BufState)
    requires Reading(s)
    ensures var r := Sbumpc(s);
      Logical(s) < |s.file.contents| ==>
        && r.result == s.file.contents[Logical(s)] as int
        && Reading(r.state) && Logical(r.state) == Logical(s) + 1
        && r.state.file.contents == s.file.contents
    ensures Logical(s) == |s.file.contents| ==> Sbumpc(s) == Step(s, EOF)
  {
  }

  /** The first of n > 0 bytes taken by a reader before the end of the file:
      sbumpc yields the byte at the logical position and leaves a reader g one
      byte further on. */
  lemma GetNTakesOne(s: BufState, n: nat) returns (g: BufState)
    requires Reading(s) && 0 < n && Logical(s) < |s.file.contents|
    ensures Reading(g) && Logical(g) == Logical(s) + 1 && g.file.contents == s.file.contents
    ensures GetN(s, n).state == GetN(g, n - 1).state
    ensures GetN(s, n).bytes == [s.file.contents[Logical(s)]] + GetN(g, n - 1).bytes
  {
    SbumpcReads(s);
    g := Sbumpc(s).state;
  }

  /** At the end of the file a reader gets nothing and stays where it is. */
  lemma GetNAtEnd(s: BufState, n: nat)
    requires Reading(s) && Logical(s) == |s.file.contents|
    ensures GetN(s, n) == Got(s, [])
  {
  }

  /** How many of n requested bytes a reader at the logical position can get. */
  function Available(s: BufState, n: nat): int {
    if Logical(s) + n <= |s.file.contents| then n else |s.file.contents| - Logical(s)
  }

  /** Taking n bytes leaves a reader Available(s, n) bytes further along the
      same file. */
  lemma {:induction false} GetNAdvances(s: BufState, n: nat)
    requires Reading(s)
    ensures 0 <= Available(s, n) && Logical(s) + Available(s, n) <= |s.file.contents|
    ensures Reading(GetN(s, n).state)
    ensures Logical(GetN(s, n).state) == Logical(s) + Available(s, n)
    ensures GetN(s, n).state.file.contents == s.file.contents
    decreases n
  {
    if n == 0 {
      assert GetN(s, n) == Got(s, []);
    } else if Logical(s) == |s.file.contents| {
      GetNAtEnd(s, n);
    } else {
      var g := GetNTakesOne(s, n);
      GetNAdvances(g, n - 1);
      assert Available(g, n - 1) == Available(s, n) - 1;
    }
  }

  /** Taking n bytes yields the next Available(s, n) bytes of the file. */
  lemma {:induction false} GetNReads(s: BufState, n: nat)
    requires Reading(s)
    ensures 0 <= Available(s, n) && Logical(s) + Available(s, n) <= |s.file.contents|
    ensures GetN(s, n).bytes == s.file.contents[Logical(s)..Logical(s) + Available(s, n)]
    decreases n
  {
    var c, L := s.file.contents, Logical(s);
    if n == 0 {
      assert GetN(s, n) == Got(s, []);
      assert c[L..L] == [];
    } else if L == |c| {
      GetNAtEnd(s, n);
      assert c[L..L] == [];
    } else {
      var g := GetNTakesOne(s, n);
      GetNReads(g, n - 1);
      ConsSlice(c, L, Available(s, n), GetN(g, n - 1).bytes, GetN(s, n).bytes);
    }
  }

  /** The first byte of a slice followed by the rest of it is the slice. */
  lemma ConsSlice(c: seq<Byte>, from: int, k: int, rest: seq<Byte>, whole: seq<Byte>)
    requires 0 <= from && 0 < k && from + k <= |c|
    requires rest == c[from + 1..from + k] && whole == [c[from]] + rest
    ensures whole == c[from..from + k]
  {
  }

  /** A freshly constructed buffer over a handle opened for reading at the
      start yields the whole file, and then eof. */
  lemma ReadsWholeFile(s: BufState)
    requires JustConstructed(s) && s.file.forReading && s.file.pos == 0
    ensures GetN(s, |s.file.contents|).bytes == s.file.contents
    ensures Sbumpc(GetN(s, |s.file.contents|).state).result == EOF
  {
    assert Reading(s);
    GetNReads(s, |s.file.contents|);
    GetNAdvances(s, |s.file.contents|);
    SbumpcReads(GetN(s, |s.file.contents|).state);
  }

  /** Bytes written through one buffer and flushed come back unchanged through
      a buffer over a handle that reads the written file from its start; one
      more read is eof. */
  lemma {:induction false} RoundTrip(w: BufState, data: seq<Byte>, rd: BufState)
    requires JustConstructed(w) && w.file.contents == [] && w.file.pos == 0
    requires !w.file.forReading && |data| <= w.file.room
    requires JustConstructed(rd) && rd.file.forReading && rd.file.pos == 0
    requires rd.file.contents == Sync(PutAll(w, data)).state.file.contents
    ensures GetN(rd, |data|).bytes == data
    ensures Sbumpc(GetN(rd, |data|).state).result == EOF
  {
    WrittenBytesReachTheFile(w, data);
    assert rd.file.contents == data;
    ReadsWholeFile(rd);
  }

  // ---------------------------------------------------------------- seeking

  /** seekoff(0, cur, in) reports the logical position, not the handle's, and
      leaves a reader at that same position with an empty get area. */
  lemma TellIsLogicalPosition(s: BufState)
    requires Reading(s)
    ensures var r := SeekOff(s, 0, Cur, OpenMode(true, false));
      && r.result == Logical(s)
      && Reading(r.state) && Logical(r.state) == Logical(s) && r.state.Unread() == 0
  {
  }

  /** seekoff(0, end, in) moves to the end of the file, where reading yields eof. */
  lemma SeekToEndThenEof(s: BufState)
    requires s.Valid() && s.file.forReading
    ensures var r := SeekOff(s, 0, End, OpenMode(true, false));
      r.result == |s.file.contents| && Sbumpc(r.state) == Step(r.state, EOF)
  {
  }

  /** A seek with the out bit drops the pending bytes without writing them:
      the handle's bytes are unchanged and a sync afterwards writes nothing. */
  lemma SeekOutDropsPending(s: BufState, off: int, dir: SeekDir)
    requires s.Valid()
    ensures var r := SeekOff(s, off, dir, OpenMode(false, true));
      && r.state.file.contents == s.file.contents
      && r.state.Pending() == []
      && Sync(r.state).state.file.contents == s.file.contents
  {
  }

  /** The write-side counterpart of TellIsLogicalPosition does not hold: on an
      appending stream with pending bytes, seekoff(0, cur, out) (what tellp
      calls) reports the handle's position, short of the bytes written, and
      those bytes are lost. */
  lemma TellpLosesPendingOutput(s: BufState, written: seq<Byte>)
    requires Appending(s, written) && s.pbase < s.pptr
    ensures var r := SeekOff(s, 0, Cur, OpenMode(false, true));
      && r.result == |written| - |s.Pending()| < |written|
      && r.state.file.contents + r.state.Pending() != written
  {
  }

  /** seekoff as std::basic_filebuf specifies it for the out bit: pending bytes
      are written before the handle moves, and a failed write makes the seek
      fail with pos_type(-1) without moving. */
  function SeekOffFlushing(s: BufState, off: int, dir: SeekDir, mode: OpenMode): (r: Step)
    requires s.Valid()
    ensures r.state.Valid()
    ensures !mode.output || s.pbase == s.pptr ==> r == SeekOff(s, off, dir, mode)
    ensures mode.output && Flush(s).result != 0 ==> r == Step(s.(file := Flush(s).file), -1)
    ensures mode.output && Flush(s).result == 0 ==>
      r == SeekOff(s.(pbase := 0, pptr := 0, file := Flush(s).file), off, dir, mode)
  {
    if !mode.output || s.pbase == s.pptr then SeekOff(s, off, dir, mode)
    else
      var f := Flush(s);
      if f.result < 0 then Step(s.(file := f.file), -1)
      else SeekOff(s.(pbase := 0, pptr := 0, file := f.file), off, dir, mode)
  }

  /** With the flush in place, tellp on an appending stream reports the number
      of bytes written so far, and all of them are in the handle. */
  lemma TellpKeepsPendingOutput(s: BufState, written: seq<Byte>)
    requires Appending(s, written) && s.pptr <= s.file.room
    ensures var r := SeekOffFlushing(s, 0, Cur, OpenMode(false, true));
      && r.result == |written|
      && r.state.file.contents == written
      && r.state.Pending() == []
  {
  }
}
