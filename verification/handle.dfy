/** An abstract PhysicsFS file handle (the library's PHYSFS_File).
    The handle is owned by the library, not by the adapter: this module only
    gives it enough behaviour to state what the adapter does with it. A handle
    is a byte sequence with a position; it is opened either for reading or for
    writing (PhysicsFS never opens a handle for both), and a writable handle
    accepts at most `room` more bytes, after which writes come up short. */
module Handle {

  /** An unsigned char. */
  newtype Byte = b: int | 0 <= b < 256

  datatype HandleState = HandleState(contents: seq<Byte>, pos: nat, forReading: bool, room: nat)
  {
    ghost predicate Valid() { pos <= |contents| }
  }

  /** PHYSFS_eof: only a handle opened for reading reaches end-of-file. */
  predicate IsEof(h: HandleState): (b: bool)
    ensures b ==> h.forReading
    ensures h.Valid() ==> (b <==> h.forReading && h.pos == |h.contents|)
  {
    h.forReading && h.pos >= |h.contents|
  }

  /** `s` with the bytes from `p` on overwritten by `d` (and extended if `d` runs past the end). */
  function Splice(s: seq<Byte>, p: nat, d: seq<Byte>): (r: seq<Byte>)
    requires p <= |s|
    ensures |r| == if p + |d| <= |s| then |s| else p + |d|
    ensures r[..p] == s[..p] && r[p..p + |d|] == d
    ensures p + |d| <= |s| ==> r[p + |d|..] == s[p + |d|..]
  {
    s[..p] + d + if p + |d| <= |s| then s[p + |d|..] else []
  }

  datatype ReadOutcome = ReadOutcome(handle: HandleState, count: int, data: seq<Byte>)

  /** PHYSFS_readBytes(h, buf, n): -1 on a handle opened for writing; otherwise
      the next min(n, remaining) bytes, advancing the position past them. */
  function Read(h: HandleState, n: nat): (r: ReadOutcome)
    requires h.Valid()
    ensures r.handle.Valid()
    ensures !h.forReading ==> r == ReadOutcome(h, -1, [])
    ensures h.forReading ==> r.count == |r.data| <= n
    ensures h.forReading ==> r.handle == h.(pos := h.pos + |r.data|)
    ensures h.forReading ==> r.data == h.contents[h.pos..h.pos + |r.data|]
    ensures h.forReading ==> (|r.data| < n <==> |h.contents| < h.pos + n)
    ensures h.forReading ==> |r.data| == if h.pos + n <= |h.contents| then n else |h.contents| - h.pos
  {
    if !h.forReading then ReadOutcome(h, -1, [])
    else
      var k := if h.pos + n <= |h.contents| then n else |h.contents| - h.pos;
      ReadOutcome(h.(pos := h.pos + k), k, h.contents[h.pos..h.pos + k])
  }

  datatype WriteOutcome = WriteOutcome(handle: HandleState, count: int)

  /** PHYSFS_writeBytes(h, d, |d|): -1 on a handle opened for reading; otherwise
      as many bytes of `d` as there is room for, written at the position. */
  function Write(h: HandleState, d: seq<Byte>): (r: WriteOutcome)
    requires h.Valid()
    ensures r.handle.Valid()
    ensures h.forReading ==> r == WriteOutcome(h, -1)
    ensures !h.forReading ==> 0 <= r.count <= |d| && r.count <= h.room && (r.count < |d| <==> h.room < |d|)
    ensures !h.forReading ==> r.count == if |d| <= h.room then |d| else h.room
    ensures !h.forReading ==>
      r.handle == h.(contents := Splice(h.contents, h.pos, d[..r.count]),
                     pos := h.pos + r.count, room := h.room - r.count)
  {
    if h.forReading then WriteOutcome(h, -1)
    else
      var k := if |d| <= h.room then |d| else h.room;
      WriteOutcome(h.(contents := Splice(h.contents, h.pos, d[..k]), pos := h.pos + k, room := h.room - k), k)
  }

  /** PHYSFS_seek(h, t): moves to `t` when it lies in [0, length]. A negative
      target reaches the library as a huge unsigned offset and fails too. */
  function SeekTo(h: HandleState, t: int): (r: HandleState)
    requires h.Valid()
    ensures r.Valid()
    ensures 0 <= t <= |h.contents| ==> r == h.(pos := t)
    ensures !(0 <= t <= |h.contents|) ==> r == h
  {
    if 0 <= t <= |h.contents| then h.(pos := t) else h
  }

  /** A handle object, as the adapter sees it through a PHYSFS_File pointer. */
  class File {
    var contents: seq<Byte>
    var pos: nat
    const forReading: bool
    var room: nat
    var isOpen: bool

    ghost predicate Valid()
      reads this
    {
      pos <= |contents|
    }

    function State(): HandleState
      reads this
    {
      HandleState(contents, pos, forReading, room)
    }

    constructor (contents: seq<Byte>, pos: nat, forReading: bool, room: nat)
      requires pos <= |contents|
      ensures Valid() && isOpen
      ensures State() == HandleState(contents, pos, forReading, room)
    {
      this.contents := contents;
      this.pos := pos;
      this.forReading := forReading;
      this.room := room;
      this.isOpen := true;
    }

    /** PHYSFS_eof on this handle. */
    predicate Eof(): (b: bool)
      requires Valid()
      reads this
      ensures b <==> forReading && pos == |contents|
    {
      IsEof(State())
    }

    /** PHYSFS_tell: the position, never negative on an open handle. */
    function Tell(): (r: int)
      reads this
      ensures 0 <= r && r == State().pos
    {
      pos
    }

    /** PHYSFS_fileLength: the number of bytes in the file. */
    function FileLength(): (r: int)
      reads this
      ensures 0 <= r && r == |State().contents|
    {
      |contents|
    }

    method ReadBytes(buf: array<Byte>, n: nat) returns (count: int)
      requires Valid() && isOpen && n <= buf.Length
      modifies this, buf
      ensures Valid() && isOpen
      ensures State() == Read(old(State()), n).handle && count == Read(old(State()), n).count
      ensures var data := Read(old(State()), n).data;
        buf[..|data|] == data && buf[|data|..] == old(buf[|data|..])
    {
      var r := Read(State(), n);
      forall i | 0 <= i < |r.data| {
        buf[i] := r.data[i];
      }
      pos := r.handle.pos;
      count := r.count;
    }

    method WriteBytes(buf: array<Byte>, from: nat, n: nat) returns (count: int)
      requires Valid() && isOpen && from + n <= buf.Length
      modifies this
      ensures Valid() && isOpen
      ensures State() == Write(old(State()), buf[from..from + n]).handle
      ensures count == Write(old(State()), buf[from..from + n]).count
    {
      var r := Write(State(), buf[from..from + n]);
      contents, pos, room := r.handle.contents, r.handle.pos, r.handle.room;
      count := r.count;
    }

    method Seek(t: int) returns (ok: bool)
      requires Valid() && isOpen
      modifies this
      ensures Valid() && isOpen
      ensures State() == SeekTo(old(State()), t)
      ensures ok == (0 <= t <= |contents|)
    {
      ok := 0 <= t <= |contents|;
      if ok {
        pos := t;
      }
    }

    method Close()
      requires isOpen
      modifies this
      ensures !isOpen && State() == old(State())
    {
      isOpen := false;
    }
  }
}
