/** Opening a handle by mode, and the handle-owning base of the stream classes
    (src/physfs.cpp:145-193, include/physfs.hpp:11-15). */
module FStream {
  import opened Handle

  /** PhysFS::mode. */
  datatype Mode = Read | Write | Append

  /** The std::invalid_argument the source throws, with its message. */
  datatype Error = InvalidArgument(message: string)

  datatype Result<T> = Ok(value: T) | Err(error: Error)

  /** A call into the library's open functions. */
  datatype OpenCall = OpenRead(name: string) | OpenWrite(name: string) | OpenAppend(name: string)

  /** The library call each mode selects. */
  function CallFor(openMode: Mode, filename: string): OpenCall {
    match openMode
    case Write => OpenWrite(filename)
    case Append => OpenAppend(filename)
    case Read => OpenRead(filename)
  }

  /** The library side of opening: the files visible through the search path,
      whether a write directory is set, and how many bytes a new writable handle
      may still write. `calls` records every open call made. */
  class Vfs {
    var files: map<string, seq<Byte>>
    var hasWriteDir: bool
    var room: nat
    ghost var calls: seq<OpenCall>

    constructor (files: map<string, seq<Byte>>, hasWriteDir: bool, room: nat)
      ensures this.files == files && this.hasWriteDir == hasWriteDir && this.room == room
      ensures calls == []
    {
      this.files := files;
      this.hasWriteDir := hasWriteDir;
      this.room := room;
      calls := [];
    }

    /** PHYSFS_openRead: null when the file is not found. */
    method OpenReadFile(name: string) returns (f: File?)
      modifies this`calls
      ensures calls == old(calls) + [OpenRead(name)]
      ensures (f == null) == (name !in files)
      ensures f != null ==> fresh(f) && f.Valid() && f.isOpen
      ensures f != null ==> f.State() == HandleState(files[name], 0, true, 0)
    {
      calls := calls + [OpenRead(name)];
      if name !in files {
        return null;
      }
      f := new File(files[name], 0, true, 0);
    }

    /** PHYSFS_openWrite: null without a write directory; otherwise the file
        is created or truncated. */
    method OpenWriteFile(name: string) returns (f: File?)
      modifies this`calls, this`files
      ensures calls == old(calls) + [OpenWrite(name)]
      ensures (f == null) == !hasWriteDir
      ensures f == null ==> files == old(files)
      ensures f != null ==> files == old(files)[name := []]
      ensures f != null ==> fresh(f) && f.Valid() && f.isOpen
      ensures f != null ==> f.State() == HandleState([], 0, false, room)
    {
      calls := calls + [OpenWrite(name)];
      if !hasWriteDir {
        return null;
      }
      files := files[name := []];
      f := new File([], 0, false, room);
    }

    /** PHYSFS_openAppend: null without a write directory; otherwise the file
        is created if missing and the handle starts at its end. */
    method OpenAppendFile(name: string) returns (f: File?)
      modifies this`calls, this`files
      ensures calls == old(calls) + [OpenAppend(name)]
      ensures (f == null) == !hasWriteDir
      ensures f == null ==> files == old(files)
      ensures f != null ==> name in files && files == old(files)[name := files[name]]
      ensures f != null && name in old(files) ==> files[name] == old(files)[name]
      ensures f != null && name !in old(files) ==> files[name] == []
      ensures f != null ==> fresh(f) && f.Valid() && f.isOpen
      ensures f != null ==> f.State() == HandleState(files[name], |files[name]|, false, room)
    {
      calls := calls + [OpenAppend(name)];
      if !hasWriteDir {
        return null;
      }
      var existing := if name in files then files[name] else [];
      files := files[name := existing];
      f := new File(existing, |existing|, false, room);
    }
  }

  /** openWithMode: make exactly the open call the mode selects; a null handle
      becomes an invalid_argument naming the file. */
  method OpenWithMode(vfs: Vfs, filename: string, openMode: Mode) returns (r: Result<File>)
    modifies vfs`calls, vfs`files
    ensures vfs.calls == old(vfs.calls) + [CallFor(openMode, filename)]
    ensures openMode == Read ==> (r.Ok? <==> filename in old(vfs.files)) && vfs.files == old(vfs.files)
    ensures openMode != Read ==> (r.Ok? <==> vfs.hasWriteDir)
    ensures r.Err? ==> r.error == InvalidArgument("file not found: " + filename)
    ensures r.Err? ==> vfs.files == old(vfs.files)
    ensures r.Ok? ==> fresh(r.value) && r.value.Valid() && r.value.isOpen
    ensures r.Ok? && openMode == Read ==> r.value.State() == HandleState(old(vfs.files)[filename], 0, true, 0)
    ensures r.Ok? && openMode == Write ==> r.value.State() == HandleState([], 0, false, vfs.room)
    ensures r.Ok? && openMode == Write ==> vfs.files == old(vfs.files)[filename := []]
    ensures r.Ok? && openMode == Append ==>
      var old_contents := if filename in old(vfs.files) then old(vfs.files)[filename] else [];
      && r.value.State() == HandleState(old_contents, |old_contents|, false, vfs.room)
      && vfs.files == old(vfs.files)[filename := old_contents]
  {
    var file: File? := null;
    match openMode {
      case Write =>
        file := vfs.OpenWriteFile(filename);
      case Append =>
        file := vfs.OpenAppendFile(filename);
      case Read =>
        file := vfs.OpenReadFile(filename);
    }
    if file == null {
      return Err(InvalidArgument("file not found: " + filename));
    }
    return Ok(file);
  }

  /** base_fstream: owns the handle of a stream until it is closed. */
  class BaseFStream {
    var file: File?

    constructor Own(file: File)
      ensures this.file == file
    {
      this.file := file;
    }

    /** base_fstream(file): a null handle is rejected with invalid_argument. */
    static method Create(file: File?) returns (r: Result<BaseFStream>)
      ensures r.Err? <==> file == null
      ensures r.Err? ==> r.error == InvalidArgument("attempted to construct fstream with NULL ptr")
      ensures r.Ok? ==> fresh(r.value) && r.value.file == file
    {
      if file == null {
        return Err(InvalidArgument("attempted to construct fstream with NULL ptr"));
      }
      var stream := new BaseFStream.Own(file);
      return Ok(stream);
    }

    /** close: release the handle if there is one, then forget it; closing
        again changes nothing. */
    method Close()
      requires file != null ==> file.isOpen
      modifies this, file
      ensures file == null
      ensures old(file) != null ==> !old(file).isOpen && old(file).State() == old(file.State())
      ensures old(file) == null ==> unchanged(this)
    {
      if file != null {
        file.Close();
        file := null;
      }
    }
  }
}
