/** The per-process descriptor table of userprog/syscall.c (newfile, getfile,
    byefile) and the descriptor-based system calls built on it (open,
    filesize, read, write, seek, tell, close). The file system itself is
    outside the model: its objects are opaque identifiers, the results of
    its primitives are parameters, and every call made into it is logged
    so that contracts can say which calls happen, in which order, and that
    each happens while filesys_lock is held. */
module DescriptorTable {
  import opened SyscallDefs

  /** An open file object (struct file *) owned by the file system. */
  type FileId = nat

  /** Descriptors that read and write serve from the console. */
  const STDIN_FILENO: int := 0
  const STDOUT_FILENO: int := 1

  /** struct process_file: one descriptor and the file it names. */
  datatype ProcessFile = ProcessFile(file: FileId, fd: int)

  /** A call into the file system. Names and buffers are the kernel
      addresses passed to it. */
  datatype FsCall =
    | FilesysCreate(name: u32, initialSize: u32)
    | FilesysRemove(name: u32)
    | FilesysOpen(name: u32)
    | FileLength(file: FileId)
    | FileRead(file: FileId, buffer: u32, size: u32)
    | FileWrite(file: FileId, buffer: u32, size: u32)
    | FileSeek(file: FileId, position: u32)
    | FileTell(file: FileId)
    | FileClose(file: FileId)

  /** The shared file system as this layer sees it: the global
      filesys_lock and the calls made into it so far. */
  class FileSystem {
    var lockHeld: bool
    var calls: seq<FsCall>

    constructor ()
      ensures !lockHeld && calls == []
    {
      lockHeld := false;
      calls := [];
    }

    /** lock_acquire(&filesys_lock); the lock is not re-entrant. */
    method Acquire()
      requires !lockHeld
      modifies this
      ensures lockHeld && calls == old(calls)
    {
      lockHeld := true;
    }

    /** lock_release(&filesys_lock). */
    method Release()
      requires lockHeld
      modifies this
      ensures !lockHeld && calls == old(calls)
    {
      lockHeld := false;
    }

    /** One call into the file system, made only under the lock. */
    method Call(c: FsCall)
      requires lockHeld
      modifies this
      ensures lockHeld && calls == old(calls) + [c]
    {
      calls := calls + [c];
    }
  }

  /** The bytes of kernel virtual memory that system calls write into. */
  class KernelMemory {
    var bytes: map<u32, byte>

    constructor (initial: map<u32, byte>)
      ensures bytes == initial
    {
      bytes := initial;
    }
  }

  // ---------------------------------------------------------------------
  // The table as a sequence
  // ---------------------------------------------------------------------

  /** Descriptors appear in strictly increasing order, so each at most once. */
  predicate Ascending(files: seq<ProcessFile>) {
    forall i, j :: 0 <= i < j < |files| ==> files[i].fd < files[j].fd
  }

  /** Descriptors ascend and all lie below the counter, so the next
      descriptor handed out is new. */
  predicate TableOk(files: seq<ProcessFile>, fdCounter: int) {
    Ascending(files) && forall i :: 0 <= i < |files| ==> files[i].fd < fdCounter
  }

  /** Position of the first entry for fd, or |files| when there is none. */
  function FdIndex(files: seq<ProcessFile>, fd: int): (k: nat)
    ensures k <= |files|
    ensures forall j :: 0 <= j < k ==> files[j].fd != fd
    ensures k < |files| ==> files[k].fd == fd
  {
    FindFirst(files, (pf: ProcessFile) => pf.fd == fd)
  }

  /** getfile: the file of the first entry whose descriptor is fd, or None
      (NULL) when no entry has it. */
  function GetFile(files: seq<ProcessFile>, fd: int): (r: Option<FileId>)
    ensures r.None? <==> forall i :: 0 <= i < |files| ==> files[i].fd != fd
    ensures r.Some? ==> ProcessFile(r.value, fd) in files
  {
    var k := FdIndex(files, fd);
    if k < |files| then Some(files[k].file) else None
  }

  /** byefile for a descriptor other than CLOSE_ALL: the table without its
      first entry for fd, or unchanged when fd is unknown. */
  function RemoveFirst(files: seq<ProcessFile>, fd: int): seq<ProcessFile> {
    var k := FdIndex(files, fd);
    if k < |files| then RemoveAt(files, k) else files
  }

  /** The table byefile(fd) leaves behind. */
  function Remaining(files: seq<ProcessFile>, fd: int): seq<ProcessFile> {
    if fd == CLOSE_ALL then [] else RemoveFirst(files, fd)
  }

  /** The files byefile(fd) hands to file_close, in the order it does. */
  function Released(files: seq<ProcessFile>, fd: int): seq<FileId> {
    if fd == CLOSE_ALL then FilesOf(files)
    else
      var k := FdIndex(files, fd);
      if k < |files| then [files[k].file] else []
  }

  function FilesOf(files: seq<ProcessFile>): (r: seq<FileId>)
    ensures |r| == |files| && forall i :: 0 <= i < |files| ==> r[i] == files[i].file
  {
    if files == [] then [] else [files[0].file] + FilesOf(files[1..])
  }

  function CloseCalls(fs: seq<FileId>): (r: seq<FsCall>)
    ensures |r| == |fs| && forall i :: 0 <= i < |fs| ==> r[i] == FileClose(fs[i])
  {
    if fs == [] then [] else [FileClose(fs[0])] + CloseCalls(fs[1..])
  }

  lemma {:induction false} FilesOfAppend(files: seq<ProcessFile>, pf: ProcessFile)
    ensures FilesOf(files + [pf]) == FilesOf(files) + [pf.file]
  {
  }

  lemma {:induction false} CloseCallsAppend(fs: seq<FileId>, f: FileId)
    ensures CloseCalls(fs + [f]) == CloseCalls(fs) + [FileClose(f)]
  {
  }

  /** byefile keeps the table ordered and below the counter. */
  lemma {:induction false} RemainingTableOk(files: seq<ProcessFile>, fd: int, fdCounter: int)
    requires TableOk(files, fdCounter)
    ensures TableOk(Remaining(files, fd), fdCounter)
  {
    var k := FdIndex(files, fd);
    if fd != CLOSE_ALL && k < |files| {
      var r := RemoveAt(files, k);
      forall i, j | 0 <= i < j < |r| ensures r[i].fd < r[j].fd {
        var i' := if i < k then i else i + 1;
        var j' := if j < k then j else j + 1;
        assert r[i] == files[i'] && r[j] == files[j'];
      }
      forall i | 0 <= i < |r| ensures r[i].fd < fdCounter {
        if i < k { assert r[i] == files[i]; } else { assert r[i] == files[i + 1]; }
      }
    }
  }

  /** Every entry byefile removes is one whose file it closes: the table
      before the call is the table after it together with the released
      files, and none is dropped without a file_close. */
  lemma {:induction false} ReleasedAccounts(files: seq<ProcessFile>, fd: int)
    ensures |Remaining(files, fd)| + |Released(files, fd)| == |files|
    ensures fd != CLOSE_ALL && GetFile(files, fd).Some? ==> Released(files, fd) == [GetFile(files, fd).value]
    ensures fd != CLOSE_ALL && GetFile(files, fd).None? ==> Released(files, fd) == [] && Remaining(files, fd) == files
  {
  }

  /** After closing a descriptor, a table with distinct descriptors no longer
      knows it, and every other descriptor still names the same file. */
  lemma {:induction false} GetFileAfterClose(files: seq<ProcessFile>, fd: int, other: int)
    requires Ascending(files)
    requires fd != CLOSE_ALL
    ensures GetFile(Remaining(files, fd), fd).None?
    ensures other != fd ==> GetFile(Remaining(files, fd), other) == GetFile(files, other)
  {
    var k := FdIndex(files, fd);
    if k < |files| {
      var r := RemoveAt(files, k);
      forall i | 0 <= i < |r| ensures r[i].fd != fd {
        if i < k { assert r[i] == files[i]; } else { assert r[i] == files[i + 1]; }
      }
      if other != fd {
        FindFirstAfterRemoval(files, (pf: ProcessFile) => pf.fd == fd, (pf: ProcessFile) => pf.fd == other);
      }
    }
  }

  /** After byefile(CLOSE_ALL) — and so after a user's close(-1) — no
      descriptor names a file. */
  lemma CloseAllForgetsAll(files: seq<ProcessFile>, fd: int)
    ensures GetFile(Remaining(files, CLOSE_ALL), fd).None?
    ensures Released(files, CLOSE_ALL) == FilesOf(files)
  {
  }

  /** The step of byefile that finds the first entry for a plain
      descriptor: removing it is all byefile does. */
  lemma ByeFirstMatch(files: seq<ProcessFile>, fd: int, i: nat)
    requires i < |files| && files[i].fd == fd && fd != CLOSE_ALL
    requires forall k :: 0 <= k < i ==> files[k].fd != fd
    ensures Remaining(files, fd) == RemoveAt(files, i)
    ensures CloseCalls(Released(files, fd)) == [FileClose(files[i].file)]
  {
    assert FdIndex(files, fd) == i;
  }

  /** One step of byefile(CLOSE_ALL): the entry at the front of what is
      left is closed and unlinked. */
  lemma {:induction false} ByeAllStep(files: seq<ProcessFile>, j: nat)
    requires j < |files|
    ensures RemoveAt(files[j..], 0) == files[j + 1..]
    ensures CloseCalls(FilesOf(files[..j + 1])) == CloseCalls(FilesOf(files[..j])) + [FileClose(files[j].file)]
  {
    assert files[..j + 1] == files[..j] + [files[j]];
    FilesOfAppend(files[..j], files[j]);
    CloseCallsAppend(FilesOf(files[..j]), files[j].file);
  }

  /** The end of byefile's walk: CLOSE_ALL has closed every entry, and a
      plain descriptor that was never found leaves the table as it was. */
  lemma ByeDone(files: seq<ProcessFile>, fd: int, j: nat)
    requires j == |files|
    requires fd != CLOSE_ALL ==> forall k :: 0 <= k < j ==> files[k].fd != fd
    ensures fd == CLOSE_ALL ==> files[..j] == files
    ensures fd != CLOSE_ALL ==> Remaining(files, fd) == files && Released(files, fd) == []
  {
    assert fd != CLOSE_ALL ==> FdIndex(files, fd) == |files|;
  }

  // ---------------------------------------------------------------------
  // The table of the current thread
  // ---------------------------------------------------------------------

  /** The descriptor fields of the current thread: the next descriptor
      (thread_current()->fd) and the list of open files. */
  class FileTable {
    var fdCounter: int
    var files: seq<ProcessFile>

    ghost predicate Valid()
      reads this
    {
      TableOk(files, fdCounter)
    }

    /** An empty table whose first descriptor is firstFd (set by the thread
        code, which is not part of this model). */
    constructor (firstFd: int)
      ensures Valid() && fdCounter == firstFd && files == []
    {
      fdCounter := firstFd;
      files := [];
    }

    /** newfile: hands out the current counter value as the descriptor of f,
        advances the counter by one and appends the entry at the end. */
    method NewFile(f: FileId) returns (fd: int)
      requires Valid()
      modifies this
      ensures Valid()
      ensures fd == old(fdCounter) && fdCounter == old(fdCounter) + 1
      ensures files == old(files) + [ProcessFile(f, fd)]
      ensures forall i :: 0 <= i < |old(files)| ==> old(files)[i].fd < fd
      ensures GetFile(files, fd) == Some(f)
    {
      fd := fdCounter;
      fdCounter := fdCounter + 1;
      files := files + [ProcessFile(f, fd)];
      assert files[|files| - 1].fd == fd;
      assert forall i :: 0 <= i < |files| - 1 ==> files[i].fd != fd;
      assert FdIndex(files, fd) == |files| - 1;
    }

    /** byefile: walks the list; an entry whose descriptor is fd, or every
        entry when fd is CLOSE_ALL, has its file closed and is unlinked, and
        for a plain descriptor the walk stops there. The counter is kept. */
    method ByeFile(fs: FileSystem, fd: int)
      requires fs.lockHeld
      modifies this, fs
      ensures fs.lockHeld
      ensures fdCounter == old(fdCounter)
      ensures files == Remaining(old(files), fd)
      ensures fs.calls == old(fs.calls) + CloseCalls(Released(old(files), fd))
    {
      ghost var orig := files;
      var i := 0;
      ghost var j := 0;
      while i < |files|
        invariant 0 <= i <= j <= |orig|
        invariant fs.lockHeld && fdCounter == old(fdCounter)
        invariant fd != CLOSE_ALL ==>
          i == j && files == orig && fs.calls == old(fs.calls) &&
          forall k :: 0 <= k < i ==> orig[k].fd != fd
        invariant fd == CLOSE_ALL ==>
          i == 0 && files == orig[j..] && fs.calls == old(fs.calls) + CloseCalls(FilesOf(orig[..j]))
        decreases |files| - i
      {
        var pf := files[i];
        if fd == pf.fd || fd == CLOSE_ALL {
          fs.Call(FileClose(pf.file));
          files := RemoveAt(files, i);
          if fd != CLOSE_ALL {
            ByeFirstMatch(orig, fd, i);
            return;
          }
          ByeAllStep(orig, j);
          j := j + 1;
        } else {
          i := i + 1;
          j := j + 1;
        }
      }
      ByeDone(orig, fd, j);
    }

    // -------------------------------------------------------------------
    // Descriptor-based system calls
    // -------------------------------------------------------------------

    /** open: under the lock, asks the file system for the file named at
        kernel address name; `openResult` is what filesys_open returned. On
        failure the result is ERROR and the table is untouched; otherwise
        the file gets the next descriptor. */
    method Open(fs: FileSystem, name: u32, openResult: Option<FileId>) returns (r: int)
      requires Valid() && !fs.lockHeld
      modifies this, fs
      ensures Valid() && !fs.lockHeld
      ensures fs.calls == old(fs.calls) + [FilesysOpen(name)]
      ensures openResult.None? ==> r == ERROR && fdCounter == old(fdCounter) && files == old(files)
      ensures openResult.Some? ==>
        r == old(fdCounter) && fdCounter == old(fdCounter) + 1 &&
        files == old(files) + [ProcessFile(openResult.value, r)] &&
        GetFile(files, r) == openResult
    {
      fs.Acquire();
      fs.Call(FilesysOpen(name));
      if openResult.None? {
        fs.Release();
        return ERROR;
      }
      r := NewFile(openResult.value);
      fs.Release();
    }

    /** filesize: ERROR for an unknown descriptor, otherwise what
        file_length reported (`length`). */
    method FileSize(fs: FileSystem, fd: int, length: i32) returns (r: int)
      requires !fs.lockHeld
      modifies fs
      ensures !fs.lockHeld
      ensures GetFile(files, fd).None? ==> r == ERROR && fs.calls == old(fs.calls)
      ensures GetFile(files, fd).Some? ==>
        r == length && fs.calls == old(fs.calls) + [FileLength(GetFile(files, fd).value)]
    {
      fs.Acquire();
      var f := GetFile(files, fd);
      if f.None? {
        fs.Release();
        return ERROR;
      }
      fs.Call(FileLength(f.value));
      r := length;
      fs.Release();
    }

    /** read: descriptor 0 fills the buffer from the console without taking
        the lock and returns size; otherwise ERROR for an unknown descriptor,
        or what file_read reported (`bytesRead`). file_read may store into
        the size bytes of the buffer, and into nothing else; what it stores
        is the file system's, and is left open here. */
    method Read(fs: FileSystem, mem: KernelMemory, fd: int, buffer: u32, size: u32,
                console: nat -> byte, bytesRead: i32) returns (r: int)
      requires !fs.lockHeld
      modifies fs, mem
      ensures !fs.lockHeld
      ensures fd == STDIN_FILENO ==>
        r == ToI32(size) && fs.calls == old(fs.calls) &&
        ConsoleFilled(old(mem.bytes), mem.bytes, buffer, size, console)
      ensures fd != STDIN_FILENO && GetFile(files, fd).None? ==>
        r == ERROR && fs.calls == old(fs.calls) && mem.bytes == old(mem.bytes)
      ensures fd != STDIN_FILENO && GetFile(files, fd).Some? ==>
        r == bytesRead && fs.calls == old(fs.calls) + [FileRead(GetFile(files, fd).value, buffer, size)] &&
        OutsideKept(old(mem.bytes), mem.bytes, buffer, size)
    {
      if fd == STDIN_FILENO {
        ReadConsole(mem, buffer, size, console);
        return ToI32(size);
      }
      fs.Acquire();
      var f := GetFile(files, fd);
      if f.None? {
        fs.Release();
        return ERROR;
      }
      fs.Call(FileRead(f.value, buffer, size));
      r := bytesRead;
      fs.Release();
    }

    /** write: descriptor 1 goes to the console without taking the lock and
        returns size; otherwise ERROR for an unknown descriptor, or what
        file_write reported (`bytesWritten`). */
    method Write(fs: FileSystem, fd: int, buffer: u32, size: u32, bytesWritten: i32) returns (r: int)
      requires !fs.lockHeld
      modifies fs
      ensures !fs.lockHeld
      ensures fd == STDOUT_FILENO ==> r == ToI32(size) && fs.calls == old(fs.calls)
      ensures fd != STDOUT_FILENO && GetFile(files, fd).None? ==>
        r == ERROR && fs.calls == old(fs.calls)
      ensures fd != STDOUT_FILENO && GetFile(files, fd).Some? ==>
        r == bytesWritten && fs.calls == old(fs.calls) + [FileWrite(GetFile(files, fd).value, buffer, size)]
    {
      if fd == STDOUT_FILENO {
        return ToI32(size);
      }
      fs.Acquire();
      var f := GetFile(files, fd);
      if f.None? {
        fs.Release();
        return ERROR;
      }
      fs.Call(FileWrite(f.value, buffer, size));
      r := bytesWritten;
      fs.Release();
    }

    /** seek: moves the file's position; an unknown descriptor does nothing. */
    method Seek(fs: FileSystem, fd: int, position: u32)
      requires !fs.lockHeld
      modifies fs
      ensures !fs.lockHeld
      ensures GetFile(files, fd).None? ==> fs.calls == old(fs.calls)
      ensures GetFile(files, fd).Some? ==>
        fs.calls == old(fs.calls) + [FileSeek(GetFile(files, fd).value, position)]
    {
      fs.Acquire();
      var f := GetFile(files, fd);
      if f.None? {
        fs.Release();
        return;
      }
      fs.Call(FileSeek(f.value, position));
      fs.Release();
    }

    /** tell: the position file_tell reported (`position`), or ERROR for an
        unknown descriptor, both returned as unsigned. */
    method Tell(fs: FileSystem, fd: int, position: i32) returns (r: u32)
      requires !fs.lockHeld
      modifies fs
      ensures !fs.lockHeld
      ensures GetFile(files, fd).None? ==> r == ToU32(ERROR) && fs.calls == old(fs.calls)
      ensures GetFile(files, fd).Some? ==>
        r == ToU32(position) && fs.calls == old(fs.calls) + [FileTell(GetFile(files, fd).value)]
    {
      fs.Acquire();
      var f := GetFile(files, fd);
      if f.None? {
        fs.Release();
        return ToU32(ERROR);
      }
      fs.Call(FileTell(f.value));
      r := ToU32(position);
      fs.Release();
    }

    /** close: byefile(fd) under the lock. Since CLOSE_ALL is ERROR (-1), a
        user's close(-1) closes every descriptor. */
    method Close(fs: FileSystem, fd: int)
      requires Valid() && !fs.lockHeld
      modifies this, fs
      ensures Valid() && !fs.lockHeld
      ensures fdCounter == old(fdCounter)
      ensures files == Remaining(old(files), fd)
      ensures fs.calls == old(fs.calls) + CloseCalls(Released(old(files), fd))
    {
      RemainingTableOk(files, fd, fdCounter);
      fs.Acquire();
      ByeFile(fs, fd);
      fs.Release();
    }
  }

  // ---------------------------------------------------------------------
  // The console branch of read
  // ---------------------------------------------------------------------

  /** Distance from b up to a, modulo the word size: a is byte
      Offset(b, a) of a buffer starting at b. */
  function Offset(b: u32, a: u32): u32 {
    ToU32(a - b)
  }

  /** Every byte of kernel memory outside the size bytes of the buffer is
      as it was. */
  ghost predicate OutsideKept(before: map<u32, byte>, after: map<u32, byte>, buffer: u32, size: nat) {
    forall a :: Offset(buffer, a) >= size ==>
      (a in after <==> a in before) && (a in before ==> after[a] == before[a])
  }

  /** The console branch of read has stored console key i at byte i of the
      buffer, for i < size, and left every other byte as it was. */
  ghost predicate ConsoleFilled(before: map<u32, byte>, after: map<u32, byte>, buffer: u32, size: nat,
                                console: nat -> byte)
  {
    (forall a :: Offset(buffer, a) < size ==> a in after && after[a] == console(Offset(buffer, a))) &&
    OutsideKept(before, after, buffer, size)
  }

  lemma OffsetStep(b: u32, a: u32, i: nat)
    requires i < WORD_MODULUS
    ensures Offset(b, a) == i <==> a == ToU32(b + i)
  {
    if b + i < WORD_MODULUS {
      assert ToU32(b + i) == b + i;
    } else {
      assert ToU32(b + i) == b + i - WORD_MODULUS;
    }
    if a >= b {
      assert Offset(b, a) == a - b;
    } else {
      assert Offset(b, a) == a - b + WORD_MODULUS;
    }
  }

  /** The loop of read's console branch: local_buffer[i] = input_getc() for
      i = 0, 1, ..., size-1, with the keys taken from `console` in order. */
  method ReadConsole(mem: KernelMemory, buffer: u32, size: u32, console: nat -> byte)
    modifies mem
    ensures ConsoleFilled(old(mem.bytes), mem.bytes, buffer, size, console)
  {
    var i: nat := 0;
    while i < size
      invariant i <= size
      invariant ConsoleFilled(old(mem.bytes), mem.bytes, buffer, i, console)
    {
      var a := ToU32(buffer + i);
      forall x: u32 ensures Offset(buffer, x) == i <==> x == a {
        OffsetStep(buffer, x, i);
      }
      mem.bytes := mem.bytes[a := console(i)];
      i := i + 1;
    }
  }
}
