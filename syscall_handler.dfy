/** The trap handler of userprog/syscall.c: syscall_handler, which checks the
    stack pointer, reads the system-call number and its argument words off
    the user stack, checks the pointers among them and calls the handler,
    plus the handlers not tied to a table (halt, exit, wait, create,
    remove). */
module SyscallDispatch {
  import opened SyscallDefs
  import opened PointerValidator
  import opened DescriptorTable
  import opened ChildRegistry

  /** System-call numbers (the pintos numbering of lib/syscall-nr.h). */
  const SYS_HALT: int := 0
  const SYS_EXIT: int := 1
  const SYS_EXEC: int := 2
  const SYS_WAIT: int := 3
  const SYS_CREATE: int := 4
  const SYS_REMOVE: int := 5
  const SYS_OPEN: int := 6
  const SYS_FILESIZE: int := 7
  const SYS_READ: int := 8
  const SYS_WRITE: int := 9
  const SYS_SEEK: int := 10
  const SYS_TELL: int := 11
  const SYS_CLOSE: int := 12

  /** Size of the handler's argument array. */
  const MAX_ARGS: nat := 3

  /** How a trap ends: the machine powers off, the process exits with a
      status, or the process resumes, with eax set to a new value or left
      as it was (None). */
  datatype Outcome = Halted | Exited(status: int) | Resumed(eax: Option<u32>)

  /** What the collaborators outside this layer answer: the pid
      process_execute returns, the caller's child list as exec's getchild
      then searches it (process_execute, running in the caller's thread,
      appends the record with newchild before it returns; the child then
      reports its load outcome into that record while exec spins), the
      status process_wait returns, the results
      of filesys_create, filesys_remove, filesys_open, file_length,
      file_read, file_write and file_tell, and the keys input_getc yields
      in order. */
  datatype Env = Env(
    execPid: int,
    execChildren: seq<ChildProcess>,
    waitStatus: int,
    created: bool,
    removed: bool,
    openResult: Option<FileId>,
    length: i32,
    bytesRead: i32,
    bytesWritten: i32,
    position: i32,
    console: nat -> byte)

  /** Number of argument words the handler reads for system call nr. */
  function ArgCount(nr: int): (n: nat)
    ensures n <= MAX_ARGS
  {
    if nr in {SYS_EXIT, SYS_EXEC, SYS_WAIT, SYS_REMOVE, SYS_OPEN, SYS_FILESIZE, SYS_TELL, SYS_CLOSE} then 1
    else if nr in {SYS_CREATE, SYS_SEEK} then 2
    else if nr in {SYS_READ, SYS_WRITE} then 3
    else 0
  }

  /** The system calls whose result the handler stores into eax. */
  predicate WritesEax(nr: int) {
    nr in {SYS_EXEC, SYS_WAIT, SYS_CREATE, SYS_REMOVE, SYS_OPEN, SYS_FILESIZE, SYS_READ, SYS_WRITE, SYS_TELL}
  }

  /** The system calls whose first argument is a path that UK_pointer
      translates. */
  predicate TakesPath(nr: int) {
    nr in {SYS_EXEC, SYS_CREATE, SYS_REMOVE, SYS_OPEN}
  }

  /** Argument word i as get_arg reads it. */
  function Arg(esp: u32, peek: u32 -> i32, i: nat): i32 {
    peek(ArgAddr(esp, i))
  }

  /** Slot i of the handler's argument array once get_arg is done: the word
      read for a slot the call uses, and 0 (the array's initial value here)
      for one it does not. */
  function Word(esp: u32, peek: u32 -> i32, i: nat): i32 {
    if i < ArgCount(peek(esp)) then Arg(esp, peek, i) else 0
  }

  /** A C bool stored into eax. */
  function BoolWord(b: bool): u32 {
    if b then 1 else 0
  }

  /** exit: when the parent is alive (parent non-null) the status goes into
      the caller's record in the parent's list; then the process ends. The
      termination message and thread_exit are outside the model. */
  method Exit(status: int, parent: ChildList?, cp: nat) returns (o: Outcome)
    requires parent != null ==> cp < |parent.children|
    modifies parent
    ensures o == Exited(status)
    ensures parent != null ==> parent.children == old(parent.children)[cp := old(parent.children)[cp].(status := status)]
  {
    if parent != null {
      parent.RecordStatus(cp, status);
    }
    o := Exited(status);
  }

  /** create: filesys_create under the lock; `ok` is its result. */
  method Create(fs: FileSystem, name: u32, initialSize: u32, ok: bool) returns (r: bool)
    requires !fs.lockHeld
    modifies fs
    ensures !fs.lockHeld && r == ok
    ensures fs.calls == old(fs.calls) + [FilesysCreate(name, initialSize)]
  {
    fs.Acquire();
    fs.Call(FilesysCreate(name, initialSize));
    r := ok;
    fs.Release();
  }

  /** remove: filesys_remove under the lock; `ok` is its result. */
  method Remove(fs: FileSystem, name: u32, ok: bool) returns (r: bool)
    requires !fs.lockHeld
    modifies fs
    ensures !fs.lockHeld && r == ok
    ensures fs.calls == old(fs.calls) + [FilesysRemove(name)]
  {
    fs.Acquire();
    fs.Call(FilesysRemove(name));
    r := ok;
    fs.Release();
  }

  // ---------------------------------------------------------------------
  // What a trap does, as functions of the words it reads
  // ---------------------------------------------------------------------

  /** The pointer checks a call makes once its words are read: a path is
      translated by UK_pointer; a buffer passes check_valid_buffer and then
      its first byte is translated by UK_pointer. */
  predicate PointersOk(nr: int, a0: i32, a1: i32, a2: i32, pd: PageDir) {
    (TakesPath(nr) ==> UKPointer(pd, ToU32(a0)).Some?) &&
    (nr in {SYS_READ, SYS_WRITE} ==> BufferOk(ToU32(a1), ToU32(a2)) && UKPointer(pd, ToU32(a1)).Some?)
  }

  /** Every check syscall_handler makes succeeds: the stack pointer, each
      argument word the call reads, and the pointers among them. */
  predicate Passes(esp: u32, peek: u32 -> i32, pd: PageDir) {
    CheckValidPtr(esp) && ArgsOk(esp, ArgCount(peek(esp))) &&
    PointersOk(peek(esp), Word(esp, peek, 0), Word(esp, peek, 1), Word(esp, peek, 2), pd)
  }

  /** eax after exec, create, remove or open. */
  function PathEax(nr: int, fdCounter: int, env: Env): u32
    requires nr == SYS_EXEC ==> ExecReady(env.execChildren, env.execPid)
  {
    if nr == SYS_EXEC then ToU32(Exec(env.execChildren, env.execPid))
    else if nr == SYS_CREATE then BoolWord(env.created)
    else if nr == SYS_REMOVE then BoolWord(env.removed)
    else ToU32(if env.openResult.None? then ERROR else fdCounter)
  }

  /** eax after read or write. */
  function BufferEax(nr: int, fd: i32, size: i32, files: seq<ProcessFile>, env: Env): u32 {
    if nr == SYS_READ then
      ToU32(if fd == STDIN_FILENO then ToI32(ToU32(size))
            else if GetFile(files, fd).None? then ERROR else env.bytesRead)
    else
      ToU32(if fd == STDOUT_FILENO then ToI32(ToU32(size))
            else if GetFile(files, fd).None? then ERROR else env.bytesWritten)
  }

  /** eax after filesize, seek, tell or close (None: left alone). */
  function DescriptorEax(nr: int, fd: i32, files: seq<ProcessFile>, env: Env): Option<u32> {
    if nr == SYS_FILESIZE then Some(ToU32(if GetFile(files, fd).None? then ERROR else env.length))
    else if nr == SYS_TELL then Some(if GetFile(files, fd).None? then ToU32(ERROR) else ToU32(env.position))
    else None
  }

  /** The value a call that passed its checks leaves in eax (None: eax
      untouched), given the descriptor table before it. */
  function EaxOf(nr: int, a0: i32, a2: i32, files: seq<ProcessFile>, fdCounter: int, env: Env): Option<u32>
    requires nr == SYS_EXEC ==> ExecReady(env.execChildren, env.execPid)
  {
    if nr == SYS_WAIT then Some(ToU32(env.waitStatus))
    else if TakesPath(nr) then Some(PathEax(nr, fdCounter, env))
    else if nr in {SYS_READ, SYS_WRITE} then Some(BufferEax(nr, a0, a2, files, env))
    else DescriptorEax(nr, a0, files, env)
  }

  /** The descriptor table after a call that passed its checks. */
  function FilesAfter(nr: int, a0: i32, files: seq<ProcessFile>, fdCounter: int, env: Env): seq<ProcessFile> {
    if nr == SYS_OPEN && env.openResult.Some? then files + [ProcessFile(env.openResult.value, fdCounter)]
    else if nr == SYS_CLOSE then Remaining(files, a0)
    else files
  }

  /** The descriptor counter after a call that passed its checks. */
  function CounterAfter(nr: int, fdCounter: int, env: Env): int {
    if nr == SYS_OPEN && env.openResult.Some? then fdCounter + 1 else fdCounter
  }

  /** The file-system calls of create, remove or open on the kernel
      address of the path. */
  function PathCalls(nr: int, name: u32, initialSize: i32): seq<FsCall> {
    if nr == SYS_CREATE then [FilesysCreate(name, ToU32(initialSize))]
    else if nr == SYS_REMOVE then [FilesysRemove(name)]
    else if nr == SYS_OPEN then [FilesysOpen(name)]
    else []
  }

  /** The file-system calls of read or write once the buffer is checked. */
  function BufferCalls(nr: int, fd: i32, buffer: u32, size: i32, files: seq<ProcessFile>): seq<FsCall> {
    match GetFile(files, fd)
    case None => []
    case Some(f) =>
      if nr == SYS_READ && fd != STDIN_FILENO then [FileRead(f, buffer, ToU32(size))]
      else if nr == SYS_WRITE && fd != STDOUT_FILENO then [FileWrite(f, buffer, ToU32(size))]
      else []
  }

  /** The file-system calls of filesize, seek, tell or close. */
  function DescriptorCalls(nr: int, fd: i32, position: i32, files: seq<ProcessFile>): seq<FsCall> {
    if nr == SYS_CLOSE then CloseCalls(Released(files, fd))
    else
      match GetFile(files, fd)
      case None => []
      case Some(f) =>
        if nr == SYS_FILESIZE then [FileLength(f)]
        else if nr == SYS_SEEK then [FileSeek(f, ToU32(position))]
        else if nr == SYS_TELL then [FileTell(f)]
        else []
  }

  /** The file-system calls made by a call that passed its checks. */
  function CallsOf(nr: int, a0: i32, a1: i32, a2: i32, pd: PageDir, files: seq<ProcessFile>): seq<FsCall>
    requires PointersOk(nr, a0, a1, a2, pd)
  {
    if TakesPath(nr) then PathCalls(nr, UKPointer(pd, ToU32(a0)).value, a1)
    else if nr in {SYS_READ, SYS_WRITE} then BufferCalls(nr, a0, UKPointer(pd, ToU32(a1)).value, a2, files)
    else DescriptorCalls(nr, a0, a1, files)
  }

  /** Kernel memory after a call that passed its checks: only read stores
      into it. From the console it fills the buffer with the keys; from a
      known file it may change the buffer's bytes and nothing else. */
  ghost predicate MemoryAfter(nr: int, a0: i32, a1: i32, a2: i32, pd: PageDir, env: Env,
                              files: seq<ProcessFile>, before: map<u32, byte>, after: map<u32, byte>)
    requires PointersOk(nr, a0, a1, a2, pd)
  {
    if nr == SYS_READ && a0 == STDIN_FILENO
    then ConsoleFilled(before, after, UKPointer(pd, ToU32(a1)).value, ToU32(a2), env.console)
    else if nr == SYS_READ && GetFile(files, a0).Some?
    then OutsideKept(before, after, UKPointer(pd, ToU32(a1)).value, ToU32(a2))
    else after == before
  }

  // ---------------------------------------------------------------------
  // The handler
  // ---------------------------------------------------------------------

  /** The path-taking calls exec, create, remove and open: the path is
      translated first, then the handler runs. */
  method PathCall(nr: int, a0: i32, a1: i32, pd: PageDir, env: Env,
                  ft: FileTable, fs: FileSystem, kids: ChildList,
                  parent: ChildList?, cp: nat) returns (o: Outcome)
    requires TakesPath(nr)
    requires ft.Valid() && !fs.lockHeld
    requires parent != null ==> parent != kids && cp < |parent.children|
    requires nr == SYS_EXEC && UKPointer(pd, ToU32(a0)).Some? ==> ExecReady(env.execChildren, env.execPid)
    modifies ft, fs, kids, parent
    ensures ft.Valid() && !fs.lockHeld
    ensures o.Exited? <==> !PointersOk(nr, a0, a1, 0, pd)
    ensures o.Exited? ==>
      o.status == ERROR && ft.files == old(ft.files) && ft.fdCounter == old(ft.fdCounter) &&
      fs.calls == old(fs.calls) &&
      (parent != null ==> parent.children == old(parent.children)[cp := old(parent.children)[cp].(status := ERROR)])
    ensures !o.Exited? ==>
      PointersOk(nr, a0, a1, 0, pd) &&
      o == Resumed(Some(PathEax(nr, old(ft.fdCounter), env))) &&
      ft.files == FilesAfter(nr, a0, old(ft.files), old(ft.fdCounter), env) &&
      ft.fdCounter == CounterAfter(nr, old(ft.fdCounter), env) &&
      fs.calls == old(fs.calls) + PathCalls(nr, UKPointer(pd, ToU32(a0)).value, a1) &&
      (parent != null ==> parent.children == old(parent.children))
    ensures kids.children == if nr == SYS_EXEC && !o.Exited? then env.execChildren else old(kids.children)
  {
    var name := UKPointer(pd, ToU32(a0));
    if name.None? {
      o := Exit(ERROR, parent, cp);
      return;
    }
    assert PointersOk(nr, a0, a1, 0, pd);
    if nr == SYS_EXEC {
      kids.children := env.execChildren;
      o := Resumed(Some(ToU32(Exec(kids.children, env.execPid))));
    } else if nr == SYS_CREATE {
      var r := Create(fs, name.value, ToU32(a1), env.created);
      o := Resumed(Some(BoolWord(r)));
    } else if nr == SYS_REMOVE {
      var r := Remove(fs, name.value, env.removed);
      o := Resumed(Some(BoolWord(r)));
    } else {
      var r := ft.Open(fs, name.value, env.openResult);
      o := Resumed(Some(ToU32(r)));
    }
  }

  /** read and write: the whole buffer is checked, then its first byte is
      translated, then the handler runs on the kernel address. */
  method BufferCall(nr: int, a0: i32, a1: i32, a2: i32, pd: PageDir, env: Env,
                    ft: FileTable, fs: FileSystem, mem: KernelMemory,
                    parent: ChildList?, cp: nat) returns (o: Outcome)
    requires nr == SYS_READ || nr == SYS_WRITE
    requires ft.Valid() && !fs.lockHeld
    requires parent != null ==> cp < |parent.children|
    modifies fs, mem, parent
    ensures !fs.lockHeld
    ensures o.Exited? <==> !PointersOk(nr, a0, a1, a2, pd)
    ensures o.Exited? ==>
      o.status == ERROR && fs.calls == old(fs.calls) && mem.bytes == old(mem.bytes) &&
      (parent != null ==> parent.children == old(parent.children)[cp := old(parent.children)[cp].(status := ERROR)])
    ensures !o.Exited? ==>
      PointersOk(nr, a0, a1, a2, pd) &&
      o == Resumed(Some(BufferEax(nr, a0, a2, ft.files, env))) &&
      fs.calls == old(fs.calls) + BufferCalls(nr, a0, UKPointer(pd, ToU32(a1)).value, a2, ft.files) &&
      MemoryAfter(nr, a0, a1, a2, pd, env, ft.files, old(mem.bytes), mem.bytes) &&
      (parent != null ==> parent.children == old(parent.children))
  {
    var size := ToU32(a2);
    var bad := CheckValidBuffer(ToU32(a1), size);
    if bad.Some? {
      o := Exit(ERROR, parent, cp);
      return;
    }
    var buffer := UKPointer(pd, ToU32(a1));
    if buffer.None? {
      o := Exit(ERROR, parent, cp);
      return;
    }
    var r;
    if nr == SYS_READ {
      r := ft.Read(fs, mem, a0, buffer.value, size, env.console, env.bytesRead);
    } else {
      r := ft.Write(fs, a0, buffer.value, size, env.bytesWritten);
    }
    o := Resumed(Some(ToU32(r)));
  }

  /** filesize, seek, tell and close: calls that take only a descriptor
      (and seek's position). */
  method DescriptorCall(nr: int, a0: i32, a1: i32, env: Env, ft: FileTable, fs: FileSystem)
    returns (o: Outcome)
    requires nr in {SYS_FILESIZE, SYS_SEEK, SYS_TELL, SYS_CLOSE}
    requires ft.Valid() && !fs.lockHeld
    modifies ft, fs
    ensures ft.Valid() && !fs.lockHeld
    ensures o == Resumed(DescriptorEax(nr, a0, old(ft.files), env))
    ensures ft.files == FilesAfter(nr, a0, old(ft.files), old(ft.fdCounter), env)
    ensures ft.fdCounter == old(ft.fdCounter)
    ensures fs.calls == old(fs.calls) + DescriptorCalls(nr, a0, a1, old(ft.files))
  {
    ghost var files := ft.files;
    ghost var f := GetFile(files, a0);
    if nr == SYS_FILESIZE {
      var r := ft.FileSize(fs, a0, env.length);
      o := Resumed(Some(ToU32(r)));
      assert DescriptorCalls(nr, a0, a1, files) == if f.None? then [] else [FileLength(f.value)];
    } else if nr == SYS_SEEK {
      ft.Seek(fs, a0, ToU32(a1));
      o := Resumed(None);
      assert DescriptorCalls(nr, a0, a1, files) == if f.None? then [] else [FileSeek(f.value, ToU32(a1))];
    } else if nr == SYS_TELL {
      var r := ft.Tell(fs, a0, env.position);
      o := Resumed(Some(r));
      assert DescriptorCalls(nr, a0, a1, files) == if f.None? then [] else [FileTell(f.value)];
    } else {
      ft.Close(fs, a0);
      o := Resumed(None);
    }
  }

  /** The switch of syscall_handler once the words are read: nr is the
      system-call number and a0, a1, a2 the argument slots. */
  method Handle(nr: int, a0: i32, a1: i32, a2: i32, pd: PageDir, env: Env,
                ft: FileTable, fs: FileSystem, kids: ChildList, mem: KernelMemory,
                parent: ChildList?, cp: nat) returns (o: Outcome)
    requires ft.Valid() && !fs.lockHeld
    requires parent != null ==> parent != kids && cp < |parent.children|
    requires nr == SYS_EXEC && PointersOk(nr, a0, a1, a2, pd) ==> ExecReady(env.execChildren, env.execPid)
    modifies ft, fs, kids, mem, parent
    ensures ft.Valid() && !fs.lockHeld
    ensures !PointersOk(nr, a0, a1, a2, pd) ==> o == Exited(ERROR)
    ensures PointersOk(nr, a0, a1, a2, pd) && nr == SYS_HALT ==> o == Halted
    ensures PointersOk(nr, a0, a1, a2, pd) && nr == SYS_EXIT ==> o == Exited(a0)
    ensures o.Exited? || o == Halted ==>
      ft.files == old(ft.files) && ft.fdCounter == old(ft.fdCounter) &&
      fs.calls == old(fs.calls) && mem.bytes == old(mem.bytes)
    ensures PointersOk(nr, a0, a1, a2, pd) && nr != SYS_HALT && nr != SYS_EXIT ==>
      o == Resumed(EaxOf(nr, a0, a2, old(ft.files), old(ft.fdCounter), env)) &&
      ft.files == FilesAfter(nr, a0, old(ft.files), old(ft.fdCounter), env) &&
      ft.fdCounter == CounterAfter(nr, old(ft.fdCounter), env) &&
      fs.calls == old(fs.calls) + CallsOf(nr, a0, a1, a2, pd, old(ft.files)) &&
      MemoryAfter(nr, a0, a1, a2, pd, env, old(ft.files), old(mem.bytes), mem.bytes)
    ensures o.Exited? && parent != null ==>
      parent.children == old(parent.children)[cp := old(parent.children)[cp].(status := o.status)]
    ensures !o.Exited? && parent != null ==> parent.children == old(parent.children)
    ensures kids.children ==
      if nr == SYS_EXEC && PointersOk(nr, a0, a1, a2, pd) then env.execChildren else old(kids.children)
  {
    if nr == SYS_HALT {
      o := Halted;
    } else if nr == SYS_EXIT {
      o := Exit(a0, parent, cp);
    } else if nr == SYS_WAIT {
      o := Resumed(Some(ToU32(env.waitStatus)));
    } else if TakesPath(nr) {
      o := PathCall(nr, a0, a1, pd, env, ft, fs, kids, parent, cp);
    } else if nr == SYS_READ || nr == SYS_WRITE {
      o := BufferCall(nr, a0, a1, a2, pd, env, ft, fs, mem, parent, cp);
    } else if nr in {SYS_FILESIZE, SYS_SEEK, SYS_TELL, SYS_CLOSE} {
      o := DescriptorCall(nr, a0, a1, env, ft, fs);
    } else {
      o := Resumed(None);
    }
  }

  /** syscall_handler for a trap whose stack pointer is esp, with user
      memory read through peek and translated through pd. ft and kids belong
      to the calling thread; parent is its parent's child list (null when
      the parent is no longer alive) and cp its own record there. A trap
      that fails a check ends the process with ERROR before anything else
      happens; halt powers off; exit ends the process with its argument;
      every other number resumes the process, with eax, the descriptor
      table, the file system and kernel memory as the functions above say. */
  method Dispatch(esp: u32, peek: u32 -> i32, pd: PageDir, env: Env,
                  ft: FileTable, fs: FileSystem, kids: ChildList, mem: KernelMemory,
                  parent: ChildList?, cp: nat) returns (o: Outcome)
    requires ft.Valid() && !fs.lockHeld
    requires parent != null ==> parent != kids && cp < |parent.children|
    requires Passes(esp, peek, pd) && peek(esp) == SYS_EXEC ==> ExecReady(env.execChildren, env.execPid)
    modifies ft, fs, kids, mem, parent
    ensures ft.Valid() && !fs.lockHeld
    ensures !Passes(esp, peek, pd) ==> o == Exited(ERROR)
    ensures Passes(esp, peek, pd) && peek(esp) == SYS_HALT ==> o == Halted
    ensures Passes(esp, peek, pd) && peek(esp) == SYS_EXIT ==> o == Exited(Word(esp, peek, 0))
    ensures o.Exited? || o == Halted ==>
      ft.files == old(ft.files) && ft.fdCounter == old(ft.fdCounter) &&
      fs.calls == old(fs.calls) && mem.bytes == old(mem.bytes)
    ensures Passes(esp, peek, pd) && peek(esp) != SYS_HALT && peek(esp) != SYS_EXIT ==>
      var nr, a0, a1, a2 := peek(esp), Word(esp, peek, 0), Word(esp, peek, 1), Word(esp, peek, 2);
      o == Resumed(EaxOf(nr, a0, a2, old(ft.files), old(ft.fdCounter), env)) &&
      ft.files == FilesAfter(nr, a0, old(ft.files), old(ft.fdCounter), env) &&
      ft.fdCounter == CounterAfter(nr, old(ft.fdCounter), env) &&
      fs.calls == old(fs.calls) + CallsOf(nr, a0, a1, a2, pd, old(ft.files)) &&
      MemoryAfter(nr, a0, a1, a2, pd, env, old(ft.files), old(mem.bytes), mem.bytes)
    ensures o.Exited? && parent != null ==>
      parent.children == old(parent.children)[cp := old(parent.children)[cp].(status := o.status)]
    ensures !o.Exited? && parent != null ==> parent.children == old(parent.children)
    ensures kids.children ==
      if Passes(esp, peek, pd) && peek(esp) == SYS_EXEC then env.execChildren else old(kids.children)
  {
    if !CheckValidPtr(esp) {
      o := Exit(ERROR, parent, cp);
      return;
    }
    var nr := peek(esp);
    var arg := new i32[MAX_ARGS](_ => 0);
    var n := ArgCount(nr);
    var stored := GetArg(esp, peek, arg, n);
    if stored < n {
      o := Exit(ERROR, parent, cp);
      return;
    }
    assert arg[0] == Word(esp, peek, 0) && arg[1] == Word(esp, peek, 1) && arg[2] == Word(esp, peek, 2);
    o := Handle(nr, arg[0], arg[1], arg[2], pd, env, ft, fs, kids, mem, parent, cp);
  }

  // ---------------------------------------------------------------------
  // Properties of the handler
  // ---------------------------------------------------------------------

  /** eax changes exactly for exec, wait, create, remove, open, filesize,
      read, write and tell; halt, exit, seek, close and unknown numbers leave
      it alone. */
  lemma EaxWrittenExactly(nr: int, a0: i32, a2: i32, files: seq<ProcessFile>, fdCounter: int, env: Env)
    requires nr == SYS_EXEC ==> ExecReady(env.execChildren, env.execPid)
    ensures EaxOf(nr, a0, a2, files, fdCounter, env).Some? <==> WritesEax(nr)
  {
  }

  /** exec from a caller whose list has no record for the new pid: once
      process_execute has appended the fresh record and the child has
      reported its load outcome into it, the handler can finish, and eax is
      the pid, or ERROR when the load failed. */
  lemma {:induction false} ExecOfNewChild(children: seq<ChildProcess>, rec: ChildProcess, outcome: int,
                                          files: seq<ProcessFile>, fdCounter: int, env: Env)
    requires GetChild(children, rec.pid).None? && FreshRecord(rec, rec.pid)
    requires outcome == LOAD_SUCCESS || outcome == LOAD_FAIL
    requires rec.pid != ERROR
    requires env.execPid == rec.pid && env.execChildren == children + [rec.(load := outcome)]
    ensures ExecReady(env.execChildren, env.execPid)
    ensures EaxOf(SYS_EXEC, 0, 0, files, fdCounter, env) ==
            Some(ToU32(if outcome == LOAD_FAIL then ERROR else rec.pid))
  {
    ExecHandshake(children, rec, outcome);
  }

  /** Every call keeps the table ordered with all descriptors below the
      counter, and the counter never goes down: a descriptor, once handed
      out, is never handed out again. */
  lemma {:induction false} CallsKeepTableOk(nr: int, a0: i32, files: seq<ProcessFile>, fdCounter: int, env: Env)
    requires TableOk(files, fdCounter)
    ensures TableOk(FilesAfter(nr, a0, files, fdCounter, env), CounterAfter(nr, fdCounter, env))
    ensures CounterAfter(nr, fdCounter, env) >= fdCounter
  {
    if nr == SYS_CLOSE {
      RemainingTableOk(files, a0, fdCounter);
    }
  }

  /** close(-1) reaches byefile with CLOSE_ALL: the table empties and every
      file in it is closed, in table order. */
  lemma CloseMinusOneClosesAll(files: seq<ProcessFile>, fdCounter: int, a1: i32, pd: PageDir, env: Env)
    ensures FilesAfter(SYS_CLOSE, -1, files, fdCounter, env) == []
    ensures CallsOf(SYS_CLOSE, -1, a1, 0, pd, files) == CloseCalls(FilesOf(files))
  {
  }

  /** A descriptor not in the table: filesize and tell answer ERROR, as do
      read and write other than on the console, and none of them nor seek
      calls into the file system or changes the table. */
  lemma UnknownDescriptor(nr: int, fd: i32, a1: i32, a2: i32, pd: PageDir,
                          files: seq<ProcessFile>, fdCounter: int, env: Env)
    requires GetFile(files, fd).None?
    requires nr in {SYS_FILESIZE, SYS_TELL, SYS_SEEK} ||
             (nr == SYS_READ && fd != STDIN_FILENO) || (nr == SYS_WRITE && fd != STDOUT_FILENO)
    requires PointersOk(nr, fd, a1, a2, pd)
    ensures nr != SYS_SEEK ==> EaxOf(nr, fd, a2, files, fdCounter, env) == Some(ToU32(ERROR))
    ensures nr == SYS_SEEK ==> EaxOf(nr, fd, a2, files, fdCounter, env).None?
    ensures CallsOf(nr, fd, a1, a2, pd, files) == []
    ensures FilesAfter(nr, fd, files, fdCounter, env) == files
  {
  }

  /** A file afterOpen, written and closed: open hands out the counter as its
      descriptor, a write through it reaches file_write, and once it is
      closed a write or read through it answers ERROR. */
  lemma {:induction false} OpenWriteCloseWrite(files: seq<ProcessFile>, fdCounter: int, f: FileId, fd: i32,
                                              size: i32, env: Env)
    requires TableOk(files, fdCounter) && fd == fdCounter
    requires fd != STDIN_FILENO && fd != STDOUT_FILENO
    requires env.openResult == Some(f)
    ensures EaxOf(SYS_OPEN, 0, 0, files, fdCounter, env) == Some(ToU32(fd))
    ensures var afterOpen := FilesAfter(SYS_OPEN, 0, files, fdCounter, env);
            GetFile(afterOpen, fd) == Some(f) &&
            EaxOf(SYS_WRITE, fd, size, afterOpen, fdCounter + 1, env) == Some(ToU32(env.bytesWritten)) &&
            var closed := FilesAfter(SYS_CLOSE, fd, afterOpen, fdCounter + 1, env);
            EaxOf(SYS_WRITE, fd, size, closed, fdCounter + 1, env) == Some(ToU32(ERROR)) &&
            EaxOf(SYS_READ, fd, size, closed, fdCounter + 1, env) == Some(ToU32(ERROR))
  {
    var afterOpen := FilesAfter(SYS_OPEN, 0, files, fdCounter, env);
    assert afterOpen == files + [ProcessFile(f, fd)];
    assert afterOpen[|files|].fd == fd;
    CallsKeepTableOk(SYS_OPEN, 0, files, fdCounter, env);
    if fd != CLOSE_ALL {
      GetFileAfterClose(afterOpen, fd, fd);
    }
  }
}
