# Pintos system-call layer

This project models the system-call layer of a Pintos user-program kernel: `userprog/syscall.c` with the constants and child record of `userprog/syscall.h`. The model is in Dafny and its properties are proved. There are five modules, one per concern:

- `SyscallDefs` (`syscall_defs.dfy`) holds the pieces every other module uses:
  - the `ERROR` and `CLOSE_ALL` sentinels and the three load states;
  - the `child_process` record;
  - 32-bit machine words with explicit wrap-around (`ToU32`, `ToI32`);
  - the first-match list walk that `getfile` and `getchild` share (`FindFirst`);
  - `list_remove` as `RemoveAt`.
- `PointerValidator` (`pointer_validator.dfy`) covers the user-pointer checks: `check_valid_ptr`, `UK_pointer`, `check_valid_buffer` and `get_arg`. Addresses are 32-bit words. The process's page directory is a finite map from user addresses to kernel addresses. User memory, as the kernel reads it, is a function `peek`.
- `DescriptorTable` (`descriptor_table.dfy`) covers the per-thread descriptor table and the handlers that use it.
  - The table is a class holding the next descriptor and the list of `(file, fd)` entries, with `newfile`, `getfile` and `byefile`.
  - The handlers are `open`, `filesize`, `read`, `write`, `seek`, `tell` and `close`.
  - The shared file system is a class that holds the `filesys_lock` flag and a log of every call made into it. A call can only be logged while the lock is held, so every contract that states the log also proves that each file-system call happens under the lock. The contracts of the handlers that take the lock (`open`, `filesize`, `read`, `write`, `seek`, `tell`, `close`, `create` and `remove`) also prove that it is released on every path.
  - The console branch of `read` is a loop that stores console keys into kernel memory.
- `ChildRegistry` (`child_registry.dfy`) covers the per-thread list of child records:
  - `newchild`, `getchild`, `byechild` and `byechildren`;
  - `exec`'s reading of the load outcome;
  - the store `exit` makes into the caller's record in its parent's list.
- `SyscallDispatch` (`syscall_handler.dfy`) covers the trap handler `syscall_handler` and the handlers not tied to a table (`halt`, `exit`, `wait`, `create`, `remove`).
  - A trap ends in one of three ways: the machine powers off (`Halted`), the process exits with a status (`Exited`), or the process resumes (`Resumed`). On resume, eax is either set to a new value or left alone.
  - Four specification functions say what a trap that passes its checks does: `EaxOf` gives the value left in eax, `FilesAfter` and `CounterAfter` give the new table, and `CallsOf` gives the file-system calls. Each is built from per-group functions for the path, buffer and descriptor calls.
  - `Dispatch` is proved against those functions.

What lies outside the layer is a parameter:

- the pid `process_execute` returns, and the caller's child list as `exec`'s `getchild` then searches it: `process_execute`, running in the caller's thread, appends the record with `newchild` before it returns, and the child then reports its load outcome into that record while `exec` spins;
- the status `process_wait` returns;
- the results of the file-system primitives;
- the keys `input_getc` yields.

These are bundled in the `Env` record.

The code leaves the following unchecked, and the model follows it:

- `check_valid_buffer` tests each byte's bounds but never asks whether the byte's page is mapped.
- Only the first byte of a buffer is translated, and the kernel then uses the kernel addresses that follow it.
- `get_arg` checks only the first byte of each argument word, not the three bytes after it.
- `wait` passes its pid straight to `process_wait`: this layer does not check that the pid is a child or that it is waited on only once.

The lemma `BufferCheckIgnoresMapping` exhibits the first: a buffer that runs onto an unmapped page. The lemma `ArgWordMayCrossIntoKernel` exhibits the third: a word whose last bytes lie at or above PHYS_BASE.

## Model

| member | source | states |
|---|---|---|
| SyscallDefs.ToU32 | pintos/src/userprog/syscall.c:124-126 | The `(unsigned)` conversion of a word: the result is the one value in [0, 2^32) congruent to the input modulo 2^32, and a value already in range is unchanged |
| SyscallDefs.ToI32 | pintos/src/userprog/syscall.c:262 | The `unsigned` to `int` conversion of `return size`: the same 32 bits read as two's complement, and a value already in the signed range is unchanged |
| SyscallDefs.LoadStates | pintos/src/userprog/syscall.h:9-11 | The three load states are distinct, and only `NOT_LOADED` is pending |
| SyscallDefs.ErrorWord | pintos/src/userprog/syscall.h:6-7 | `ERROR` stored into an unsigned result is 0xFFFFFFFF, and `CLOSE_ALL` is the same word as `ERROR` |
| SyscallDefs.FindFirst | pintos/src/userprog/syscall.c:383-388 | The list walk of `getfile` and `getchild` returns the position of the first matching element: no earlier element matches, and the position is the length of the list exactly when nothing matches |
| SyscallDefs.RemoveAt | pintos/src/userprog/syscall.c:405 | `list_remove` removes exactly one element and keeps the others in their order |
| SyscallDefs.FindFirstAfterRemoval | pintos/src/userprog/syscall.c:378-414 | After the first element with one key is removed, a search for another key still finds the same element, and finds one exactly when it found one before |
| PointerValidator.CheckValidPtr | pintos/src/userprog/syscall.c:351-355 | An address passes exactly when it is below PHYS_BASE (`is_user_vaddr`) and at or above 0x08048000; the page mapping is not consulted |
| PointerValidator.UKPointer | pintos/src/userprog/syscall.c:351-366 | `UK_pointer` yields a kernel address exactly when the address passes `check_valid_ptr` and its page is mapped to a non-null frame; the address yielded is the one `pagedir_get_page` gives; every other case is the `exit(ERROR)` path |
| PointerValidator.CheckValidBuffer | pintos/src/userprog/syscall.c:481-490 | The loop accepts the buffer exactly when each of the `size` bytes b, b+1, ..., b+size-1 passes `check_valid_ptr`; when it refuses, it stops at the first refused byte and all earlier bytes passed; size 0 checks nothing |
| PointerValidator.BufferOkIsUserRange | pintos/src/userprog/syscall.c:481-490 | A non-empty buffer that passes the check is a consecutive range in user memory: it starts at or above 0x08048000 and ends at or below PHYS_BASE, with no wrap-around |
| PointerValidator.BufferCheckIgnoresMapping | pintos/src/userprog/syscall.c:481-490 | A two-byte buffer that starts on the last byte of a mapped page and runs onto the next page, which is unmapped, still passes `check_valid_buffer`: its first byte translates and its second does not |
| PointerValidator.GetArg | pintos/src/userprog/syscall.c:467-477 | `get_arg` stores all n words exactly when every word address esp+4(i+1) passes `check_valid_ptr`; slot i holds the word read at esp+4(i+1); on failure it stops at the first refused address; it writes no slot at or past the stopping point |
| PointerValidator.ArgWordMayCrossIntoKernel | pintos/src/userprog/syscall.c:473-474 | An argument word whose first byte is the last user byte passes `get_arg` even though its other three bytes lie at or above PHYS_BASE |
| DescriptorTable.FileSystem.Call | pintos/src/userprog/syscall.c:206-208 | A call into the file system can be made only while `filesys_lock` is held, and it is appended to the log |
| DescriptorTable.FdIndex | pintos/src/userprog/syscall.c:383-388 | Position of the first entry with descriptor fd; no earlier entry has it, and the position is the table length exactly when none does |
| DescriptorTable.GetFile | pintos/src/userprog/syscall.c:378-391 | `getfile` returns NULL exactly when no entry has the descriptor; otherwise it returns a file whose entry has that descriptor |
| DescriptorTable.RemainingTableOk | pintos/src/userprog/syscall.c:393-414 | `byefile` keeps descriptors strictly increasing and below the counter |
| DescriptorTable.ReleasedAccounts | pintos/src/userprog/syscall.c:402-408 | Every entry `byefile` unlinks has its file closed, and nothing else is closed. For a known descriptor, exactly that descriptor's file is closed. For an unknown descriptor nothing is closed and the table is unchanged |
| DescriptorTable.GetFileAfterClose | pintos/src/userprog/syscall.c:378-414 | In a table with ascending descriptors, after `byefile(fd)` `getfile(fd)` returns NULL and every other descriptor names the same file as before |
| DescriptorTable.CloseAllForgetsAll | pintos/src/userprog/syscall.c:402-408 | After `byefile(CLOSE_ALL)` no descriptor names a file, and the files closed are all the table's files in table order |
| DescriptorTable.FileTable.NewFile | pintos/src/userprog/syscall.c:368-376 | `newfile` returns the old counter, advances the counter by exactly one and appends the entry at the end. The new descriptor exceeds every descriptor in the table, so the table stays strictly increasing. Afterwards `getfile` of the new descriptor returns the new file |
| DescriptorTable.FileTable.ByeFile | pintos/src/userprog/syscall.c:393-414 | The loop leaves the table as `Remaining` says. For a plain descriptor, the first entry with it is removed and the others keep their order. For `CLOSE_ALL`, the table becomes empty. The file-system log gains exactly one `file_close` per removed entry, in list order. The counter is unchanged |
| DescriptorTable.FileTable.Open | pintos/src/userprog/syscall.c:220-235 | `filesys_open` is called under the lock. On failure `open` returns ERROR and leaves the counter and table unchanged. On success the file gets the old counter as its descriptor, via `newfile`. The lock is released on both paths |
| DescriptorTable.FileTable.FileSize | pintos/src/userprog/syscall.c:237-251 | For an unknown descriptor `filesize` returns ERROR with no file-system call. Otherwise it returns what `file_length` reports on that descriptor's file. The lock is released on both paths |
| DescriptorTable.FileTable.Read | pintos/src/userprog/syscall.c:253-280 | Descriptor 0 takes no lock, fills the buffer from the console and returns size. Otherwise an unknown descriptor gives ERROR, and a known one gives what `file_read` reports on its file under the lock. An unknown descriptor leaves kernel memory unchanged; a known one may change only the buffer's size bytes |
| DescriptorTable.FileTable.Write | pintos/src/userprog/syscall.c:282-305 | Descriptor 1 takes no lock and returns size. Otherwise an unknown descriptor gives ERROR, and a known one gives what `file_write` reports on its file under the lock |
| DescriptorTable.FileTable.Seek | pintos/src/userprog/syscall.c:307-322 | `seek` on an unknown descriptor does nothing. Otherwise `file_seek` is called on its file with the position, under the lock |
| DescriptorTable.FileTable.Tell | pintos/src/userprog/syscall.c:324-342 | `tell` returns ERROR cast to unsigned for an unknown descriptor. Otherwise it returns the position `file_tell` reports, cast to unsigned |
| DescriptorTable.FileTable.Close | pintos/src/userprog/syscall.c:344-349 | `close` runs `byefile` under the lock and releases the lock. The table stays strictly increasing below the counter |
| DescriptorTable.ReadConsole | pintos/src/userprog/syscall.c:258-262 | The console loop stores key i at byte i of the buffer for every i below size, with addresses wrapping modulo 2^32, and leaves every other byte of kernel memory as it was |
| ChildRegistry.PidIndex | pintos/src/userprog/syscall.c:433-438 | Position of the first record with the pid. No earlier record has it, and the position is the list length exactly when none does |
| ChildRegistry.GetChild | pintos/src/userprog/syscall.c:428-441 | `getchild` returns NULL exactly when no record has the pid. Otherwise it returns the first record with that pid |
| ChildRegistry.Exec | pintos/src/userprog/syscall.c:179-197 | Once the record exists and its load is settled, `exec` returns the pid or ERROR, and returns ERROR exactly when the load failed or the pid is itself ERROR |
| ChildRegistry.ExecHandshake | pintos/src/userprog/syscall.c:179-197 | Right after `newchild` for a new pid, `exec` cannot finish, because the load is pending. After the child reports its outcome, `exec` returns the pid on success and ERROR on failure |
| ChildRegistry.GetChildAfterRemoval | pintos/src/userprog/syscall.c:428-447 | After `byechild` removes the record `getchild` found, lookups of other pids find the same records as before. A pid that had a single record has none |
| ChildRegistry.ChildList.NewChild | pintos/src/userprog/syscall.c:416-426 | `newchild` appends a record with load `NOT_LOADED` and `wait` and `exit` false, and returns it. `getchild` then finds it if the pid had no earlier record, and finds the earlier record otherwise |
| ChildRegistry.ChildList.ByeChild | pintos/src/userprog/syscall.c:443-447 | `byechild` removes exactly the given record and keeps the others in order |
| ChildRegistry.ChildList.ByeChildren | pintos/src/userprog/syscall.c:449-463 | `byechildren` leaves the list empty |
| ChildRegistry.ChildList.RecordStatus | pintos/src/userprog/syscall.c:171-172 | The store `cur->cp->status = status` changes only the status of that one record |
| SyscallDispatch.ArgCount | pintos/src/userprog/syscall.c:57-158 | No system call reads more argument words than the `MAX_ARGS` slots of the handler's array |
| SyscallDispatch.Exit | pintos/src/userprog/syscall.c:167-177 | `exit` ends the process with the status. If the parent is alive, the status is stored in the caller's record, and no other record changes |
| SyscallDispatch.Create | pintos/src/userprog/syscall.c:204-210 | `create` makes exactly one `filesys_create` call, under the lock, releases the lock and returns its result |
| SyscallDispatch.Remove | pintos/src/userprog/syscall.c:212-218 | `remove` makes exactly one `filesys_remove` call, under the lock, releases the lock and returns its result |
| SyscallDispatch.PathCall | pintos/src/userprog/syscall.c:75-112 | exec, create, remove and open exit with ERROR exactly when `UK_pointer` refuses the path. Otherwise they resume with the eax, table, counter and file-system calls of `PathEax`, `FilesAfter`, `CounterAfter` and `PathCalls`, and the parent's list is unchanged. An exec that passes its check leaves the caller's child list as `exec`'s `getchild` found it, with the new child's record; every other call leaves that list alone |
| SyscallDispatch.BufferCall | pintos/src/userprog/syscall.c:121-137 | read and write exit with ERROR exactly when `check_valid_buffer` or the translation of the buffer start fails. Nothing else happens before that exit. Otherwise they resume with the eax and file-system calls of `BufferEax` and `BufferCalls`, and kernel memory obeys `MemoryAfter`: console reads fill the buffer with keys, a read of a known file may change only the buffer's bytes, and every other call leaves memory unchanged |
| SyscallDispatch.DescriptorCall | pintos/src/userprog/syscall.c:114-158 | filesize, seek, tell and close resume with the eax of `DescriptorEax` (none for seek and close), the table of `FilesAfter` and the file-system calls of `DescriptorCalls`. They keep the table valid and release the lock |
| SyscallDispatch.Handle | pintos/src/userprog/syscall.c:60-159 | Once the words are read: a failed pointer check exits with ERROR; halt powers off; exit ends with its argument; an unknown number resumes with eax untouched. Every other call resumes as `EaxOf`, `FilesAfter`, `CounterAfter` and `CallsOf` say, and kernel memory obeys `MemoryAfter` (only a read may change it, and only inside its buffer). Halting or exiting changes neither the table, nor the file system, nor memory. Only an exec that passes its check changes the caller's child list, to the list `exec`'s `getchild` searched |
| SyscallDispatch.Dispatch | pintos/src/userprog/syscall.c:51-160 | A trap whose stack pointer, argument words or pointers fail a check ends the process with ERROR. In that case nothing else changes, apart from the status store in the parent's record. Otherwise the trap behaves as `Handle` says for the number at esp and the words at esp+4, esp+8 and esp+12. Slots the call does not read are 0. The descriptor table stays valid and the lock is free afterwards. The caller's child list changes only for an exec trap that passes its checks, to the list `exec`'s `getchild` searched |
| SyscallDispatch.EaxWrittenExactly | pintos/src/userprog/syscall.c:60-159 | eax is written exactly for exec, wait, create, remove, open, filesize, read, write and tell. halt, exit, seek, close and unknown numbers leave it alone |
| SyscallDispatch.ExecOfNewChild | pintos/src/userprog/syscall.c:179-197 | An exec from a caller with no record for the new pid can finish once `process_execute` has appended the fresh record and the child has reported its load outcome into it: eax is the pid on a successful load and ERROR on a failed one |
| SyscallDispatch.CallsKeepTableOk | pintos/src/userprog/syscall.c:368-414 | Every system call keeps the table strictly increasing below the counter, and the counter never decreases, so no descriptor is ever handed out twice |
| SyscallDispatch.CloseMinusOneClosesAll | pintos/src/userprog/syscall.c:344-349 | A user `close(-1)` empties the table and closes every file in it, in table order, because `CLOSE_ALL` equals -1 |
| SyscallDispatch.UnknownDescriptor | pintos/src/userprog/syscall.c:237-342 | On a descriptor not in the table, filesize and tell answer ERROR, and so do read other than on descriptor 0 and write other than on descriptor 1. seek answers nothing. None of them calls the file system or changes the table |
| SyscallDispatch.OpenWriteCloseWrite | pintos/src/userprog/syscall.c:220-349 | A successful open returns the counter as the descriptor. A write through that descriptor reaches `file_write` on the opened file. Once it is closed, both write and read through it answer ERROR |

## Left out

- `halt` is `Halted`. `shutdown_power_off` is outside the model.
- `exit` ends the process. The termination message (`printf`) and `thread_exit` are outside the model.
- `thread_alive(cur->parent)` is a parameter: the parent's list is given, or null when the parent is gone.
- `wait` returns what `process_wait` returns. userprog/process.c is not part of this model (userprog/process.h only declares `process_wait`), so its result is an `Env` field.
- `process_execute` is two `Env` fields: the pid it returns, and the caller's child list once `process_execute` has appended the new record and the child has reported into it.
- `putbuf` is outside the model: writing to descriptor 1 only returns size.
- `input_getc` is the `console` stream of keys.
- DescriptorTable.FileTable.Read: does not state which bytes `file_read` stores into the buffer, only that it changes nothing outside it, because the file's data is outside the model.
- The data `file_read` and `file_write` move is outside the model. The model records the calls and their arguments, and takes the byte counts they return as parameters.
- The file system's own state is outside the model: files are identifiers, and the file-system primitives are logged calls whose results are parameters.
- Page faults the kernel would take when it reads an unmapped user word or writes through a translated buffer past its page are outside the model. `peek` is total, and kernel memory is a map.
- Concurrency is outside the model: other threads holding `filesys_lock`, the per-record `wait_lock`, and `barrier()`. The lock is a flag that proves acquire and release are balanced.
- SyscallDispatch.Dispatch: requires that, for an exec whose stack pointer, argument word and path pointer pass their checks, the list `exec`'s `getchild` searches after `process_execute` returns (an `Env` field) holds the new pid's record with its load settled. The caller's list at trap entry need not hold it, since `process_execute` appends it with `newchild` during the call. A trap that fails a check exits before exec runs and needs nothing. `exec` spins in a loop until the child settles the load, and panics via ASSERT when the record is missing. Dispatch therefore does not model an exec that never returns. How that list arises from the caller's list (`process_execute`'s `newchild`, the children's load reports) is in userprog/process.c, which is not part of this model, so Dispatch does not relate it to the list at entry; `ExecOfNewChild` shows the case of one fresh record appended.
- ChildRegistry.Exec: requires the same, for the same reason. `SyscallDispatch.Handle` and `SyscallDispatch.PathCall` ask it only once the path pointer has passed its check.
- ChildRegistry.ChildList.NewChild: does not state the new record's status, because `newchild` never initialises it.
- DescriptorTable.FileTable.NewFile: the counter is an unbounded integer, so wrap-around of the `int` descriptor counter after 2^31 opens is not modelled.
- The `wait` and `exit` flags of a child record are carried but never changed. The code shown never sets them after `newchild`.
- `syscall_init` is outside the model: it initialises the lock and registers the interrupt handler.
- The thread code that sets the first descriptor is outside the model. The table constructor takes the first descriptor as a parameter.
- Some values come from files that are not part of this model:
  - PHYS_BASE is fixed at 0xC0000000 and the page size at 4096 bytes, the Pintos values (threads/vaddr.h).
  - The system-call numbers are 0 to 12, in the Pintos order of lib/syscall-nr.h.
  - The page directory is an abstract map from user addresses to kernel addresses, standing for userprog/pagedir.c.
- The handler's uninitialised argument slots are 0 in the model. No handler reads a slot its call does not fill.
