/** The user-pointer checks of userprog/syscall.c: check_valid_ptr,
    UK_pointer, check_valid_buffer and get_arg. A failed check ends the
    calling process with exit(ERROR); here that is a result the caller
    turns into that exit. */
module PointerValidator {
  import opened SyscallDefs

  /** Lowest address a user pointer may hold. */
  const USER_VADDR_BOTTOM: u32 := 0x0804_8000
  /** Start of kernel virtual memory (the value of PHYS_BASE in pintos). */
  const PHYS_BASE: u32 := 0xC000_0000
  /** Size in bytes of a page (PGSIZE in pintos). */
  const PGSIZE: nat := 0x1000
  /** Size in bytes of one argument word on the user stack. */
  const WORD_SIZE: nat := 4

  /** is_user_vaddr: the address lies below kernel memory. */
  predicate IsUserVaddr(a: u32) {
    a < PHYS_BASE
  }

  /** check_valid_ptr returns exactly when this holds; otherwise it calls
      exit(ERROR). The mapping of the page is not consulted. */
  predicate CheckValidPtr(a: u32): (ok: bool)
    ensures ok <==> 0x0804_8000 <= a < 0xC000_0000
  {
    IsUserVaddr(a) && a >= USER_VADDR_BOTTOM
  }

  /** The process's page directory as the translation pagedir_get_page
      performs: a mapped user address to its kernel virtual address. An
      address outside the map is unmapped, for which the lookup yields the
      null pointer 0. */
  type PageDir = map<u32, u32>

  function PagedirGetPage(pd: PageDir, a: u32): u32 {
    if a in pd then pd[a] else 0
  }

  /** UK_pointer: the kernel address of a, or None where UK_pointer calls
      exit(ERROR) — an address check_valid_ptr refuses, or one whose page is
      not mapped. */
  function UKPointer(pd: PageDir, a: u32): (r: Option<u32>)
    ensures r.Some? <==> CheckValidPtr(a) && a in pd && pd[a] != 0
    ensures r.Some? ==> r.value == pd[a] && r.value != 0
  {
    if !CheckValidPtr(a) then None
    else
      var ptr := PagedirGetPage(pd, a);
      if ptr == 0 then None else Some(ptr)
  }

  // ---------------------------------------------------------------------
  // check_valid_buffer
  // ---------------------------------------------------------------------

  /** Address of byte i of a buffer starting at b (pointer arithmetic wraps). */
  function ByteAddr(b: u32, i: int): u32 {
    ToU32(b + i)
  }

  /** What check_valid_buffer lets through: each of the n bytes passes
      check_valid_ptr. Whether those bytes are mapped is not asked. */
  predicate BufferOk(b: u32, n: nat) {
    forall i :: 0 <= i < n ==> CheckValidPtr(ByteAddr(b, i))
  }

  /** check_valid_buffer walks the bytes b, b+1, ..., b+size-1 in order and
      stops at the first one check_valid_ptr refuses, where the process
      exits. The result is the position of that byte, or None when the
      walk completes; size 0 checks nothing. */
  method CheckValidBuffer(buffer: u32, size: u32) returns (bad: Option<nat>)
    ensures bad.None? <==> BufferOk(buffer, size)
    ensures bad.Some? ==> bad.value < size && !CheckValidPtr(ByteAddr(buffer, bad.value))
    ensures bad.Some? ==> BufferOk(buffer, bad.value)
  {
    var i: nat := 0;
    var p := buffer;
    while i < size
      invariant i <= size
      invariant p == ByteAddr(buffer, i)
      invariant BufferOk(buffer, i)
    {
      if !CheckValidPtr(p) {
        return Some(i);
      }
      NextByteAddr(buffer, i);
      p := ToU32(p + 1);
      i := i + 1;
    }
    return None;
  }

  lemma NextByteAddr(b: u32, i: int)
    ensures ToU32(ByteAddr(b, i) + 1) == ByteAddr(b, i + 1)
  {
    var w := WORD_MODULUS;
    var q := (b + i) / w;
    assert b + i == q * w + ByteAddr(b, i);
    assert b + i + 1 == q * w + (ByteAddr(b, i) + 1);
    if ByteAddr(b, i) + 1 == w {
      assert b + i + 1 == (q + 1) * w;
    }
  }

  /** A buffer that passes the check lies wholly inside user memory: its
      bytes are consecutive addresses that never wrap around and never
      reach PHYS_BASE. */
  lemma {:induction false} BufferOkIsUserRange(b: u32, n: nat)
    requires n > 0 && BufferOk(b, n)
    ensures USER_VADDR_BOTTOM <= b && b + n <= PHYS_BASE
  {
    assert CheckValidPtr(ByteAddr(b, 0));
    // the first address past user memory, which the check would refuse
    var i := PHYS_BASE - b;
    assert ByteAddr(b, i) == PHYS_BASE;
  }

  /** The check is on bounds only: a two-byte buffer that starts on the
      last byte of a mapped page and runs onto the next page, which is not
      mapped, is still accepted. */
  lemma BufferCheckIgnoresMapping()
    ensures var b: u32 := 0x0804_8FFF;
            var pd: PageDir := map[b := 0xC010_0FFF];
            BufferOk(b, 2) &&
            ByteAddr(b, 1) / PGSIZE == b / PGSIZE + 1 &&
            UKPointer(pd, b).Some? &&
            UKPointer(pd, ByteAddr(b, 1)).None?
  {
    assert ByteAddr(0x0804_8FFF, 1) == 0x0804_9000;
  }

  // ---------------------------------------------------------------------
  // get_arg
  // ---------------------------------------------------------------------

  /** Address of argument word i: the (i+1)-th int above the stack pointer. */
  function ArgAddr(esp: u32, i: nat): u32 {
    ToU32(esp + WORD_SIZE * (i + 1))
  }

  /** All of the first n argument words pass check_valid_ptr. */
  predicate ArgsOk(esp: u32, n: nat) {
    forall i :: 0 <= i < n ==> CheckValidPtr(ArgAddr(esp, i))
  }

  /** get_arg: for i = 0, 1, ..., n-1, checks the address of argument word i
      and then stores the word read there into arg[i]. The result is the
      number of words stored: n, or the position whose address failed the
      check, where the process exits. Slots from that position on are left
      as they were. Only the first byte of each word is checked. */
  method GetArg(esp: u32, peek: u32 -> i32, arg: array<i32>, n: nat) returns (stored: nat)
    requires n <= arg.Length
    modifies arg
    ensures stored <= n
    ensures stored == n <==> ArgsOk(esp, n)
    ensures stored < n ==> ArgsOk(esp, stored) && !CheckValidPtr(ArgAddr(esp, stored))
    ensures forall i :: 0 <= i < stored ==> arg[i] == peek(ArgAddr(esp, i))
    ensures forall i :: stored <= i < arg.Length ==> arg[i] == old(arg[i])
  {
    stored := 0;
    while stored < n
      invariant stored <= n
      invariant ArgsOk(esp, stored)
      invariant forall i :: 0 <= i < stored ==> arg[i] == peek(ArgAddr(esp, i))
      invariant forall i :: stored <= i < arg.Length ==> arg[i] == old(arg[i])
    {
      var ptr := ArgAddr(esp, stored);
      if !CheckValidPtr(ptr) {
        return;
      }
      arg[stored] := peek(ptr);
      stored := stored + 1;
    }
  }

  /** Only the first byte of an argument word is checked: a stack pointer
      that passes, with an argument word that starts in user memory and
      ends in kernel memory, gets through get_arg. */
  lemma ArgWordMayCrossIntoKernel()
    ensures var esp: u32 := PHYS_BASE - 5;
            CheckValidPtr(esp) && ArgsOk(esp, 1) &&
            ArgAddr(esp, 0) + WORD_SIZE - 1 >= PHYS_BASE
  {
    assert ArgAddr(PHYS_BASE - 5, 0) == PHYS_BASE - 1;
  }
}
