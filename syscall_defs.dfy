/** Constants and the child record of userprog/syscall.h, together with the
    machine-word conversions and the list walk that the system-call layer
    relies on. */
module SyscallDefs {

  datatype Option<T> = None | Some(value: T)

  /** Argument of byefile that closes every descriptor. */
  const CLOSE_ALL: int := -1
  /** Failure result of exec, open, filesize, read, write and tell. */
  const ERROR: int := -1

  /** Load states of a child record: pending, then one of two outcomes. */
  const NOT_LOADED: int := 0
  const LOAD_SUCCESS: int := 1
  const LOAD_FAIL: int := 2

  /** struct child_process, without its wait_lock and its list link. */
  datatype ChildProcess = ChildProcess(pid: int, load: int, wait: bool, exit: bool, status: int)

  /** The exec spin loop keeps waiting while a record is in this state. */
  predicate LoadPending(load: int) {
    load == NOT_LOADED
  }

  /** The three load states are distinct, and only the first is pending:
      the two outcomes are final as far as exec is concerned. */
  lemma LoadStates()
    ensures NOT_LOADED != LOAD_SUCCESS && NOT_LOADED != LOAD_FAIL && LOAD_SUCCESS != LOAD_FAIL
    ensures LoadPending(NOT_LOADED) && !LoadPending(LOAD_SUCCESS) && !LoadPending(LOAD_FAIL)
  {
  }

  // ---------------------------------------------------------------------
  // 32-bit machine words (pointers, registers, `int` and `unsigned`)
  // ---------------------------------------------------------------------

  const WORD_MODULUS: int := 0x1_0000_0000

  type u32 = x: int | 0 <= x < 0x1_0000_0000
  type i32 = x: int | -0x8000_0000 <= x < 0x8000_0000
  type byte = x: int | 0 <= x < 0x100

  /** Conversion to an unsigned word: the word congruent to x modulo 2^32. */
  function ToU32(x: int): (w: u32)
    ensures (x - w) % WORD_MODULUS == 0
    ensures 0 <= x < WORD_MODULUS ==> w == x
  {
    x % WORD_MODULUS
  }

  /** Conversion to a signed word (two's complement reinterpretation). */
  function ToI32(x: int): (v: i32)
    ensures ToU32(v) == ToU32(x)
    ensures -0x8000_0000 <= x < 0x8000_0000 ==> v == x
  {
    var w := ToU32(x);
    if w < 0x8000_0000 then w else w - WORD_MODULUS
  }

  /** The bytes a word of -1 holds: what ERROR becomes in an unsigned result. */
  lemma ErrorWord()
    ensures ToU32(ERROR) == 0xFFFF_FFFF
    ensures ToU32(CLOSE_ALL) == ToU32(ERROR)
  {
  }

  // ---------------------------------------------------------------------
  // The list walk of getfile and getchild
  // ---------------------------------------------------------------------

  /** Position of the first element satisfying p, or |s| when there is none. */
  function FindFirst<T>(s: seq<T>, p: T -> bool): (k: nat)
    ensures k <= |s|
    ensures forall j :: 0 <= j < k ==> !p(s[j])
    ensures k < |s| ==> p(s[k])
  {
    if s == [] then 0
    else if p(s[0]) then 0
    else 1 + FindFirst(s[1..], p)
  }

  /** s without its element at position k, the others in their order. */
  function RemoveAt<T>(s: seq<T>, k: nat): (r: seq<T>)
    requires k < |s|
    ensures |r| == |s| - 1
    ensures forall j :: 0 <= j < k ==> r[j] == s[j]
    ensures forall j :: k <= j < |r| ==> r[j] == s[j + 1]
  {
    s[..k] + s[k + 1..]
  }

  /** After removing the first element that satisfies p, a search for q that
      the removed element does not satisfy finds the same element as before. */
  lemma {:induction false} FindFirstAfterRemoval<T>(s: seq<T>, p: T -> bool, q: T -> bool)
    requires FindFirst(s, p) < |s|
    requires !q(s[FindFirst(s, p)])
    ensures var k := FindFirst(s, p);
            var r := RemoveAt(s, k);
            (FindFirst(r, q) < |r| <==> FindFirst(s, q) < |s|) &&
            (FindFirst(s, q) < |s| ==> r[FindFirst(r, q)] == s[FindFirst(s, q)])
  {
    var k := FindFirst(s, p);
    var r := RemoveAt(s, k);
    var a := FindFirst(s, q);
    var b := FindFirst(r, q);
    if a < k {
      // the match lies before the removed position, where r and s agree
      assert r[a] == s[a];
      assert b == a;
    } else {
      // nothing before k matches, and a != k, so the match moved down by one
      if a < |s| {
        assert a > k;
        assert r[a - 1] == s[a];
        assert b == a - 1;
      }
    }
  }
}
