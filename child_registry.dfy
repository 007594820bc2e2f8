/** The per-process list of child records of userprog/syscall.c (newchild,
    getchild, byechild, byechildren) and the load-outcome check of exec.
    A record's identity (the pointer getchild returns and byechild takes)
    is its position in the list. */
module ChildRegistry {
  import opened SyscallDefs

  /** Position of the first record for pid, or |children| when there is none. */
  function PidIndex(children: seq<ChildProcess>, pid: int): (k: nat)
    ensures k <= |children|
    ensures forall j :: 0 <= j < k ==> children[j].pid != pid
    ensures k < |children| ==> children[k].pid == pid
  {
    FindFirst(children, (cp: ChildProcess) => cp.pid == pid)
  }

  /** getchild: the first record whose pid is pid, or None (NULL). */
  function GetChild(children: seq<ChildProcess>, pid: int): (r: Option<nat>)
    ensures r.None? <==> forall i :: 0 <= i < |children| ==> children[i].pid != pid
    ensures r.Some? ==>
      r.value < |children| && children[r.value].pid == pid &&
      forall j :: 0 <= j < r.value ==> children[j].pid != pid
  {
    var k := PidIndex(children, pid);
    if k < |children| then Some(k) else None
  }

  /** The record newchild(pid) creates: nothing loaded, not waited on, not
      exited. Its status is whatever the fresh allocation held. */
  predicate FreshRecord(cp: ChildProcess, pid: int) {
    cp.pid == pid && cp.load == NOT_LOADED && !cp.wait && !cp.exit
  }

  /** exec may read the load outcome of pid: getchild finds its record (exec
      ASSERTs this) and the child has reported its outcome, which is
      when the spin loop ends. */
  predicate ExecReady(children: seq<ChildProcess>, pid: int) {
    GetChild(children, pid).Some? && !LoadPending(children[GetChild(children, pid).value].load)
  }

  /** exec after process_execute returned pid: ERROR when the child's record
      says its load failed, otherwise pid. The result is ERROR exactly when
      the load failed or pid is itself ERROR. */
  function Exec(children: seq<ChildProcess>, pid: int): (r: int)
    requires ExecReady(children, pid)
    ensures r == pid || r == ERROR
    ensures var load := children[GetChild(children, pid).value].load;
            r == ERROR <==> load == LOAD_FAIL || pid == ERROR
  {
    var cp := children[GetChild(children, pid).value];
    if cp.load == LOAD_FAIL then ERROR else pid
  }

  /** After removing a record, a search for a different pid finds the same
      record as before, and a pid that had one record has none. */
  lemma {:induction false} GetChildAfterRemoval(children: seq<ChildProcess>, pid: int, other: int)
    requires GetChild(children, pid).Some?
    ensures var k := GetChild(children, pid).value;
            var r := RemoveAt(children, k);
            other != pid ==>
              (GetChild(r, other).Some? <==> GetChild(children, other).Some?) &&
              (GetChild(children, other).Some? ==> r[GetChild(r, other).value] == children[GetChild(children, other).value])
    ensures var k := GetChild(children, pid).value;
            (forall j :: k < j < |children| ==> children[j].pid != pid) ==>
              GetChild(RemoveAt(children, k), pid).None?
  {
    var k := GetChild(children, pid).value;
    var r := RemoveAt(children, k);
    if other != pid {
      FindFirstAfterRemoval(children, (cp: ChildProcess) => cp.pid == pid, (cp: ChildProcess) => cp.pid == other);
    }
    if forall j :: k < j < |children| ==> children[j].pid != pid {
      forall i | 0 <= i < |r| ensures r[i].pid != pid {
        if i < k { assert r[i] == children[i]; } else { assert r[i] == children[i + 1]; }
      }
    }
  }

  /** The exec handshake. Right after newchild(pid) for a pid without a
      record, exec is not ready: it spins. Once the child stores its load
      outcome in the record, exec is ready and answers pid after a
      successful load and ERROR after a failed one. */
  lemma {:induction false} ExecHandshake(children: seq<ChildProcess>, rec: ChildProcess, outcome: int)
    requires GetChild(children, rec.pid).None? && FreshRecord(rec, rec.pid)
    requires outcome == LOAD_SUCCESS || outcome == LOAD_FAIL
    requires rec.pid != ERROR
    ensures !ExecReady(children + [rec], rec.pid)
    ensures var reported := children + [rec.(load := outcome)];
            ExecReady(reported, rec.pid) &&
            Exec(reported, rec.pid) == (if outcome == LOAD_FAIL then ERROR else rec.pid)
  {
    var spawned := children + [rec];
    var reported := children + [rec.(load := outcome)];
    assert spawned[|children|] == rec;
    assert reported[|children|].pid == rec.pid;
    assert GetChild(spawned, rec.pid) == Some(|children|);
    assert GetChild(reported, rec.pid) == Some(|children|);
  }

  /** The child_list of the current thread. */
  class ChildList {
    var children: seq<ChildProcess>

    constructor ()
      ensures children == []
    {
      children := [];
    }

    /** newchild: appends a fresh record for pid and returns it. If pid had
        no record before, getchild now finds the new one. */
    method NewChild(pid: int) returns (cp: nat)
      modifies this
      ensures cp == |old(children)| && |children| == cp + 1
      ensures children[..cp] == old(children) && FreshRecord(children[cp], pid)
      ensures GetChild(old(children), pid).None? ==> GetChild(children, pid) == Some(cp)
      ensures GetChild(old(children), pid).Some? ==> GetChild(children, pid) == GetChild(old(children), pid)
    {
      cp := |children|;
      children := children + [ChildProcess(pid, NOT_LOADED, false, false, 0)];
      assert children[..cp] == old(children);
    }

    /** byechild: unlinks the record at position cp, keeping the others in
        order. */
    method ByeChild(cp: nat)
      requires cp < |children|
      modifies this
      ensures children == RemoveAt(old(children), cp)
    {
      children := RemoveAt(children, cp);
    }

    /** byechildren: unlinks every record, front to back. */
    method ByeChildren()
      modifies this
      ensures children == []
    {
      while children != []
        invariant |children| <= |old(children)|
        invariant children == old(children)[|old(children)| - |children|..]
        decreases |children|
      {
        children := RemoveAt(children, 0);
      }
    }

    /** The store exit makes into the caller's own record, held in its
        parent's list: cur->cp->status = status. */
    method RecordStatus(cp: nat, status: int)
      requires cp < |children|
      modifies this
      ensures children == old(children)[cp := old(children)[cp].(status := status)]
    {
      children := children[cp := children[cp].(status := status)];
    }
  }
}
