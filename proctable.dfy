/*
 * The global process table of syscall/proctable.c: OPEN_MAX slots indexed
 * by pid, slot 0 reserved, created on first use. The global pointer
 * GlobalProctable is the field procTable of a Kernel object. The locks and
 * the condition variable the table carries are left out, and so is every
 * field of a process but its pid.
 */
module ProcTables {
  import opened VmDefs

  /* The slots of a table, as the specification functions see them. */
  ghost predicate Sized<T>(s: seq<T>)
  {
    |s| == OPEN_MAX
  }

  class Proc {
    var pid: int

    constructor (pid: int)
      ensures this.pid == pid
    {
      this.pid := pid;
    }
  }

  /* The table get_proctable builds: every slot empty. */
  function EmptyTable(): (s: seq<Proc?>)
    ensures Sized(s) && forall k :: 0 <= k < |s| ==> s[k] == null
  {
    seq(OPEN_MAX, _ => null)
  }

  /* The lowest empty slot from i upward, or -1. */
  function FreeFrom(s: seq<Proc?>, i: nat): (r: int)
    requires 1 <= i <= |s| && forall k :: 1 <= k < i ==> s[k] != null
    ensures r == -1 <==> forall k :: 1 <= k < |s| ==> s[k] != null
    ensures r != -1 ==> i <= r < |s| && s[r] == null && forall k :: 1 <= k < r ==> s[k] != null
    decreases |s| - i
  {
    if i == |s| then -1
    else if s[i] == null then i
    else FreeFrom(s, i + 1)
  }

  /* The pid add_proc_to_table hands out: the lowest empty slot other
     than slot 0, or -1 when slots 1 to OPEN_MAX - 1 are all taken. */
  function FirstFreePid(s: seq<Proc?>): (r: int)
    requires Sized(s)
    ensures r == -1 <==> forall k :: 1 <= k < OPEN_MAX ==> s[k] != null
    ensures r != -1 ==> 1 <= r < OPEN_MAX && s[r] == null && forall k :: 1 <= k < r ==> s[k] != null
  {
    FreeFrom(s, 1)
  }

  /* add_proc_to_table on the slots: the new slots and the pid given to p
     (-1 when nothing was stored). */
  function AddSpec(s: seq<Proc?>, p: Proc): (r: (seq<Proc?>, int))
    requires Sized(s)
    ensures Sized(r.0)
    ensures r.1 == -1 <==> forall k :: 1 <= k < OPEN_MAX ==> s[k] != null
    ensures r.1 == -1 ==> r.0 == s
    ensures r.1 != -1 ==>
      1 <= r.1 < OPEN_MAX && s[r.1] == null && (forall k :: 1 <= k < r.1 ==> s[k] != null) &&
      r.0[r.1] == p && forall k :: 0 <= k < OPEN_MAX && k != r.1 ==> r.0[k] == s[k]
  {
    var j := FirstFreePid(s);
    if j == -1 then (s, -1) else (s[j := p], j)
  }

  /* The pid check of get_proc_by_pid as written: it turns away only pid 0
     and pids above OPEN_MAX. */
  function PidCheckAsWritten(pid: int): (admitted: bool)
    ensures admitted <==> pid < 0 || 0 < pid <= OPEN_MAX
  {
    !(pid == 0 || pid > OPEN_MAX)
  }

  /* The check as written lets through pid OPEN_MAX and negative pids, none
     of which indexes the OPEN_MAX slots: processes[pid] is read past
     either end of the array. */
  lemma PidCheckReadsOutsideTable()
    ensures PidCheckAsWritten(OPEN_MAX) && PidCheckAsWritten(-1)
    ensures !(0 <= OPEN_MAX < OPEN_MAX) && !(0 <= -1 < OPEN_MAX)
  {
  }

  /* get_proc_by_pid with the bound the table needs: NULL for pid 0 and for
     every pid that is not a slot, else the slot. */
  function LookupPid(s: seq<Proc?>, pid: int): (r: Proc?)
    requires Sized(s)
    ensures r != null ==> 0 < pid < OPEN_MAX && r == s[pid]
    ensures 0 < pid < OPEN_MAX ==> r == s[pid]
  {
    if 0 < pid < OPEN_MAX then s[pid] else null
  }

  /* The guard of remove_proc_from_table as written: p_pid < OPEN_MAX,
     which a negative pid passes. */
  function RemoveCheckAsWritten(pid: int): (admitted: bool)
    ensures admitted <==> pid < OPEN_MAX
  {
    pid < OPEN_MAX
  }

  lemma RemoveCheckReadsOutsideTable()
    ensures RemoveCheckAsWritten(-1) && !(0 <= -1 < OPEN_MAX)
  {
  }

  /* remove_proc_from_table with the lower bound added: slot pid is
     emptied when it is a slot and holds p; otherwise nothing changes. */
  function RemoveSpec(s: seq<Proc?>, p: Proc, pid: int): (r: seq<Proc?>)
    requires Sized(s)
    ensures Sized(r)
    ensures (0 <= pid < OPEN_MAX && s[pid] == p) ==> r == s[pid := null]
    ensures !(0 <= pid < OPEN_MAX && s[pid] == p) ==> r == s
  {
    if 0 <= pid < OPEN_MAX && s[pid] == p then s[pid := null] else s
  }

  /* After add_proc_to_table(p) stores p, get_proc_by_pid(p->p_pid) finds
     it; every other pid finds what it found before. */
  lemma AddThenLookup(s: seq<Proc?>, p: Proc, pid: int)
    requires Sized(s)
    ensures var (t, j) := AddSpec(s, p);
      (j != -1 ==> LookupPid(t, j) == p) &&
      (pid != j ==> LookupPid(t, pid) == LookupPid(s, pid))
  {
  }

  /* remove_proc_from_table(p) with p's own pid empties its slot, so
     get_proc_by_pid no longer finds p there. */
  lemma RemoveThenLookup(s: seq<Proc?>, p: Proc, pid: int)
    requires Sized(s) && LookupPid(s, pid) == p
    ensures LookupPid(RemoveSpec(s, p, pid), pid) == null
  {
  }

  /* A sequence of table operations. */
  datatype TableOp = Add(p: Proc) | Remove(p: Proc, pid: int)

  function Run(s: seq<Proc?>, ops: seq<TableOp>): (r: seq<Proc?>)
    requires Sized(s)
    ensures Sized(r)
    decreases |ops|
  {
    if ops == [] then s
    else
      var t := match ops[0]
        case Add(p) => AddSpec(s, p).0
        case Remove(p, pid) => RemoveSpec(s, p, pid);
      Run(t, ops[1..])
  }

  /* Once p is in the table under pid, get_proc_by_pid(pid) returns p
     whatever other processes are added or removed, until p itself is
     removed under that pid. */
  lemma {:induction false} LookupLastsUntilRemoved(s: seq<Proc?>, p: Proc, pid: int, ops: seq<TableOp>)
    requires Sized(s) && LookupPid(s, pid) == p
    requires forall k :: 0 <= k < |ops| ==> ops[k] != Remove(p, pid)
    ensures LookupPid(Run(s, ops), pid) == p
    decreases |ops|
  {
    if ops != [] {
      var t := match ops[0]
        case Add(q) => AddSpec(s, q).0
        case Remove(q, qpid) => RemoveSpec(s, q, qpid);
      assert LookupPid(t, pid) == p;
      assert forall k :: 0 <= k < |ops[1..]| ==> ops[1..][k] == ops[k + 1];
      LookupLastsUntilRemoved(t, p, pid, ops[1..]);
    }
  }

  /* What can_add_to_proctable tests: some slot, slot 0 included, holds a
     process. */
  ghost predicate AnyOccupied(s: seq<Proc?>)
  {
    exists k :: 0 <= k < |s| && s[k] != null
  }

  /* can_add_to_proctable as written answers the opposite question to the
     one add_proc_to_table needs: on the empty table it says no although a
     slot is free, and on a full table it says yes although none is. */
  lemma CanAddAsWrittenIsInverted(p: Proc)
    ensures !AnyOccupied(EmptyTable()) && FirstFreePid(EmptyTable()) != -1
    ensures var full := seq(OPEN_MAX, _ => p);
      AnyOccupied(full) && FirstFreePid(full) == -1
  {
    var full := seq(OPEN_MAX, _ => p);
    assert full[0] != null;
  }

  class ProcTable {
    var processes: array<Proc?>
    var numRunning: int

    ghost predicate Valid()
      reads this
    {
      processes.Length == OPEN_MAX
    }

    /* kmalloc, then every slot set to NULL and num_running to 0. */
    constructor ()
      ensures Valid() && fresh(processes) && processes[..] == EmptyTable() && numRunning == 0
    {
      var slots := new Proc?[OPEN_MAX];
      var i := 0;
      while i < OPEN_MAX
        invariant 0 <= i <= OPEN_MAX
        invariant forall k :: 0 <= k < i ==> slots[k] == null
      {
        slots[i] := null;
        i := i + 1;
      }
      processes := slots;
      numRunning := 0;
    }
  }

  class Kernel {
    var procTable: ProcTable?

    ghost predicate Valid()
      reads this, procTable
    {
      procTable != null ==> procTable.Valid()
    }

    /* The slots get_proctable would return: the existing table's, or a
       new empty table's. */
    ghost function Contents(): seq<Proc?>
      requires Valid()
      reads this, procTable, if procTable == null then {} else {procTable.processes}
    {
      if procTable == null then EmptyTable() else procTable.processes[..]
    }

    /* get_proctable: the first call creates the table, later calls return
       the same one. */
    method GetProctable() returns (t: ProcTable)
      requires Valid()
      modifies this
      ensures Valid() && procTable == t && t.processes[..] == old(Contents())
      ensures old(procTable) != null ==> t == old(procTable)
      ensures old(procTable) == null ==> fresh(t) && fresh(t.processes) && t.numRunning == 0
    {
      if procTable == null {
        procTable := new ProcTable();
      }
      t := procTable;
    }

    /* get_proc_by_pid, with the bound the table needs (the check as
       written is PidCheckAsWritten). */
    method GetProcByPid(pid: int) returns (p: Proc?)
      requires Valid()
      modifies this
      ensures Valid() && procTable != null && procTable.processes[..] == old(Contents())
      ensures old(procTable) != null ==> procTable == old(procTable)
      ensures p == LookupPid(old(Contents()), pid)
    {
      var t := GetProctable();
      if pid <= 0 || pid >= OPEN_MAX {
        return null;
      }
      return t.processes[pid];
    }

    /* add_proc_to_table: p goes into the lowest empty slot from 1 upward
       and p_pid becomes that slot; on a full table nothing changes. */
    method AddProcToTable(p: Proc)
      requires Valid()
      modifies this, p, if procTable == null then {} else {procTable.processes}
      ensures Valid() && procTable != null
      ensures old(procTable) != null ==> procTable == old(procTable)
      ensures var (s, j) := AddSpec(old(Contents()), p);
        procTable.processes[..] == s && p.pid == (if j == -1 then old(p.pid) else j)
    {
      var t := GetProctable();
      ghost var s0 := t.processes[..];
      var i := 1;
      while i < OPEN_MAX
        invariant 1 <= i <= OPEN_MAX && procTable == t && t.processes[..] == s0 && p.pid == old(p.pid)
        invariant forall k :: 1 <= k < i ==> t.processes[k] != null
      {
        if t.processes[i] == null {
          assert FirstFreePid(s0) == i;
          t.processes[i] := p;
          p.pid := i;
          return;
        }
        i := i + 1;
      }
    }

    /* remove_proc_from_table, with the lower bound the table needs (the
       guard as written is RemoveCheckAsWritten): slot p_pid is emptied
       when it holds p. */
    method RemoveProcFromTable(p: Proc)
      requires Valid()
      modifies this, if procTable == null then {} else {procTable.processes}
      ensures Valid() && procTable != null
      ensures old(procTable) != null ==> procTable == old(procTable)
      ensures procTable.processes[..] == RemoveSpec(old(Contents()), p, p.pid)
    {
      var t := GetProctable();
      if 0 <= p.pid < OPEN_MAX {
        if t.processes[p.pid] == p {
          t.processes[p.pid] := null;
          return;
        }
      }
    }

    /* can_add_to_proctable as written: true when some slot holds a
       process. It reads GlobalProctable without get_proctable, so before
       the table exists it dereferences NULL. */
    method CanAddToProctable() returns (o: Outcome<bool>)
      requires Valid()
      ensures procTable == null ==> o == Stop(NullDeref)
      ensures procTable != null ==> o == Done(AnyOccupied(procTable.processes[..]))
    {
      if procTable == null {
        return Stop(NullDeref);
      }
      var i := 0;
      while i < OPEN_MAX
        invariant 0 <= i <= OPEN_MAX
        invariant forall k :: 0 <= k < i ==> procTable.processes[k] == null
      {
        if procTable.processes[i] != null {
          assert procTable.processes[..][i] != null;
          return Done(true);
        }
        i := i + 1;
      }
      return Done(false);
    }

    /* What can_add_to_proctable is for: whether add_proc_to_table would
       find a slot. A table not yet created would be created empty, with
       every pid free. */
    method HasFreePid() returns (b: bool)
      requires Valid()
      ensures b <==> FirstFreePid(Contents()) != -1
    {
      if procTable == null {
        assert FirstFreePid(EmptyTable()) == 1;
        return true;
      }
      var i := 1;
      while i < OPEN_MAX
        invariant 1 <= i <= OPEN_MAX
        invariant forall k :: 1 <= k < i ==> procTable.processes[k] != null
      {
        if procTable.processes[i] == null {
          return true;
        }
        i := i + 1;
      }
      return false;
    }
  }
}
