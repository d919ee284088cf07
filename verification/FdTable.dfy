/**
 The descriptor table of a process over a bitmap of unused descriptors
 (os/src/fs/fd_table.rs, and `sys_dup3` and `sys_close` of os/src/syscall/fs.rs).
 */
module FdTable {

  import opened Bitmap
  import opened Options

  const MAX_FD: nat := 256
  const O_RDONLY: nat := 0
  const O_WRONLY: nat := 1

  /** An open file, its close-on-exec flag, and its other open flags. */
  datatype FdInfo = FdInfo(file: nat, flags: nat, cloexec: bool)

  type Table = map<nat, FdInfo>

  /** Standard input, output and error: descriptors 0, 1 and 2. */
  function Stdio(fd: nat): FdInfo
    requires fd < 3
  {
    FdInfo(fd, if fd == 0 then O_RDONLY else O_WRONLY, false)
  }

  ghost predicate IsStdio(table: Table) {
    (forall fd :: fd in table ==> fd < 3) && forall fd :: 0 <= fd < 3 ==> fd in table && table[fd] == Stdio(fd)
  }

  /** `Panic` is an index past the end of the bitmap, or flag bits that are not defined. */
  datatype Outcome = BadFd | Invalid | Panic | Placed(ok: bool)

  ghost predicate InRange(table: Table) {
    forall fd :: fd in table ==> fd < MAX_FD
  }

  /** The lowest descriptor not in use, as `open`, `dup` and `pipe` must return it. */
  ghost predicate IsLowest(table: Table, fd: nat) {
    fd < MAX_FD && fd !in table && forall k :: 0 <= k < fd ==> k in table
  }

  ghost predicate AllUsed(table: Table) {
    forall k :: 0 <= k < MAX_FD ==> k in table
  }

  function CloneOf(table: Table): Table {
    map fd | fd in table.Keys + {0, 1, 2} :: if fd < 3 then Stdio(fd) else table[fd]
  }

  /** A child sees its parent's descriptors exactly when the parent still has the three standard ones. */
  lemma CloneIsCopy(table: Table)
    ensures CloneOf(table) == table <==> forall fd :: 0 <= fd < 3 ==> fd in table && table[fd] == Stdio(fd)
    ensures forall fd :: fd >= 3 ==> (fd in CloneOf(table) <==> fd in table)
    ensures forall fd :: fd >= 3 && fd in table ==> CloneOf(table)[fd] == table[fd]
  {
    if CloneOf(table) == table {
      forall fd | 0 <= fd < 3 ensures fd in table && table[fd] == Stdio(fd) {
        assert fd in CloneOf(table) && CloneOf(table)[fd] == Stdio(fd);
      }
    }
  }

  /** What is opened next after closing `fd` gets `fd` back if nothing lower was unused. */
  lemma Reopened(table: Table, fd: nat, next: nat, info: FdInfo)
    requires fd in table && fd < MAX_FD && IsLowest(table - {fd}, next)
    ensures next <= fd
    ensures next == fd <==> forall k :: 0 <= k < fd ==> k in table
    ensures next == fd ==> (table - {fd})[next := info] == table[fd := info]
  {
    assert fd !in table - {fd};
    if next == fd {
      forall k | 0 <= k < fd ensures k in table {
        assert k in table - {fd};
      }
    }
  }

  /** All descriptors but the standard three, in a tree that holds `MAX_FD` indices. */
  method AllocatorOf(level: nat, ghost table: Table) returns (b: BitAlloc)
    requires Cap(level) == MAX_FD && IsStdio(table)
    ensures b.Valid() && Cap(b.level) == MAX_FD && fresh(b.Repr) && Complement(b.Free, table)
  {
    b := new BitAlloc(level);
    b.ForRange(3, MAX_FD, true);
    StdioLeaves(b.Free, table);
  }

  method NewParts() returns (b: BitAlloc, table: Table)
    ensures b.Valid() && Cap(b.level) == MAX_FD && fresh(b.Repr)
    ensures Complement(b.Free, table) && IsStdio(table)
  {
    CapIs256();
    table := NewTable();
    b := AllocatorOf(1, table);
  }

  method NewTable() returns (table: Table)
    ensures IsStdio(table)
  {
    table := map[0 := Stdio(0), 1 := Stdio(1), 2 := Stdio(2)];
  }

  class FdTable {
    const bitmap: BitAlloc
    const rlimit: nat
    var fdTable: Table

    ghost predicate Valid()
      reads this, bitmap, bitmap.Repr
    {
      && this !in bitmap.Repr && bitmap.Valid() && Cap(bitmap.level) == MAX_FD && rlimit == MAX_FD
      && Complement(bitmap.Free, fdTable)
    }

    constructor ()
      ensures Valid() && fresh(bitmap.Repr) && IsStdio(fdTable)
      ensures fdTable[0].flags == O_RDONLY && fdTable[1].flags == O_WRONLY && fdTable[2].flags == O_WRONLY
      ensures forall fd :: fd in fdTable ==> fdTable[fd].file == fd && !fdTable[fd].cloexec
    {
      var allocator, table := NewParts();
      bitmap := allocator;
      rlimit := MAX_FD;
      fdTable := table;
    }

    method InsertGetFd(info: FdInfo) returns (r: Option<nat>)
      requires Valid()
      modifies this, bitmap.Repr
      ensures Valid()
      ensures r.Some? ==> IsLowest(old(fdTable), r.value) && fdTable == old(fdTable)[r.value := info]
      ensures r.None? ==> AllUsed(fdTable) && fdTable == old(fdTable)
    {
      ghost var free := bitmap.Free;
      r := bitmap.Alloc();
      if r.Some? {
        fdTable := fdTable[r.value := info];
      }
    }

    method AllocSpecFd(fd: nat) returns (ok: bool)
      requires fd < MAX_FD && bitmap.Valid() && Cap(bitmap.level) == MAX_FD
      modifies bitmap.Repr
      ensures bitmap.Valid() && ok == (fd in old(bitmap.Free)) && bitmap.Free == old(bitmap.Free) - {fd}
    {
      ok := bitmap.Test(fd);
      if ok {
        bitmap.ForRange(fd, fd + 1, false);
        assert bitmap.Free == old(bitmap.Free) - {fd};
      }
    }

    /** The limit is inclusive here and not in the bitmap, so the limit itself is not refused. */
    method InsertSpecFd(fd: nat, info: FdInfo) returns (r: Outcome)
      requires Valid()
      modifies this, bitmap.Repr
      ensures Valid()
      ensures r == if fd > MAX_FD then BadFd else if fd == MAX_FD then Panic else Placed(fd !in old(fdTable))
      ensures fdTable == if r == Placed(true) then old(fdTable)[fd := info] else old(fdTable)
    {
      if fd > rlimit {
        return BadFd;
      } else if fd == MAX_FD {
        return Panic;
      }
      var ok := AllocSpecFd(fd);
      if ok {
        fdTable := fdTable[fd := info];
      }
      return Placed(ok);
    }

    method Close(fd: nat)
      requires Valid() && fd in fdTable
      modifies this, bitmap.Repr
      ensures Valid() && fdTable == old(fdTable) - {fd}
    {
      fdTable := fdTable - {fd};
      bitmap.Dealloc(fd);
    }

    /**
     After it both descriptors name one file. The other flags come from the old descriptor
     only when the new one was unused; over an open one they are the caller's. `defined`
     says whether the caller's bits are all ones that `OpenFlags` has.
     */
    method Dup3(oldfd: nat, newfd: nat, flags: nat, cloexec: bool, defined: bool) returns (r: Outcome)
      requires Valid()
      modifies this, bitmap.Repr
      ensures Valid()
      ensures r == if oldfd == newfd then Invalid
                   else if oldfd !in old(fdTable) then BadFd
                   else if !defined then Panic
                   else if newfd > MAX_FD then BadFd
                   else if newfd == MAX_FD then Panic else Placed(true)
      ensures r != Placed(true) ==> fdTable == old(fdTable)
      ensures r == Placed(true) ==>
        fdTable == old(fdTable)[newfd :=
          FdInfo(old(fdTable)[oldfd].file, if newfd in old(fdTable) then flags else old(fdTable)[oldfd].flags, cloexec)]
    {
      if oldfd == newfd {
        return Invalid;
      } else if oldfd !in fdTable {
        return BadFd;
      }
      if !defined {
        return Panic;
      }
      var info := fdTable[oldfd];
      r := InsertSpecFd(newfd, info.(cloexec := cloexec));
      if r == Placed(false) {
        Close(newfd);
        r := InsertSpecFd(newfd, FdInfo(info.file, flags, cloexec));
      }
    }

    method CloseExec()
      requires Valid()
      modifies this, bitmap.Repr
      ensures Valid()
      ensures forall fd :: fd in fdTable <==> fd in old(fdTable) && !old(fdTable)[fd].cloexec
      ensures forall fd :: fd in fdTable ==> fdTable[fd] == old(fdTable)[fd]
    {
      var removed := set fd | fd in fdTable && fdTable[fd].cloexec;
      while removed != {}
        invariant Valid() && removed <= fdTable.Keys
        invariant removed == set fd | fd in fdTable && fdTable[fd].cloexec
        invariant forall fd :: fd in fdTable ==> fd in old(fdTable) && fdTable[fd] == old(fdTable)[fd]
        invariant forall fd :: fd in old(fdTable) && !old(fdTable)[fd].cloexec ==> fd in fdTable
        decreases |removed|
      {
        var fd :| fd in removed;
        Close(fd);
        removed := removed - {fd};
      }
      assert forall fd :: fd in fdTable && fdTable[fd].cloexec ==> fd in removed;
    }

    method Inherit(fd: nat, info: FdInfo)
      requires Valid() && fd < MAX_FD && fd !in fdTable
      modifies this, bitmap.Repr
      ensures Valid() && fdTable == old(fdTable)[fd := info]
    {
      var ok := AllocSpecFd(fd);
      assert ok;
      fdTable := fdTable[fd := info];
    }

    /** Every descriptor from 3 up is carried over; the assertion that it was unused never fires. */
    method FromCloneCopy() returns (c: FdTable)
      requires Valid()
      ensures c.Valid() && fresh(c) && fresh(c.bitmap.Repr)
      ensures c.fdTable == CloneOf(fdTable)
    {
      c := new FdTable();
      var left := set fd | fd in fdTable && fd >= 3;
      ghost var table := fdTable;
      CopiedNone(c.fdTable, table, left);
      while left != {}
        invariant c.Valid() && fresh(c) && fresh(c.bitmap.Repr) && fdTable == table
        invariant Copied(c.fdTable, table, left)
        decreases |left|
      {
        var fd :| fd in left;
        CopiedNext(c.fdTable, table, left, fd);
        c.Inherit(fd, fdTable[fd]);
        left := left - {fd};
      }
      CopiedAll(c.fdTable, table);
    }
  }

  ghost predicate Complement(free: set<nat>, table: Table) {
    InRange(table) && forall fd: nat :: fd in free <==> fd < MAX_FD && fd !in table
  }

  lemma StdioLeaves(free: set<nat>, table: Table)
    requires free == {} + Range(3, MAX_FD) && IsStdio(table)
    ensures Complement(free, table)
  {
  }

  /** `part` is the child's table with the descriptors `left` still to be carried over. */
  ghost predicate Copied(part: Table, table: Table, left: set<nat>) {
    && (forall fd :: fd in left ==> fd in table && fd >= 3 && fd !in part)
    && (forall fd :: 0 <= fd < 3 ==> fd in part && part[fd] == Stdio(fd))
    && (forall fd :: fd >= 3 && fd !in left ==> (fd in part <==> fd in table))
    && (forall fd :: fd >= 3 && fd in part ==> fd in table && part[fd] == table[fd])
  }

  lemma CopiedNone(part: Table, table: Table, left: set<nat>)
    requires IsStdio(part) && left == set fd | fd in table && fd >= 3
    ensures Copied(part, table, left)
  {
  }

  lemma CopiedNext(part: Table, table: Table, left: set<nat>, fd: nat)
    requires Copied(part, table, left) && fd in left
    ensures fd in table && fd !in part && Copied(part[fd := table[fd]], table, left - {fd})
  {
  }

  lemma CopiedAll(part: Table, table: Table)
    requires Copied(part, table, {})
    ensures part == CloneOf(table)
  {
  }

  lemma CapIs256()
    ensures Cap(1) == MAX_FD
  {
  }
}
