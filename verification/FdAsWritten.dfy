/** The descriptor calls as the source has them. */
module FdAsWritten {
  import opened Errors
  import opened MachineInts
  import opened Descriptors

  /** The checks every call makes on a descriptor before it looks at the slot; 0 when they pass. */
  function Guard(fd: int): int {
    if fd > MAX_FDS then -EBADF else if fd < VIRTUAL_FD_BASE then -EACCES else 0
  }

  /** The guard's result, or that for an empty slot; 0 when the descriptor leads to a handle. */
  function Check(s: State, fd: int): int
    requires HasTable(s)
  {
    if Guard(fd) != 0 then Guard(fd) else if s.slots[fd - VIRTUAL_FD_BASE] == 0 then -EBADF else 0
  }

  function Open(s: State, directory: bool, append: bool, answer: OpenAnswer): Step
    requires HasTable(s)
  {
    var slot := FirstUsed(s.slots);
    if slot < 0 then Step(s, Returned(-EMFILE))
    else match answer
      case Refused(errno) => Step(s, Returned(Failure(errno)))
      case Granted(h, _, isDirectory, infoErrno, _) =>
        var granted := OpenFile(s, h, NewFile(answer, append));
        if infoErrno != 0 then Step(granted, Returned(Failure(infoErrno)))
        else if directory && !isDirectory then Step(granted, Returned(-ENOTDIR))
        else if !directory && isDirectory then Step(granted, Returned(-EISDIR))
        else Step(granted, Returned(slot + VIRTUAL_FD_BASE))
  }

  function Close(s: State, fd: int, errno: Errno): Step
    requires HasTable(s)
  {
    if Check(s, fd) != 0 then Step(s, Returned(Check(s, fd)))
    else
      var h := s.slots[fd - VIRTUAL_FD_BASE];
      var reset := s.(slots := s.slots[fd - VIRTUAL_FD_BASE := 0]);
      if FirstWith(reset.slots, h) <= 0 then GiveBack(reset, h, errno) else Step(reset, Returned(0))
  }

  function Dup(s: State, fd: int): Step
    requires HasTable(s)
  {
    if Check(s, fd) != 0 then Step(s, Returned(Check(s, fd)))
    else
      var slot := FirstUsed(s.slots);
      if slot < 0 then Step(s, Returned(-EMFILE))
      else Step(s.(slots := s.slots[slot := s.slots[fd - VIRTUAL_FD_BASE]]), Returned(slot + VIRTUAL_FD_BASE))
  }

  /** The second half of dup2, once the target is closed. */
  function Share(s: State, fd: int, newFd: int): Step
    requires HasTable(s) && Guard(fd) == 0
  {
    var h := s.slots[fd - VIRTUAL_FD_BASE];
    if h == 0 then Step(s, Returned(-EBADF))
    else if newFd < 0 then Step(s, Returned(-EMFILE))
    else if newFd >= MAX_FDS then Step(s, Undefined)
    else Step(s.(slots := s.slots[newFd := h]), Returned(newFd + VIRTUAL_FD_BASE))
  }

  function Dup2(s: State, fd: int, newFd: int, errno: Errno): Step
    requires HasTable(s)
  {
    if Guard(fd) != 0 then Step(s, Returned(Guard(fd)))
    else if !(0 <= newFd - VIRTUAL_FD_BASE < MAX_FDS) then Step(s, Undefined)
    else if s.slots[newFd - VIRTUAL_FD_BASE] != 0 then
      var closed := Close(s, newFd, errno);
      if closed.outcome.Undefined? || closed.outcome.value < 0 then closed else Share(closed.state, fd, newFd)
    else Share(s, fd, newFd)
  }

  function Lseek(s: State, fd: int, offset: int, whence: int, faults: SeekFaults): Step
    requires HasTable(s)
  {
    if Check(s, fd) != 0 then Step(s, Returned(Check(s, fd)))
    else SeekHandle(s, s.slots[fd - VIRTUAL_FD_BASE], offset, whence, faults)
  }

  function Perform(s: State, call: Call): (step: Step)
    requires HasTable(s)
    ensures HasTable(step.state)
  {
    match call
    case OpenCall(directory, append, answer) => Open(s, directory, append, answer)
    case CloseCall(fd, errno) => Close(s, fd, errno)
    case DupCall(fd) => Dup(s, fd)
    case Dup2Call(fd, newFd, errno) => Dup2(s, fd, newFd, errno)
    case LseekCall(fd, offset, whence, faults) => Lseek(s, fd, offset, whence, faults)
  }

  /** The array `fds` and the firmware state its handles lead to. */
  class DescriptorTable {
    const fds: array<Handle>
    var files: map<Handle, File>
    var trace: seq<Event>

    /** The start-up loop that clears the table. */
    constructor ()
      ensures fresh(fds) && fds.Length == MAX_FDS
      ensures Now() == Boot()
    {
      var table := new Handle[MAX_FDS];
      for it := 0 to MAX_FDS
        invariant forall i :: 0 <= i < it ==> table[i] == 0
      {
        table[it] := 0;
      }
      fds, files, trace := table, map[], [];
      new;
      assert fds[..] == Boot().slots;
    }

    function Now(): State
      reads this, fds
    {
      State(fds[..], files, trace)
    }

    method FdRealFindFree() returns (r: int)
      ensures r == FirstUsed(fds[..])
    {
      for it := 0 to fds.Length
        invariant forall i :: 0 <= i < it ==> fds[i] == 0
      {
        if fds[it] != 0 {
          return it;
        }
      }
      return -1;
    }

    /** 0 stands for slot 0 as well as for no slot. */
    method FdRealForHandle(h: Handle) returns (r: int)
      ensures r == if FirstWith(fds[..], h) < 0 then 0 else FirstWith(fds[..], h)
    {
      for it := 0 to fds.Length
        invariant forall i :: 0 <= i < it ==> fds[i] != h
      {
        if fds[it] == h {
          return it;
        }
      }
      return 0;
    }

    method FdRealReset(slot: nat)
      requires slot < fds.Length
      modifies fds
      ensures fds[..] == old(fds[..])[slot := 0]
    {
      fds[slot] := 0;
    }

    method FdOpen(directory: bool, append: bool, answer: OpenAnswer) returns (r: int)
      requires fds.Length == MAX_FDS
      modifies this
      ensures Step(Now(), Returned(r)) == Open(old(Now()), directory, append, answer)
    {
      var slot := FdRealFindFree();
      if slot < 0 {
        return -EMFILE;
      }
      if answer.Refused? {
        return Failure(answer.errno);
      }
      var h := answer.handle;
      files, trace := files[h := File(answer.size, 0)], trace + [Opened(h)];
      if answer.infoErrno != 0 {
        return Failure(answer.infoErrno);
      }
      if append && answer.seekErrno == 0 {
        files := files[h := SetPosition(files[h], END_MARKER)];
      }
      if directory {
        if !answer.isDirectory {
          return -ENOTDIR;
        }
      } else {
        if answer.isDirectory {
          return -EISDIR;
        }
      }
      return slot + VIRTUAL_FD_BASE;
    }

    method FdClose(fd: int, errno: Errno) returns (r: Outcome)
      requires fds.Length == MAX_FDS
      modifies this, fds
      ensures Step(Now(), r) == Close(old(Now()), fd, errno)
    {
      if fd > MAX_FDS {
        return Returned(-EBADF);
      }
      if fd < VIRTUAL_FD_BASE {
        return Returned(-EACCES);
      }
      var h := fds[fd - VIRTUAL_FD_BASE];
      if h == 0 {
        return Returned(-EBADF);
      }
      FdRealReset(fd - VIRTUAL_FD_BASE);
      r := CloseUnlessFound(h, errno);
    }

    /** The end of close: the handle is taken for unused when the search says 0. */
    method CloseUnlessFound(h: Handle, errno: Errno) returns (r: Outcome)
      modifies this
      ensures Step(Now(), r) == if FirstWith(fds[..], h) <= 0 then GiveBack(old(Now()), h, errno)
                                else Step(old(Now()), Returned(0))
    {
      var alias := FdRealForHandle(h);
      if alias == 0 {
        if h !in files {
          return Undefined;
        }
        files, trace := files - {h}, trace + [Closed(h)];
        if errno != 0 {
          return Returned(Failure(errno));
        }
      }
      return Returned(0);
    }

    method FdDup(fd: int) returns (r: int)
      requires fds.Length == MAX_FDS
      modifies fds
      ensures Step(Now(), Returned(r)) == Dup(old(Now()), fd)
    {
      if fd > MAX_FDS {
        return -EBADF;
      }
      if fd < VIRTUAL_FD_BASE {
        return -EACCES;
      }
      var h := fds[fd - VIRTUAL_FD_BASE];
      if h == 0 {
        return -EBADF;
      }
      var slot := FdRealFindFree();
      if slot < 0 {
        return -EMFILE;
      }
      fds[slot] := h;
      return slot + VIRTUAL_FD_BASE;
    }

    /** Descriptor numbers and slot numbers are mixed as in the source; the accesses past the array end the call. */
    method FdDup2(fd: int, newFd: int, errno: Errno) returns (r: Outcome)
      requires fds.Length == MAX_FDS
      modifies this, fds
      ensures Step(Now(), r) == Dup2(old(Now()), fd, newFd, errno)
    {
      if fd > MAX_FDS {
        return Returned(-EBADF);
      }
      if fd < VIRTUAL_FD_BASE {
        return Returned(-EACCES);
      }
      if !(0 <= newFd - VIRTUAL_FD_BASE < fds.Length) {
        return Undefined;
      }
      if fds[newFd - VIRTUAL_FD_BASE] != 0 {
        var res := FdClose(newFd, errno);
        if res.Undefined? || res.value < 0 {
          return res;
        }
      }
      var h := fds[fd - VIRTUAL_FD_BASE];
      if h == 0 {
        return Returned(-EBADF);
      }
      if newFd < 0 {
        return Returned(-EMFILE);
      }
      if newFd >= fds.Length {
        return Undefined;
      }
      fds[newFd] := h;
      return Returned(newFd + VIRTUAL_FD_BASE);
    }

    method FdLseek(fd: int, offset: int, whence: int, faults: SeekFaults) returns (r: Outcome)
      requires fds.Length == MAX_FDS
      modifies this
      ensures Step(Now(), r) == Lseek(old(Now()), fd, offset, whence, faults)
    {
      if fd > MAX_FDS {
        return Returned(-EBADF);
      }
      if fd < VIRTUAL_FD_BASE {
        return Returned(-EACCES);
      }
      var h := fds[fd - VIRTUAL_FD_BASE];
      if h == 0 {
        return Returned(-EBADF);
      }
      if h !in files {
        return Undefined;
      }
      var offset64: Word64;
      if whence == SEEK_SET {
        offset64 := U64(offset);
      } else if whence == SEEK_CUR || whence == SEEK_END {
        if whence == SEEK_END {
          if faults.toEnd != 0 {
            return Returned(Failure(faults.toEnd));
          }
          files := files[h := SetPosition(files[h], END_MARKER)];
        }
        if faults.query != 0 {
          return Returned(Failure(faults.query));
        }
        offset64 := Add64(files[h].position, offset);
      } else {
        return Undefined;
      }
      if faults.set_ != 0 {
        return Returned(Failure(faults.set_));
      }
      files := files[h := SetPosition(files[h], offset64)];
      return Returned(S64(offset64));
    }
  }
}
