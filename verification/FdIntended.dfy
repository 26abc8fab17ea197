/**
 * The descriptor calls as they are meant: a free slot for every new descriptor, and a firmware handle that is
 * open just as long as some slot holds it. This is the reference the calls of the source are measured against.
 */
module FdIntended {
  import opened Errors
  import opened Descriptors

  predicate IsDescriptor(fd: int) {
    VIRTUAL_FD_BASE <= fd < VIRTUAL_FD_BASE + MAX_FDS
  }

  /** The handle behind a descriptor, 0 when there is none. */
  function HandleOf(s: State, fd: int): Handle
    requires HasTable(s)
  {
    if IsDescriptor(fd) then s.slots[fd - VIRTUAL_FD_BASE] else 0
  }

  function Check(s: State, fd: int): int
    requires HasTable(s)
  {
    if fd < VIRTUAL_FD_BASE then -EACCES else if HandleOf(s, fd) == 0 then -EBADF else 0
  }

  function SetSlot(s: State, fd: int, h: Handle): (t: State)
    requires HasTable(s) && IsDescriptor(fd)
    ensures HasTable(t)
  {
    s.(slots := s.slots[fd - VIRTUAL_FD_BASE := h])
  }

  function Open(s: State, directory: bool, append: bool, answer: OpenAnswer): Step
    requires HasTable(s)
  {
    var slot := FirstWith(s.slots, 0);
    if slot < 0 then Step(s, Returned(-EMFILE))
    else match answer
      case Refused(errno) => Step(s, Returned(Failure(errno)))
      case Granted(h, _, isDirectory, infoErrno, _) =>
        var granted := OpenFile(s, h, NewFile(answer, append));
        if infoErrno != 0 then Step(CloseFile(granted, h), Returned(Failure(infoErrno)))
        else if directory && !isDirectory then Step(CloseFile(granted, h), Returned(-ENOTDIR))
        else if !directory && isDirectory then Step(CloseFile(granted, h), Returned(-EISDIR))
        else Step(SetSlot(granted, slot + VIRTUAL_FD_BASE, h), Returned(slot + VIRTUAL_FD_BASE))
  }

  function Close(s: State, fd: int, errno: Errno): Step
    requires HasTable(s)
  {
    if Check(s, fd) != 0 then Step(s, Returned(Check(s, fd)))
    else
      var h := HandleOf(s, fd);
      var reset := SetSlot(s, fd, 0);
      if h in reset.slots then Step(reset, Returned(0)) else GiveBack(reset, h, errno)
  }

  function Dup(s: State, fd: int): Step
    requires HasTable(s)
  {
    if Check(s, fd) != 0 then Step(s, Returned(Check(s, fd)))
    else
      var slot := FirstWith(s.slots, 0);
      if slot < 0 then Step(s, Returned(-EMFILE))
      else Step(SetSlot(s, slot + VIRTUAL_FD_BASE, HandleOf(s, fd)), Returned(slot + VIRTUAL_FD_BASE))
  }

  function Dup2(s: State, fd: int, newFd: int, errno: Errno): Step
    requires HasTable(s)
  {
    if Check(s, fd) != 0 then Step(s, Returned(Check(s, fd)))
    else if newFd < VIRTUAL_FD_BASE then Step(s, Returned(-EACCES))
    else if !IsDescriptor(newFd) then Step(s, Returned(-EBADF))
    else if newFd == fd then Step(s, Returned(newFd))
    else
      var closed := if HandleOf(s, newFd) == 0 then Step(s, Returned(0)) else Close(s, newFd, errno);
      if closed.outcome.Undefined? || closed.outcome.value < 0 then closed
      else Step(SetSlot(closed.state, newFd, HandleOf(s, fd)), Returned(newFd))
  }

  function Lseek(s: State, fd: int, offset: int, whence: int, faults: SeekFaults): Step
    requires HasTable(s)
  {
    if Check(s, fd) != 0 then Step(s, Returned(Check(s, fd)))
    else SeekHandle(s, HandleOf(s, fd), offset, whence, faults)
  }

  function Perform(s: State, call: Call): (step: Step)
    requires HasTable(s)
    ensures HasTable(step.state)
  {
    match call
    case OpenCall(directory, append, answer) => Open(s, directory, append, answer)
    case CloseCall(fd, errno) => Close(s, fd, errno)
    case DupCall(fd) => Dup(s, fd)
    case Dup2Call(fd, newFd, errno) => Dup2(s, fd, newFd, errno)
    case LseekCall(fd, offset, whence, faults) => Lseek(s, fd, offset, whence, faults)
  }

  /** The open files are exactly those some slot holds. */
  ghost predicate Sound(s: State) {
    && HasTable(s)
    && (forall i :: 0 <= i < |s.slots| && s.slots[i] != 0 ==> s.slots[i] in s.files)
    && (forall h :: h in s.files ==> h != 0 && h in s.slots)
  }

  /** The firmware answers Open with a non-null handle that is not in use. */
  predicate Fresh(s: State, call: Call) {
    call.OpenCall? && call.answer.Granted? ==> call.answer.handle != 0 && call.answer.handle !in s.files
  }

  /** Opens less closes of a handle. */
  function Balance(trace: seq<Event>, h: Handle): int {
    if trace == [] then 0
    else Balance(trace[..|trace| - 1], h)
         + match trace[|trace| - 1]
           case Opened(g) => if g == h then 1 else 0
           case Closed(g) => if g == h then -1 else 0
  }

  /** A handle was opened once more than it was closed while it is open, and as often once it is not. */
  ghost predicate Balanced(s: State) {
    forall h :: Balance(s.trace, h) == if h in s.files then 1 else 0
  }

  lemma BalanceStep(trace: seq<Event>, e: Event, h: Handle)
    ensures Balance(trace + [e], h) == Balance(trace, h)
            + match e case Opened(g) => (if g == h then 1 else 0) case Closed(g) => if g == h then -1 else 0
  {
    assert (trace + [e])[..|trace|] == trace;
  }

  lemma OpenFileKeeps(s: State, h: Handle, file: File)
    requires Balanced(s) && h !in s.files
    ensures Balanced(OpenFile(s, h, file))
  {
    forall g ensures Balance(s.trace + [Opened(h)], g) == if g in s.files[h := file] then 1 else 0 {
      BalanceStep(s.trace, Opened(h), g);
    }
  }

  lemma CloseFileKeeps(s: State, h: Handle)
    requires Balanced(s) && h in s.files
    ensures Balanced(CloseFile(s, h))
  {
    forall g ensures Balance(s.trace + [Closed(h)], g) == if g in s.files - {h} then 1 else 0 {
      BalanceStep(s.trace, Closed(h), g);
    }
  }

  lemma CloseStaysSound(s: State, fd: int, errno: Errno)
    requires Sound(s)
    ensures Sound(Close(s, fd, errno).state)
  {
    if Check(s, fd) == 0 {
      OthersStay(s, fd, 0);
    }
  }

  lemma CloseKeeps(s: State, fd: int, errno: Errno)
    requires Sound(s) && Balanced(s)
    ensures Sound(Close(s, fd, errno).state) && Balanced(Close(s, fd, errno).state)
  {
    CloseStaysSound(s, fd, errno);
    if Check(s, fd) == 0 {
      var h, reset := HandleOf(s, fd), SetSlot(s, fd, 0);
      OthersStay(s, fd, 0);
      if h !in reset.slots {
        CloseFileKeeps(reset, h);
      }
    }
  }

  /** Changing one slot loses no other handle. */
  lemma OthersStay(s: State, fd: int, h: Handle)
    requires HasTable(s) && IsDescriptor(fd)
    ensures var t := SetSlot(s, fd, h);
            && h in t.slots
            && (forall g :: g in s.slots && g != HandleOf(s, fd) ==> g in t.slots)
            && (forall g :: g in t.slots ==> g == h || g in s.slots)
  {
    var t := SetSlot(s, fd, h);
    assert t.slots[fd - VIRTUAL_FD_BASE] == h;
    forall g | g in s.slots && g != HandleOf(s, fd)
      ensures g in t.slots
    {
      var i :| 0 <= i < |s.slots| && s.slots[i] == g;
      assert t.slots[i] == g;
    }
  }

  lemma SetSlotKeeps(s: State, fd: int, h: Handle)
    requires HasTable(s) && IsDescriptor(fd) && h in s.files && HandleOf(s, fd) == 0
    requires forall i :: 0 <= i < |s.slots| && s.slots[i] != 0 ==> s.slots[i] in s.files
    requires forall g :: g in s.files ==> g != 0 && (g in s.slots || g == h)
    ensures Sound(SetSlot(s, fd, h))
  {
    OthersStay(s, fd, h);
  }

  /** One call keeps the invariant, whatever the arguments and whatever errors the firmware reports. */
  lemma CallKeepsSound(s: State, call: Call)
    requires Sound(s) && Balanced(s) && Fresh(s, call)
    ensures Sound(Perform(s, call).state) && Balanced(Perform(s, call).state)
  {
    match call
    case OpenCall(directory, append, answer) => OpenKeeps(s, directory, append, answer);
    case CloseCall(fd, errno) => CloseKeeps(s, fd, errno);
    case DupCall(fd) =>
      var slot := FirstWith(s.slots, 0);
      if Check(s, fd) == 0 && slot >= 0 {
        SetSlotKeeps(s, slot + VIRTUAL_FD_BASE, HandleOf(s, fd));
      }
    case Dup2Call(fd, newFd, errno) => Dup2Keeps(s, fd, newFd, errno);
    case LseekCall(fd, offset, whence, faults) =>
  }

  lemma OpenKeeps(s: State, directory: bool, append: bool, answer: OpenAnswer)
    requires Sound(s) && Balanced(s) && Fresh(s, OpenCall(directory, append, answer))
    ensures Sound(Open(s, directory, append, answer).state) && Balanced(Open(s, directory, append, answer).state)
  {
    var slot := FirstWith(s.slots, 0);
    if slot >= 0 && answer.Granted? {
      GrantKeeps(s, slot, answer.handle, NewFile(answer, append));
    }
  }

  /** A granted handle may be put into the free slot or given back. */
  lemma GrantKeeps(s: State, slot: nat, h: Handle, file: File)
    requires Sound(s) && Balanced(s) && h != 0 && h !in s.files
    requires slot < MAX_FDS && s.slots[slot] == 0
    ensures var granted := OpenFile(s, h, file);
            && Sound(CloseFile(granted, h)) && Balanced(CloseFile(granted, h))
            && Sound(SetSlot(granted, slot + VIRTUAL_FD_BASE, h))
            && Balanced(SetSlot(granted, slot + VIRTUAL_FD_BASE, h))
  {
    var granted := OpenFile(s, h, file);
    OpenFileKeeps(s, h, file);
    CloseFileKeeps(granted, h);
    assert CloseFile(granted, h).files == s.files;
    SetSlotKeeps(granted, slot + VIRTUAL_FD_BASE, h);
  }

  lemma Dup2Keeps(s: State, fd: int, newFd: int, errno: Errno)
    requires Sound(s) && Balanced(s)
    ensures Sound(Dup2(s, fd, newFd, errno).state) && Balanced(Dup2(s, fd, newFd, errno).state)
  {
    if Check(s, fd) == 0 && IsDescriptor(newFd) && newFd != fd {
      var closed := if HandleOf(s, newFd) == 0 then Step(s, Returned(0)) else Close(s, newFd, errno);
      if HandleOf(s, newFd) != 0 {
        CloseKeeps(s, newFd, errno);
      }
      assert HandleOf(closed.state, fd) == HandleOf(s, fd) && HandleOf(closed.state, newFd) == 0;
      SetSlotKeeps(closed.state, newFd, HandleOf(s, fd));
    }
  }

  /** The state after a run of calls. */
  function Run(s: State, calls: seq<Call>): (t: State)
    requires HasTable(s)
    ensures HasTable(t)
  {
    if calls == [] then s else Perform(Run(s, calls[..|calls| - 1]), calls[|calls| - 1]).state
  }

  ghost predicate FreshRun(s: State, calls: seq<Call>)
    requires HasTable(s)
  {
    forall i :: 0 <= i < |calls| ==> Fresh(Run(s, calls[..i]), calls[i])
  }

  /** What a call adds to the trace. */
  function Added(s: State, call: Call): seq<Event>
    requires HasTable(s) && |Perform(s, call).state.trace| >= |s.trace|
  {
    Perform(s, call).state.trace[|s.trace|..]
  }

  /** A call closes a handle exactly when it takes its last alias from the table. */
  lemma ClosesWithLastAlias(s: State, call: Call, h: Handle)
    requires Sound(s) && !call.OpenCall? && h != 0
    ensures s.trace <= Perform(s, call).state.trace
    ensures Added(s, call) == [] || exists g :: Added(s, call) == [Closed(g)]
    ensures Closed(h) in Added(s, call) <==> h in s.slots && h !in Perform(s, call).state.slots
  {
    match call
    case CloseCall(fd, errno) => CloseTrace(s, fd, errno, h);
    case DupCall(fd) =>
      var slot := FirstWith(s.slots, 0);
      if Check(s, fd) == 0 && slot >= 0 {
        OthersStay(s, slot + VIRTUAL_FD_BASE, HandleOf(s, fd));
      }
    case Dup2Call(fd, newFd, errno) => Dup2Trace(s, fd, newFd, errno, h);
    case LseekCall(fd, offset, whence, faults) =>
  }

  lemma CloseTrace(s: State, fd: int, errno: Errno, h: Handle)
    requires Sound(s) && h != 0
    ensures var t := Close(s, fd, errno).state;
            && (t.trace == s.trace || exists g :: t.trace == s.trace + [Closed(g)])
            && (t.trace == s.trace + [Closed(h)] <==> h in s.slots && h !in t.slots)
  {
    if Check(s, fd) == 0 {
      var g := HandleOf(s, fd);
      OthersStay(s, fd, 0);
      assert (s.trace + [Closed(g)])[|s.trace|] == Closed(g);
      assert (s.trace + [Closed(h)])[|s.trace|] == Closed(h);
    }
  }

  lemma Dup2Trace(s: State, fd: int, newFd: int, errno: Errno, h: Handle)
    requires Sound(s) && h != 0
    ensures var t := Dup2(s, fd, newFd, errno).state;
            && (t.trace == s.trace || exists g :: t.trace == s.trace + [Closed(g)])
            && (t.trace == s.trace + [Closed(h)] <==> h in s.slots && h !in t.slots)
  {
    if Check(s, fd) == 0 && IsDescriptor(newFd) && newFd != fd {
      var closed := if HandleOf(s, newFd) == 0 then Step(s, Returned(0)) else Close(s, newFd, errno);
      if HandleOf(s, newFd) != 0 {
        CloseTrace(s, newFd, errno, h);
      }
      assert closed.state.slots[fd - VIRTUAL_FD_BASE] == HandleOf(s, fd);
      OthersStay(closed.state, newFd, HandleOf(s, fd));
    }
  }

  /** A descriptor without a handle, below which every other has one. */
  ghost predicate LowestFree(s: State, fd: int)
    requires HasTable(s)
  {
    IsDescriptor(fd) && HandleOf(s, fd) == 0 && forall g :: IsDescriptor(g) && g < fd ==> HandleOf(s, g) != 0
  }

  ghost predicate IsFull(s: State)
    requires HasTable(s)
  {
    forall g :: IsDescriptor(g) ==> HandleOf(s, g) != 0
  }

  /** The free slot is that of the lowest descriptor that has no handle. */
  lemma FreeSlot(s: State)
    requires HasTable(s)
    ensures var slot := FirstWith(s.slots, 0);
            if slot < 0 then IsFull(s) else !IsFull(s) && LowestFree(s, slot + VIRTUAL_FD_BASE)
  {
    var slot := FirstWith(s.slots, 0);
    forall g | IsDescriptor(g) && (slot < 0 || g < slot + VIRTUAL_FD_BASE) ensures HandleOf(s, g) != 0 {
      assert HandleOf(s, g) == s.slots[g - VIRTUAL_FD_BASE];
    }
    assert slot >= 0 ==> HandleOf(s, slot + VIRTUAL_FD_BASE) == 0;
  }

  /** The first error the firmware's answer holds for an open: a refusal, one of GetInfo, or the wrong kind of file. */
  function AnswerError(directory: bool, answer: OpenAnswer): int {
    if answer.Refused? then 0 - answer.errno
    else if answer.infoErrno != 0 then 0 - answer.infoErrno
    else if directory && !answer.isDirectory then -20
    else if !directory && answer.isDirectory then -21
    else 0
  }

  /**
   * An open that succeeds has put the handle into the slot of the lowest descriptor that was free. One that fails
   * reports the first error it meets, and gives a handle back that the firmware granted.
   */
  lemma OpenTrace(s: State, directory: bool, append: bool, answer: OpenAnswer)
    requires Sound(s) && Fresh(s, OpenCall(directory, append, answer))
    ensures var step := Perform(s, OpenCall(directory, append, answer));
            && step.outcome.Returned?
            && (step.outcome.value >= 0 <==> !IsFull(s) && answer.Granted? && answer.infoErrno == 0
                                             && answer.isDirectory == directory)
            && (step.outcome.value >= 0 ==>
                  && LowestFree(s, step.outcome.value)
                  && HandleOf(step.state, step.outcome.value) == answer.handle
                  && (forall g :: IsDescriptor(g) && g != step.outcome.value ==>
                        HandleOf(step.state, g) == HandleOf(s, g))
                  && step.state.trace == s.trace + [Opened(answer.handle)])
            && (step.outcome.value < 0 ==>
                  && step.outcome.value == (if IsFull(s) then -24 else AnswerError(directory, answer))
                  && step.state.slots == s.slots && step.state.files == s.files
                  && step.state.trace == if IsFull(s) || answer.Refused? then s.trace
                                         else s.trace + [Opened(answer.handle)] + [Closed(answer.handle)])
  {
    FreeSlot(s);
    if answer.Granted? {
      assert s.files[answer.handle := NewFile(answer, append)] - {answer.handle} == s.files;
    }
  }

  /** What a call on a descriptor that is not open returns. */
  function NotOpen(fd: int): int {
    if fd < 4 then -13 else -9
  }

  /**
   * dup of an open descriptor makes the lowest free one share its handle and changes nothing else. On a full table,
   * and on a descriptor that is not open, it changes nothing and says so.
   */
  lemma DupShares(s: State, fd: int)
    requires HasTable(s)
    ensures var step := Perform(s, DupCall(fd));
            if HandleOf(s, fd) == 0 then step == Step(s, Returned(NotOpen(fd)))
            else if IsFull(s) then step == Step(s, Returned(-24))
            else
              && step.outcome.Returned? && LowestFree(s, step.outcome.value)
              && HandleOf(step.state, step.outcome.value) == HandleOf(s, fd)
              && (forall g :: IsDescriptor(g) && g != step.outcome.value ==> HandleOf(step.state, g) == HandleOf(s, g))
              && step.state.files == s.files && step.state.trace == s.trace
  {
    FreeSlot(s);
  }

  /** No other descriptor leads to the handle of this one. */
  ghost predicate IsLastAlias(s: State, fd: int)
    requires HasTable(s)
  {
    forall g :: IsDescriptor(g) && g != fd ==> HandleOf(s, g) != HandleOf(s, fd)
  }

  lemma LastAliasSlots(s: State, fd: int)
    requires HasTable(s) && IsDescriptor(fd) && HandleOf(s, fd) != 0
    ensures IsLastAlias(s, fd) <==> HandleOf(s, fd) !in SetSlot(s, fd, 0).slots
  {
    var h, reset := HandleOf(s, fd), SetSlot(s, fd, 0);
    if h in reset.slots {
      var i :| 0 <= i < |reset.slots| && reset.slots[i] == h;
      assert IsDescriptor(i + VIRTUAL_FD_BASE) && HandleOf(s, i + VIRTUAL_FD_BASE) == h;
    } else {
      forall g | IsDescriptor(g) && g != fd ensures HandleOf(s, g) != h {
        assert reset.slots[g - VIRTUAL_FD_BASE] == HandleOf(s, g);
      }
    }
  }

  /**
   * close frees the descriptor and no other. It closes the file exactly when no other descriptor leads to it, and
   * only then can the firmware's error be what it returns; it returns 0 otherwise.
   */
  lemma CloseFrees(s: State, fd: int, errno: Errno)
    requires Sound(s)
    ensures var step, h := Perform(s, CloseCall(fd, errno)), HandleOf(s, fd);
            if h == 0 then step == Step(s, Returned(NotOpen(fd)))
            else
              && HandleOf(step.state, fd) == 0
              && (forall g :: IsDescriptor(g) && g != fd ==> HandleOf(step.state, g) == HandleOf(s, g))
              && step.outcome == Returned(if IsLastAlias(s, fd) then 0 - errno else 0)
              && step.state.files == (if IsLastAlias(s, fd) then s.files - {h} else s.files)
              && step.state.trace == if IsLastAlias(s, fd) then s.trace + [Closed(h)] else s.trace
  {
    if HandleOf(s, fd) != 0 {
      LastAliasSlots(s, fd);
      assert s.slots[fd - VIRTUAL_FD_BASE] in s.files;
    }
  }

  /**
   * dup2 of an open descriptor to another makes both lead to one handle and touches no other, closing the target's
   * former file exactly when no other descriptor leads to it; it fails just when the firmware reports an error for
   * that. To the descriptor itself it does nothing but return it. From a descriptor that is not open, or to a number
   * that is none, it changes nothing and says so.
   */
  lemma Dup2Shares(s: State, fd: int, newFd: int, errno: Errno)
    requires Sound(s)
    ensures var step := Perform(s, Dup2Call(fd, newFd, errno));
            var h, former := HandleOf(s, fd), HandleOf(s, newFd);
            if h == 0 then step == Step(s, Returned(NotOpen(fd)))
            else if !IsDescriptor(newFd) then step == Step(s, Returned(NotOpen(newFd)))
            else if newFd == fd then step == Step(s, Returned(fd))
            else
              var closes := former != 0 && IsLastAlias(s, newFd);
              && step.outcome == Returned(if closes && errno != 0 then 0 - errno else newFd)
              && HandleOf(step.state, newFd) == (if closes && errno != 0 then 0 else h)
              && (forall g :: IsDescriptor(g) && g != newFd ==> HandleOf(step.state, g) == HandleOf(s, g))
              && step.state.files == (if closes then s.files - {former} else s.files)
              && step.state.trace == if closes then s.trace + [Closed(former)] else s.trace
  {
    if HandleOf(s, fd) != 0 && IsDescriptor(newFd) && newFd != fd && HandleOf(s, newFd) != 0 {
      CloseFrees(s, newFd, errno);
    }
  }

  /** At no point of the trace is a handle opened while it is open, or closed while it is not. */
  ghost predicate Orderly(trace: seq<Event>) {
    forall p, h :: 0 <= p <= |trace| ==> 0 <= Balance(trace[..p], h) <= 1
  }

  lemma OrderlyGrows(trace: seq<Event>, e: Event)
    requires Orderly(trace)
    requires forall h :: 0 <= Balance(trace + [e], h) <= 1
    ensures Orderly(trace + [e])
  {
    forall p, h | 0 <= p <= |trace + [e]| ensures 0 <= Balance((trace + [e])[..p], h) <= 1 {
      if p <= |trace| {
        assert (trace + [e])[..p] == trace[..p];
      } else {
        assert (trace + [e])[..p] == trace + [e];
      }
    }
  }

  lemma CallKeepsOrderly(s: State, call: Call)
    requires Sound(s) && Balanced(s) && Fresh(s, call) && Orderly(s.trace)
    ensures Orderly(Perform(s, call).state.trace)
  {
    var t := Perform(s, call).state;
    CallKeepsSound(s, call);
    if call.OpenCall? {
      OpenTrace(s, call.directory, call.append, call.answer);
      if t.trace != s.trace {
        var h, file := call.answer.handle, NewFile(call.answer, call.append);
        OpenFileKeeps(s, h, file);
        OrderlyGrows(s.trace, Opened(h));
        if t.trace == s.trace + [Opened(h)] + [Closed(h)] {
          OrderlyGrows(s.trace + [Opened(h)], Closed(h));
        }
      }
    } else {
      ClosesWithLastAlias(s, call, 1);
      if g :| Added(s, call) == [Closed(g)] {
        assert t.trace == s.trace + [Closed(g)];
        OrderlyGrows(s.trace, Closed(g));
      } else {
        assert t.trace == s.trace;
      }
    }
  }

  /**
   * In every run from start-up, at every moment, the open files are exactly those in the table, and every handle
   * has been closed as often as it was opened, except once less while it is open: nothing leaks. At no moment of the
   * run, and at no point within a call, is anything closed twice.
   */
  lemma {:induction false} RunsAreSound(calls: seq<Call>)
    requires FreshRun(Boot(), calls)
    ensures Sound(Run(Boot(), calls)) && Balanced(Run(Boot(), calls)) && Orderly(Run(Boot(), calls).trace)
  {
    if calls != [] {
      var last := |calls| - 1;
      var init := calls[..last];
      forall i | 0 <= i < |init| ensures Fresh(Run(Boot(), init[..i]), init[i]) {
        assert init[..i] == calls[..i];
      }
      RunsAreSound(init);
      CallKeepsSound(Run(Boot(), init), calls[last]);
      CallKeepsOrderly(Run(Boot(), init), calls[last]);
    }
  }
}
