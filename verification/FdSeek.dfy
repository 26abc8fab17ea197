/** Positions: what a seek returns, where it leads, and who sees it. */
module FdSeek {
  import opened Errors
  import opened MachineInts
  import opened Descriptors
  import I = FdIntended

  predicate IsWhence(whence: int) {
    whence in {SEEK_SET, SEEK_CUR, SEEK_END}
  }

  /** The first error a seek meets among those of its calls, 0 when it meets none. */
  function FaultMet(whence: int, faults: SeekFaults): Errno {
    if whence == SEEK_END && faults.toEnd != 0 then faults.toEnd
    else if whence != SEEK_SET && faults.query != 0 then faults.query
    else faults.set_
  }

  /** What the offset of a seek counts from. */
  function Base(file: File, whence: int): Word64 {
    if whence == SEEK_SET then 0 else if whence == SEEK_END then file.size else file.position
  }

  /** Where a seek that meets no error goes. */
  function Target(file: File, offset: int, whence: int): Word64 {
    U64(Base(file, whence) + offset)
  }

  /**
   * A seek that meets no error returns the base plus the offset modulo 2^64, as a signed number. That is where the
   * file then stands, exactly unless it is the firmware's marker for the end of a file of another length. No other
   * file, and nothing in the table, changes.
   */
  lemma SeekMeans(s: State, h: Handle, offset: int, whence: int, faults: SeekFaults)
    requires h in s.files && IsWhence(whence) && FaultMet(whence, faults) == 0
    ensures var step, target := SeekHandle(s, h, offset, whence, faults), Target(s.files[h], offset, whence);
            && step.outcome == Returned(S64(target))
            && step.state.files.Keys == s.files.Keys
            && (step.state.files[h].position == target <==> target != END_MARKER || s.files[h].size == END_MARKER)
            && step.state.files[h].size == s.files[h].size
            && (forall g :: g in s.files && g != h ==> step.state.files[g] == s.files[g])
            && step.state.slots == s.slots && step.state.trace == s.trace
  {
  }

  /**
   * A seek that meets an error reports the first one, and leaves the file where it was, except that a seek from the
   * end that got past its first call has gone there.
   */
  lemma SeekFails(s: State, h: Handle, offset: int, whence: int, faults: SeekFaults)
    requires h in s.files && IsWhence(whence) && FaultMet(whence, faults) != 0
    ensures var step, file := SeekHandle(s, h, offset, whence, faults), s.files[h];
            && step.outcome == Returned(0 - FaultMet(whence, faults))
            && step.state == if whence == SEEK_END && faults.toEnd == 0
                             then s.(files := s.files[h := file.(position := file.size)]) else s
  {
  }

  /** A seek that knows its base is defined on every handle that is open, and no other seek is. */
  lemma SeekIsDefined(s: State, h: Handle, offset: int, whence: int, faults: SeekFaults)
    ensures var step := SeekHandle(s, h, offset, whence, faults);
            && (step.outcome.Undefined? <==> h !in s.files || !IsWhence(whence))
            && (step.outcome.Undefined? ==> step.state == s)
  {
  }

  /** What a query for the position, and for the size, returns. */
  lemma StandsAt(s: State, h: Handle, faults: SeekFaults)
    requires h in s.files && FaultMet(SEEK_CUR, faults) == 0 && FaultMet(SEEK_END, faults) == 0
    ensures SeekHandle(s, h, 0, 1, faults).outcome == Returned(S64(s.files[h].position))
    ensures SeekHandle(s, h, 0, 2, faults).outcome == Returned(S64(s.files[h].size))
  {
    SeekMeans(s, h, 0, SEEK_CUR, faults);
    SeekMeans(s, h, 0, SEEK_END, faults);
  }

  /**
   * A file opened for appending stands at its end, unless the move there met an error, which open ignores; any other
   * stands at its start. It has the size the firmware granted, and no other file changes.
   */
  lemma OpenedStands(s: State, directory: bool, append: bool, answer: OpenAnswer, faults: SeekFaults)
    requires I.Sound(s) && I.Fresh(s, OpenCall(directory, append, answer))
    requires I.Open(s, directory, append, answer).outcome.value >= 0
    requires FaultMet(SEEK_CUR, faults) == 0 && FaultMet(SEEK_END, faults) == 0
    ensures var t, fd := I.Open(s, directory, append, answer).state, I.Open(s, directory, append, answer).outcome.value;
            && I.Perform(t, LseekCall(fd, 0, 1, faults)).outcome
               == Returned(if append && answer.seekErrno == 0 then S64(answer.size) else 0)
            && I.Perform(t, LseekCall(fd, 0, 2, faults)).outcome == Returned(S64(answer.size))
            && t.files.Keys == s.files.Keys + {answer.handle}
            && forall g :: g in s.files ==> t.files[g] == s.files[g]
  {
    I.OpenTrace(s, directory, append, answer);
    var t := I.Open(s, directory, append, answer).state;
    StandsAt(t, answer.handle, faults);
  }

  /** The marker target is all that separates one relative seek from two. */
  lemma SeeksAddUp(s: State, h: Handle, a: int, b: int, faults: SeekFaults)
    requires h in s.files && FaultMet(SEEK_CUR, faults) == 0
    ensures var first := SeekHandle(s, h, a, SEEK_CUR, faults);
            SeekHandle(first.state, h, b, SEEK_CUR, faults) == SeekHandle(s, h, a + b, SEEK_CUR, faults)
            <==> U64(s.files[h].position + a) != END_MARKER || s.files[h].size == END_MARKER
  {
    var file := s.files[h];
    var first := SeekHandle(s, h, a, SEEK_CUR, faults);
    var between := first.state.files[h].position;
    AddWrapped(file.position + a, b);
    var twice, once := U64(between + b), U64(file.position + (a + b));
    assert SeekHandle(first.state, h, b, SEEK_CUR, faults).outcome == Returned(S64(twice));
    assert SeekHandle(s, h, a + b, SEEK_CUR, faults).outcome == Returned(S64(once));
    SignedDetermines(twice);
    SignedDetermines(once);
    if U64(file.position + a) == END_MARKER {
      assert between == file.size && once == U64(END_MARKER + b);
      SumsDiffer(file.size, END_MARKER, b);
    }
    SameFiles(s, h, file, between, twice, once);
  }

  lemma SumsDiffer(x: nat, y: nat, b: int)
    requires x < TWO64 && y < TWO64
    ensures U64(x + b) == U64(y + b) <==> x == y
  {
    if U64(x + b) == U64(y + b) {
      AddWrapped(x + b, -b);
      AddWrapped(y + b, -b);
      assert U64(x) == U64(y);
    }
  }

  /** The position a file had is gone once it has another. */
  lemma SameFiles(s: State, h: Handle, file: File, between: Word64, x: Word64, y: Word64)
    requires h in s.files && s.files[h] == file
    ensures x == y ==> s.files[h := SetPosition(file.(position := between), x)] == s.files[h := SetPosition(file, y)]
  {
  }

  /** A call that seeks through some descriptor of the handle. */
  predicate Moves(s: State, call: Call, h: Handle)
    requires HasTable(s)
  {
    call.LseekCall? && I.HandleOf(s, call.fd) == h
  }

  /** Every call of the run leaves the handle a descriptor, and none seeks through one of its descriptors. */
  ghost predicate LeavesAlone(s: State, calls: seq<Call>, h: Handle)
    requires HasTable(s)
  {
    forall i :: 0 <= i < |calls| ==>
      var before := I.Run(s, calls[..i]);
      !Moves(before, calls[i], h) && h in I.Perform(before, calls[i]).state.slots
  }

  lemma CallKeepsFile(s: State, call: Call, h: Handle)
    requires HasTable(s) && h in s.files && I.Fresh(s, call)
    requires !Moves(s, call, h) && h in I.Perform(s, call).state.slots
    ensures var t := I.Perform(s, call).state; h in t.files && t.files[h] == s.files[h]
  {
    if call.Dup2Call? {
      Dup2KeepsFile(s, call.fd, call.newFd, call.errno, h);
    }
  }

  lemma Dup2KeepsFile(s: State, fd: int, newFd: int, errno: Errno, h: Handle)
    requires HasTable(s) && h in s.files
    requires h in I.Dup2(s, fd, newFd, errno).state.slots
    ensures var t := I.Dup2(s, fd, newFd, errno).state; h in t.files && t.files[h] == s.files[h]
  {
    if I.Check(s, fd) == 0 && I.IsDescriptor(newFd) && newFd != fd && I.HandleOf(s, newFd) == h {
      var reset := I.SetSlot(s, newFd, 0);
      I.OthersStay(reset, newFd, I.HandleOf(s, fd));
      assert I.Close(s, newFd, errno).state.slots == reset.slots;
      assert reset.slots[fd - VIRTUAL_FD_BASE] == I.HandleOf(s, fd);
      assert h in reset.slots;
    }
  }

  /** The file behind a handle stands still in every run that does not seek through it or close it. */
  lemma {:induction false} RunKeepsFile(s: State, calls: seq<Call>, h: Handle)
    requires HasTable(s) && h in s.files
    requires I.FreshRun(s, calls) && LeavesAlone(s, calls, h)
    ensures var t := I.Run(s, calls); h in t.files && t.files[h] == s.files[h]
  {
    if calls != [] {
      var last := |calls| - 1;
      var init := calls[..last];
      assert forall i :: 0 <= i < last ==> init[..i] == calls[..i];
      RunKeepsFile(s, init, h);
      CallKeepsFile(I.Run(s, init), calls[last], h);
    }
  }

  /**
   * What a seek through one descriptor returned is what every alias finds as the current position after any run of
   * calls that neither seek through the handle nor take its last descriptor, exactly unless the seek went to the end
   * marker.
   */
  lemma AliasesSeeTheMove(s: State, fd: int, offset: int, whence: int, faults: SeekFaults,
                          calls: seq<Call>, alias: int, faults': SeekFaults)
    requires I.Sound(s) && I.HandleOf(s, fd) != 0
    requires IsWhence(whence) && FaultMet(whence, faults) == 0 && FaultMet(SEEK_CUR, faults') == 0
    requires var moved := I.Perform(s, LseekCall(fd, offset, whence, faults)).state;
             && I.FreshRun(moved, calls) && LeavesAlone(moved, calls, I.HandleOf(s, fd))
             && I.HandleOf(I.Run(moved, calls), alias) == I.HandleOf(s, fd)
    ensures var step, file := I.Perform(s, LseekCall(fd, offset, whence, faults)), s.files[I.HandleOf(s, fd)];
            I.Perform(I.Run(step.state, calls), LseekCall(alias, 0, SEEK_CUR, faults')).outcome == step.outcome
            <==> Target(file, offset, whence) != END_MARKER || file.size == END_MARKER
  {
    var h := I.HandleOf(s, fd);
    LseekSeeks(s, fd, offset, whence, faults);
    var moved := SeekHandle(s, h, offset, whence, faults).state;
    SeekMeans(s, h, offset, whence, faults);
    RunKeepsFile(moved, calls, h);
    var later := I.Run(moved, calls);
    LseekSeeks(later, alias, 0, SEEK_CUR, faults');
    MoveIsSeen(s, h, offset, whence, faults, later, faults');
  }

  /** An lseek moves the file its descriptor leads to, and fails when there is none. */
  lemma LseekSeeks(s: State, fd: int, offset: int, whence: int, faults: SeekFaults)
    requires HasTable(s)
    ensures I.Perform(s, LseekCall(fd, offset, whence, faults))
         == if I.HandleOf(s, fd) == 0 then Step(s, Returned(I.NotOpen(fd)))
            else SeekHandle(s, I.HandleOf(s, fd), offset, whence, faults)
  {
  }

  /** A query finds what a seek returned, in any later state that keeps the file. */
  lemma MoveIsSeen(s: State, h: Handle, offset: int, whence: int, faults: SeekFaults, later: State,
                   faults': SeekFaults)
    requires h in s.files && IsWhence(whence) && FaultMet(whence, faults) == 0 && FaultMet(SEEK_CUR, faults') == 0
    requires var moved := SeekHandle(s, h, offset, whence, faults).state;
             h in moved.files && h in later.files && later.files[h] == moved.files[h]
    ensures var file := s.files[h];
            SeekHandle(later, h, 0, SEEK_CUR, faults').outcome == SeekHandle(s, h, offset, whence, faults).outcome
            <==> Target(file, offset, whence) != END_MARKER || file.size == END_MARKER
  {
    SeekMeans(s, h, offset, whence, faults);
    SeekMeans(later, h, 0, SEEK_CUR, faults');
    var target, now := Target(s.files[h], offset, whence), later.files[h].position;
    SignedDetermines(target);
    SignedDetermines(now);
    assert U64(now) == now;
  }
}
