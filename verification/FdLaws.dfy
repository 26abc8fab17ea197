/** What the descriptor calls of the source do in every run, and exactly when they do what is meant. */
module FdLaws {
  import opened Errors
  import opened MachineInts
  import opened Descriptors
  import W = FdAsWritten
  import I = FdIntended
  import S = FdSeek

  predicate IsEmpty(s: State) {
    HasTable(s) && forall i :: 0 <= i < |s.slots| ==> s.slots[i] == 0
  }

  /** What a call on an empty table returns. */
  function Rejection(call: Call): int {
    if call.OpenCall? then -24 else if call.fd < 4 then -13 else -9
  }

  /** The call does not look for the target of a dup2 outside the array. */
  predicate StaysInArray(call: Call) {
    call.Dup2Call? && W.Guard(call.fd) == 0 ==> 0 <= call.newFd - VIRTUAL_FD_BASE < MAX_FDS
  }

  /** On an empty table every call fails and changes nothing. */
  lemma EmptyTableRejects(s: State, call: Call)
    requires IsEmpty(s)
    ensures W.Perform(s, call) == if StaysInArray(call) then Step(s, Returned(Rejection(call))) else Step(s, Undefined)
  {
  }

  /** A run of the source's calls; it ends, without a state, at undefined behaviour. */
  datatype Progress = At(state: State) | Broken

  function Run(s: State, calls: seq<Call>): (p: Progress)
    requires HasTable(s)
    ensures p.At? ==> HasTable(p.state)
  {
    if calls == [] then At(s)
    else
      var before := Run(s, calls[..|calls| - 1]);
      if before.Broken? then Broken
      else
        var step := W.Perform(before.state, calls[|calls| - 1]);
        if step.outcome.Undefined? then Broken else At(step.state)
  }

  predicate AllStayInArray(calls: seq<Call>) {
    forall i :: 0 <= i < |calls| ==> StaysInArray(calls[i])
  }

  /**
   * In every run on an empty table, the table stays as it was: no handle is ever opened, and every call fails. The
   * run is undefined exactly when some dup2 from a descriptor the guard accepts has a target outside the array.
   */
  lemma {:induction false} RunsGoNowhere(s: State, calls: seq<Call>)
    requires IsEmpty(s)
    ensures Run(s, calls) == if AllStayInArray(calls) then At(s) else Broken
  {
    if calls != [] {
      var last := |calls| - 1;
      var init := calls[..last];
      RunsGoNowhere(s, init);
      EmptyTableRejects(s, calls[last]);
      assert forall i :: 0 <= i < last ==> init[i] == calls[i];
      assert AllStayInArray(calls) <==> AllStayInArray(init) && StaysInArray(calls[last]);
    }
  }

  /** From start-up on, no program ever opens a file: every open in every run fails with EMFILE. */
  lemma EveryOpenFails(calls: seq<Call>, directory: bool, append: bool, answer: OpenAnswer)
    requires Run(Boot(), calls).At?
    ensures W.Open(Run(Boot(), calls).state, directory, append, answer) == Step(Boot(), Returned(-24))
  {
    RunsGoNowhere(Boot(), calls);
    EmptyTableRejects(Boot(), OpenCall(directory, append, answer));
  }

  /** Every call rejects the descriptors below 4 and above 16, and changes nothing. */
  lemma GuardRejects(s: State, call: Call)
    requires HasTable(s) && !call.OpenCall? && !(4 <= call.fd <= 16)
    ensures W.Perform(s, call) == Step(s, Returned(if call.fd < 4 then -13 else -9))
  {
  }

  /** The descriptors of the last three slots, which the guard rejects. */
  predicate Hidden(fd: int) {
    MAX_FDS < fd < VIRTUAL_FD_BASE + MAX_FDS
  }

  predicate IsOpen(s: State, fd: int)
    requires HasTable(s)
  {
    I.HandleOf(s, fd) != 0
  }

  lemma SameCheck(s: State, fd: int)
    requires HasTable(s)
    ensures W.Check(s, fd) == I.Check(s, fd) <==> !(Hidden(fd) && IsOpen(s, fd))
    ensures W.Check(s, fd) == 0 ==> I.Check(s, fd) == 0
  {
  }

  /** Another descriptor of the handle is slot 0, which the search reports like no slot at all. */
  predicate AliasInSlot0(s: State, fd: int)
    requires HasTable(s)
  {
    fd != VIRTUAL_FD_BASE && IsOpen(s, fd) && s.slots[0] == I.HandleOf(s, fd)
  }

  /** close does what is meant just when the guard knows the descriptor and slot 0 is not another alias. */
  lemma CloseIsRight(s: State, fd: int, errno: Errno)
    requires I.Sound(s)
    ensures W.Perform(s, CloseCall(fd, errno)) == I.Perform(s, CloseCall(fd, errno))
       <==> !(Hidden(fd) && IsOpen(s, fd)) && !(!Hidden(fd) && AliasInSlot0(s, fd))
  {
    CloseAgrees(s, fd, errno);
  }

  lemma CloseAgrees(s: State, fd: int, errno: Errno)
    requires I.Sound(s)
    ensures W.Close(s, fd, errno) == I.Close(s, fd, errno)
       <==> !(Hidden(fd) && IsOpen(s, fd)) && !(!Hidden(fd) && AliasInSlot0(s, fd))
  {
    SameCheck(s, fd);
    if W.Check(s, fd) == 0 {
      var h, reset := I.HandleOf(s, fd), I.SetSlot(s, fd, 0);
      if AliasInSlot0(s, fd) {
        assert reset.slots[0] == h;
        assert |CloseFile(reset, h).trace| != |reset.trace|;
      }
    } else if Hidden(fd) && IsOpen(s, fd) {
      assert I.Close(s, fd, errno).state.slots[fd - VIRTUAL_FD_BASE] == 0;
    }
  }

  /** In the other case close leaves a slot with a handle the firmware has freed. */
  lemma CloseKeepsSound(s: State, fd: int, errno: Errno)
    requires I.Sound(s)
    ensures I.Sound(W.Close(s, fd, errno).state) <==> Hidden(fd) || !AliasInSlot0(s, fd)
  {
    CloseAgrees(s, fd, errno);
    I.CloseStaysSound(s, fd, errno);
    var t := W.Close(s, fd, errno).state;
    if !Hidden(fd) && AliasInSlot0(s, fd) {
      assert t.slots[0] == I.HandleOf(s, fd) && t.slots[0] !in t.files;
    }
  }

  /** It closes the file all the same, and empties no slot but its own. */
  lemma CloseForgetsSlot0(s: State, fd: int, errno: Errno)
    requires I.Sound(s) && !Hidden(fd) && AliasInSlot0(s, fd)
    ensures var step, h := W.Perform(s, CloseCall(fd, errno)), I.HandleOf(s, fd);
            && step.outcome == Returned(0 - errno)
            && I.HandleOf(step.state, fd) == 0
            && (forall g :: I.IsDescriptor(g) && g != fd ==> I.HandleOf(step.state, g) == I.HandleOf(s, g))
            && step.state.files == s.files - {h} && step.state.trace == s.trace + [Closed(h)]
  {
    assert s.slots[fd - VIRTUAL_FD_BASE] in s.files;
    assert I.SetSlot(s, fd, 0).slots[0] == I.HandleOf(s, fd);
  }

  /** open does what is meant only when it fails in the firmware, on a table neither empty nor full. */
  lemma OpenIsRight(s: State, directory: bool, append: bool, answer: OpenAnswer)
    requires I.Sound(s) && I.Fresh(s, OpenCall(directory, append, answer))
    ensures W.Perform(s, OpenCall(directory, append, answer)) == I.Perform(s, OpenCall(directory, append, answer))
       <==> !IsEmpty(s) && 0 in s.slots && answer.Refused?
  {
    if !IsEmpty(s) && 0 in s.slots && answer.Granted? {
      I.OpenTrace(s, directory, append, answer);
      assert answer.handle in W.Open(s, directory, append, answer).state.files;
      assert answer.handle !in s.slots;
    }
    if FirstUsed(s.slots) < 0 {
      assert s.slots[0] == 0;
    }
  }

  /** A granted handle never reaches the table, so open keeps the table sound only when no handle is granted. */
  lemma OpenKeepsSound(s: State, directory: bool, append: bool, answer: OpenAnswer)
    requires I.Sound(s) && I.Fresh(s, OpenCall(directory, append, answer))
    ensures I.Sound(W.Open(s, directory, append, answer).state) <==> IsEmpty(s) || answer.Refused?
  {
    var t := W.Open(s, directory, append, answer).state;
    if FirstUsed(s.slots) >= 0 && answer.Granted? {
      assert answer.handle in t.files && t.slots == s.slots;
      assert answer.handle !in s.slots;
    }
  }

  ghost predicate LowestUsed(s: State, fd: int)
    requires HasTable(s)
  {
    I.IsDescriptor(fd) && IsOpen(s, fd) && forall g :: I.IsDescriptor(g) && g < fd ==> !IsOpen(s, g)
  }

  /** What the source takes for a free slot is that of the lowest open descriptor. */
  lemma UsedSlot(s: State)
    requires HasTable(s) && !IsEmpty(s)
    ensures FirstUsed(s.slots) >= 0 && LowestUsed(s, FirstUsed(s.slots) + VIRTUAL_FD_BASE)
  {
  }

  /**
   * On a table in use, open leaves every descriptor as it was. When nothing fails it returns the lowest open one,
   * which leads to another file, and no descriptor leads to the file it opened.
   */
  lemma OpenKeepsTable(s: State, directory: bool, append: bool, answer: OpenAnswer)
    requires I.Sound(s) && I.Fresh(s, OpenCall(directory, append, answer)) && !IsEmpty(s)
    ensures var step := W.Perform(s, OpenCall(directory, append, answer));
            var error := I.AnswerError(directory, answer);
            && step.state.slots == s.slots && step.outcome.Returned?
            && (if error != 0 then step.outcome.value == error else LowestUsed(s, step.outcome.value))
            && (answer.Refused? ==> step.state == s)
            && (answer.Granted? ==>
                  && answer.handle !in step.state.slots
                  && step.state.trace == s.trace + [Opened(answer.handle)]
                  && step.state.files.Keys == s.files.Keys + {answer.handle}
                  && (forall g :: g in s.files ==> step.state.files[g] == s.files[g]))
  {
    UsedSlot(s);
  }

  /** The file it opened stands where it should, even when open goes on to fail. */
  lemma OpenedStands(s: State, directory: bool, append: bool, answer: OpenAnswer, faults: SeekFaults)
    requires HasTable(s) && !IsEmpty(s) && answer.Granted?
    requires S.FaultMet(SEEK_CUR, faults) == 0 && S.FaultMet(SEEK_END, faults) == 0
    ensures var t := W.Open(s, directory, append, answer).state;
            && SeekHandle(t, answer.handle, 0, 1, faults).outcome
               == Returned(if append && answer.infoErrno == 0 && answer.seekErrno == 0 then S64(answer.size) else 0)
            && SeekHandle(t, answer.handle, 0, 2, faults).outcome == Returned(S64(answer.size))
  {
    UsedSlot(s);
    S.StandsAt(W.Open(s, directory, append, answer).state, answer.handle, faults);
  }

  /** dup does what is meant just when the descriptor is not open and it only has to say so. */
  lemma DupIsRight(s: State, fd: int)
    requires I.Sound(s)
    ensures W.Perform(s, DupCall(fd)) == I.Perform(s, DupCall(fd)) <==> !IsOpen(s, fd)
  {
    SameCheck(s, fd);
    if IsOpen(s, fd) {
      assert s.slots[fd - VIRTUAL_FD_BASE] != 0;
      assert FirstWith(s.slots, 0) >= 0 ==> I.Dup(s, fd).state.slots[FirstWith(s.slots, 0)] != 0;
    }
  }

  /** dup of a descriptor that the guard knows makes the lowest open one lead to its file, and changes nothing else. */
  lemma DupTakesUsed(s: State, fd: int)
    requires HasTable(s) && 4 <= fd <= 16
    ensures var step := W.Perform(s, DupCall(fd));
            if !IsOpen(s, fd) then step == Step(s, Returned(-9))
            else
              && step.outcome.Returned? && LowestUsed(s, step.outcome.value)
              && I.HandleOf(step.state, step.outcome.value) == I.HandleOf(s, fd)
              && (forall g :: I.IsDescriptor(g) && g != step.outcome.value ==>
                    I.HandleOf(step.state, g) == I.HandleOf(s, g))
              && step.state.files == s.files && step.state.trace == s.trace
  {
    if IsOpen(s, fd) {
      assert s.slots[fd - VIRTUAL_FD_BASE] != 0;
      UsedSlot(s);
    }
  }

  /** Storing a handle in a slot loses none: the slot is empty, holds it already, or its own has another slot. */
  predicate LosesNone(slots: seq<Handle>, slot: nat, h: Handle)
    requires slot < |slots|
  {
    slots[slot] == 0 || slots[slot] == h || exists i :: 0 <= i < |slots| && i != slot && slots[i] == slots[slot]
  }

  lemma OverwriteKeepsSound(s: State, slot: nat, h: Handle)
    requires I.Sound(s) && slot < |s.slots| && h != 0 && h in s.slots
    ensures I.Sound(s.(slots := s.slots[slot := h])) <==> LosesNone(s.slots, slot, h)
  {
    var g, t := s.slots[slot], s.(slots := s.slots[slot := h]);
    I.OthersStay(s, slot + VIRTUAL_FD_BASE, h);
    assert t == I.SetSlot(s, slot + VIRTUAL_FD_BASE, h);
    if i :| 0 <= i < |s.slots| && i != slot && s.slots[i] == g {
      assert t.slots[i] == g;
    } else if g != 0 && g != h {
      assert g in t.files && g !in t.slots;
    }
  }

  /** dup overwrites the first slot in use; the table stays sound just when that loses no handle. */
  lemma DupKeepsSound(s: State, fd: int)
    requires I.Sound(s)
    ensures I.Sound(W.Dup(s, fd).state) <==>
            Hidden(fd) || !IsOpen(s, fd)
            || LosesNone(s.slots, FirstUsed(s.slots), I.HandleOf(s, fd))
  {
    if W.Check(s, fd) == 0 {
      assert s.slots[fd - VIRTUAL_FD_BASE] != 0;
      OverwriteKeepsSound(s, FirstUsed(s.slots), I.HandleOf(s, fd));
    }
  }

  /** dup2 has nothing to do but report a descriptor: the source, or a target past the table. */
  predicate Dup2JustFails(s: State, fd: int, newFd: int)
    requires HasTable(s)
  {
    if IsOpen(s, fd) then Hidden(fd) && newFd >= VIRTUAL_FD_BASE + MAX_FDS
    else W.Guard(fd) != 0 || (I.IsDescriptor(newFd) && (!IsOpen(s, newFd) || Hidden(newFd)))
  }

  /** The one other case: the firmware reports an error for closing the last alias of the target. */
  predicate Dup2CloseFails(s: State, fd: int, newFd: int, errno: Errno)
    requires HasTable(s)
  {
    && IsOpen(s, fd) && !Hidden(fd) && newFd != fd
    && IsOpen(s, newFd) && !Hidden(newFd)
    && errno != 0
    && I.HandleOf(s, newFd) !in I.SetSlot(s, newFd, 0).slots
  }

  /** What dup2 does to its target before it looks at anything else. */
  function Dup2Target(s: State, newFd: int, errno: Errno): Step
    requires HasTable(s)
  {
    if IsOpen(s, newFd) then W.Close(s, newFd, errno) else Step(s, Returned(0))
  }

  /** Once the target is closed, dup2 fills the slot with the target's number. */
  lemma ShareFills(s: State, fd: int, newFd: int)
    requires HasTable(s) && W.Guard(fd) == 0 && I.IsDescriptor(newFd)
    ensures var step := W.Share(s, fd, newFd);
            step.outcome.Returned? && step.outcome.value >= 0 ==>
              && I.HandleOf(s, fd) != 0 && step.outcome.value == newFd + 4
              && I.HandleOf(step.state, newFd + 4) == I.HandleOf(s, fd)
              && (forall g :: I.IsDescriptor(g) && g != newFd + 4 ==> I.HandleOf(step.state, g) == I.HandleOf(s, g))
              && step.state.files == s.files && step.state.trace == s.trace
  {
  }

  lemma TargetClosed(s: State, newFd: int, errno: Errno)
    requires I.Sound(s) && I.IsDescriptor(newFd)
    ensures var target := Dup2Target(s, newFd, errno);
            && target.outcome.Returned?
            && (target.outcome.value >= 0 ==>
                  && I.HandleOf(target.state, newFd) == 0
                  && forall g :: I.IsDescriptor(g) && g != newFd ==> I.HandleOf(target.state, g) == I.HandleOf(s, g))
  {
    if IsOpen(s, newFd) {
      assert s.slots[newFd - VIRTUAL_FD_BASE] in s.files;
    }
  }

  lemma Dup2InTwo(s: State, fd: int, newFd: int, errno: Errno)
    requires I.Sound(s) && W.Guard(fd) == 0 && I.IsDescriptor(newFd)
    ensures var target := Dup2Target(s, newFd, errno);
            W.Dup2(s, fd, newFd, errno) == if target.outcome.Undefined? || target.outcome.value < 0 then target
                                           else W.Share(target.state, fd, newFd)
  {
    assert s.slots[newFd - VIRTUAL_FD_BASE] == I.HandleOf(s, newFd);
  }

  /**
   * A dup2 of the source that succeeds never names the descriptor it was asked for: that one is left closed, and the
   * slot with its number is filled. Nothing else changes but for closing the target.
   */
  lemma Dup2NeverNamesTarget(s: State, fd: int, newFd: int, errno: Errno)
    requires I.Sound(s)
    ensures var step := W.Perform(s, Dup2Call(fd, newFd, errno));
            step.outcome.Returned? && step.outcome.value >= 0 ==>
              && step.outcome.value == newFd + 4
              && I.HandleOf(step.state, newFd + 4) == I.HandleOf(s, fd)
              && (newFd != fd ==> I.HandleOf(step.state, newFd) == 0)
              && (forall g :: I.IsDescriptor(g) && g != newFd && g != newFd + 4 ==>
                    I.HandleOf(step.state, g) == I.HandleOf(s, g))
              && step.state.files == Dup2Target(s, newFd, errno).state.files
              && step.state.trace == Dup2Target(s, newFd, errno).state.trace
  {
    if W.Guard(fd) == 0 && I.IsDescriptor(newFd) {
      Dup2InTwo(s, fd, newFd, errno);
      TargetClosed(s, newFd, errno);
      ShareFills(Dup2Target(s, newFd, errno).state, fd, newFd);
    }
  }

  /** A dup2 from a descriptor that is not open, or to the same one, closes the target and then fails. */
  lemma Dup2ClosesFirst(s: State, fd: int, newFd: int, errno: Errno)
    requires I.Sound(s) && 4 <= fd <= 16 && I.IsDescriptor(newFd)
    requires !IsOpen(s, fd) || fd == newFd
    ensures var step, closed := W.Perform(s, Dup2Call(fd, newFd, errno)), Dup2Target(s, newFd, errno);
            && closed.outcome.Returned?
            && step == Step(closed.state, Returned(if closed.outcome.value < 0 then closed.outcome.value else -9))
  {
    Dup2InTwo(s, fd, newFd, errno);
    TargetClosed(s, newFd, errno);
  }

  /**
   * dup2 looks outside the array exactly when the target is no descriptor, or is one of the last four and the call
   * gets as far as storing the handle in the slot with its number.
   */
  lemma Dup2Undefined(s: State, fd: int, newFd: int, errno: Errno)
    requires I.Sound(s) && 4 <= fd <= 16
    ensures W.Perform(s, Dup2Call(fd, newFd, errno)).outcome.Undefined?
       <==> !(4 <= newFd < 20)
            || (newFd >= 16 && IsOpen(s, fd) && fd != newFd
                && Dup2Target(s, newFd, errno).outcome == Returned(0))
  {
    if I.IsDescriptor(newFd) {
      Dup2InTwo(s, fd, newFd, errno);
      TargetClosed(s, newFd, errno);
    }
  }

  /** dup2 does what is meant only where it just fails, in one of these two ways. */
  lemma Dup2IsRight(s: State, fd: int, newFd: int, errno: Errno)
    requires I.Sound(s)
    ensures W.Perform(s, Dup2Call(fd, newFd, errno)) == I.Perform(s, Dup2Call(fd, newFd, errno))
       <==> Dup2JustFails(s, fd, newFd) || Dup2CloseFails(s, fd, newFd, errno)
  {
    Dup2Agrees(s, fd, newFd, errno);
  }

  lemma Dup2Agrees(s: State, fd: int, newFd: int, errno: Errno)
    requires I.Sound(s)
    ensures W.Dup2(s, fd, newFd, errno) == I.Dup2(s, fd, newFd, errno)
       <==> Dup2JustFails(s, fd, newFd) || Dup2CloseFails(s, fd, newFd, errno)
  {
    SameCheck(s, fd);
    CloseAgrees(s, newFd, errno);
    Dup2Value(s, fd, newFd, errno);
  }

  lemma Dup2Value(s: State, fd: int, newFd: int, errno: Errno)
    requires I.Sound(s)
    ensures var outcome := W.Dup2(s, fd, newFd, errno).outcome;
            outcome.Returned? && outcome.value >= 0 ==> outcome.value == newFd + 4
  {
    Dup2NeverNamesTarget(s, fd, newFd, errno);
  }

  /** The target's handle has no other slot. */
  predicate LastAlias(s: State, fd: int)
    requires HasTable(s)
  {
    I.IsDescriptor(fd) && I.HandleOf(s, fd) !in I.SetSlot(s, fd, 0).slots
  }

  /** dup2 gets as far as storing the handle: in the slot with the number of the target descriptor. */
  predicate Dup2Stores(s: State, fd: int, newFd: int, errno: Errno)
    requires HasTable(s)
  {
    && IsOpen(s, fd) && newFd != fd
    && (IsOpen(s, newFd) ==> !Hidden(newFd) && !(LastAlias(s, newFd) && errno != 0))
  }

  /**
   * A dup2 that is defined keeps the table sound just when its target is not an alias of slot 0 that the guard
   * accepts, and the slot it stores to, once the target's is emptied, does not hold the last alias of a handle.
   */
  lemma Dup2KeepsSound(s: State, fd: int, newFd: int, errno: Errno)
    requires I.Sound(s)
    requires W.Dup2(s, fd, newFd, errno).outcome.Returned?
    ensures I.Sound(W.Dup2(s, fd, newFd, errno).state)
       <==> W.Guard(fd) != 0
            || ((Hidden(newFd) || !AliasInSlot0(s, newFd))
                && (Dup2Stores(s, fd, newFd, errno) ==>
                      LosesNone(I.SetSlot(s, newFd, 0).slots, newFd, I.HandleOf(s, fd))))
  {
    if W.Guard(fd) == 0 {
      if !IsOpen(s, newFd) {
        assert s.slots[newFd - VIRTUAL_FD_BASE := 0] == s.slots;
        Dup2ShareSound(s, fd, newFd);
      } else if !Hidden(newFd) {
        Dup2OverOpen(s, fd, newFd, errno);
      }
    }
  }

  /** dup2 to an open descriptor that the guard accepts. */
  lemma Dup2OverOpen(s: State, fd: int, newFd: int, errno: Errno)
    requires I.Sound(s) && W.Guard(fd) == 0 && IsOpen(s, newFd) && !Hidden(newFd)
    requires W.Dup2(s, fd, newFd, errno).outcome.Returned?
    ensures AliasInSlot0(s, newFd) ==> !I.Sound(W.Dup2(s, fd, newFd, errno).state)
    ensures !AliasInSlot0(s, newFd) ==>
              (I.Sound(W.Dup2(s, fd, newFd, errno).state) <==>
               (Dup2Stores(s, fd, newFd, errno) ==>
                  LosesNone(I.SetSlot(s, newFd, 0).slots, newFd, I.HandleOf(s, fd))))
  {
    var closed := W.Close(s, newFd, errno).state;
    if AliasInSlot0(s, newFd) {
      var t := W.Dup2(s, fd, newFd, errno).state;
      assert t.slots[0] == s.slots[0] && t.slots[0] !in t.files;
    } else {
      CloseKeepsSound(s, newFd, errno);
      assert closed.slots == I.SetSlot(s, newFd, 0).slots;
      assert fd != newFd ==> I.HandleOf(closed, fd) == I.HandleOf(s, fd);
      Dup2ShareSound(closed, fd, newFd);
    }
  }

  /** The second half of dup2, on a table that is still sound. */
  lemma Dup2ShareSound(s: State, fd: int, newFd: int)
    requires I.Sound(s) && W.Guard(fd) == 0 && I.IsDescriptor(newFd)
    ensures W.Share(s, fd, newFd).outcome.Returned? ==>
              (I.Sound(W.Share(s, fd, newFd).state) <==>
               !IsOpen(s, fd) || (newFd < MAX_FDS && LosesNone(s.slots, newFd, I.HandleOf(s, fd))))
  {
    if IsOpen(s, fd) && newFd < MAX_FDS {
      assert s.slots[fd - VIRTUAL_FD_BASE] == I.HandleOf(s, fd);
      OverwriteKeepsSound(s, newFd, I.HandleOf(s, fd));
    }
  }

  /** A seek of a file at position 2^64 - 9 to where it is returns what a rejected descriptor does. */
  predicate LooksRejected(file: File, offset: int, whence: int, faults: SeekFaults) {
    && S.IsWhence(whence) && S.FaultMet(whence, faults) == 0
    && file.position == TWO64 - EBADF
    && S.Target(file, offset, whence) == TWO64 - EBADF
  }

  /**
   * lseek does what is meant just when the descriptor is not hidden from the guard, but for the one seek that looks
   * like the rejection of a descriptor.
   */
  lemma LseekIsRight(s: State, fd: int, offset: int, whence: int, faults: SeekFaults)
    requires I.Sound(s)
    ensures W.Perform(s, LseekCall(fd, offset, whence, faults)) == I.Perform(s, LseekCall(fd, offset, whence, faults))
       <==> !(Hidden(fd) && IsOpen(s, fd)) || LooksRejected(s.files[I.HandleOf(s, fd)], offset, whence, faults)
  {
    LseekAgrees(s, fd, offset, whence, faults);
  }

  lemma LseekAgrees(s: State, fd: int, offset: int, whence: int, faults: SeekFaults)
    requires I.Sound(s)
    ensures W.Lseek(s, fd, offset, whence, faults) == I.Lseek(s, fd, offset, whence, faults)
       <==> !(Hidden(fd) && IsOpen(s, fd)) || LooksRejected(s.files[I.HandleOf(s, fd)], offset, whence, faults)
  {
    SameCheck(s, fd);
    if Hidden(fd) && IsOpen(s, fd) {
      var h := I.HandleOf(s, fd);
      assert s.slots[fd - VIRTUAL_FD_BASE] == h;
      var step := SeekHandle(s, h, offset, whence, faults);
      if S.IsWhence(whence) && S.FaultMet(whence, faults) == 0 {
        S.SeekMeans(s, h, offset, whence, faults);
        SignedDetermines(S.Target(s.files[h], offset, whence));
        assert U64(-EBADF) == TWO64 - EBADF;
        assert step.outcome == Returned(-EBADF) <==> S.Target(s.files[h], offset, whence) == TWO64 - EBADF;
        SameStateIff(s, h, offset, whence, faults);
      } else if S.IsWhence(whence) {
        S.SeekFails(s, h, offset, whence, faults);
      }
    }
  }

  /** A seek changes nothing just when it leaves the file at its position. */
  lemma SameStateIff(s: State, h: Handle, offset: int, whence: int, faults: SeekFaults)
    requires h in s.files && S.IsWhence(whence) && S.FaultMet(whence, faults) == 0
    ensures var t := SeekHandle(s, h, offset, whence, faults).state;
            t == s <==> t.files[h].position == s.files[h].position
  {
    S.SeekMeans(s, h, offset, whence, faults);
    var t := SeekHandle(s, h, offset, whence, faults).state;
    if t.files[h].position == s.files[h].position {
      assert t.files == s.files;
    }
  }
}
