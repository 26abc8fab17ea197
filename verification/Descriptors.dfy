/** The state behind the file descriptors: the 16 slots of the table, and the firmware's open files. */
module Descriptors {
  import opened Errors
  import opened MachineInts

  const MAX_FDS: int := 16
  const VIRTUAL_FD_BASE: int := 4

  const EBADF: int := 9
  const EACCES: int := 13
  const ENOTDIR: int := 20
  const EISDIR: int := 21
  const EMFILE: int := 24

  /** A firmware file handle; 0 is the null pointer. */
  type Handle = nat

  /** A file that is open, with its 64-bit length and position. */
  datatype File = File(size: Word64, position: Word64)

  /** What the firmware was asked to do with handles, oldest first. */
  datatype Event = Opened(handle: Handle) | Closed(handle: Handle)

  datatype State = State(slots: seq<Handle>, files: map<Handle, File>, trace: seq<Event>)

  /** The value a call returns, or that it runs into behaviour the C language leaves undefined. */
  datatype Outcome = Returned(value: int) | Undefined

  datatype Step = Step(state: State, outcome: Outcome)

  /**
   * The firmware's answer to Open; `infoErrno` is that of the GetInfo call that follows, 0 when it succeeds, and
   * `seekErrno` that of the move to the end for appending, which the source ignores.
   */
  datatype OpenAnswer =
    | Refused(errno: Fault)
    | Granted(handle: Handle, size: Word64, isDirectory: bool, infoErrno: Errno, seekErrno: Errno)

  /** The errno of each position call, 0 when it succeeds: the one to the end, the query, and the final one. */
  datatype SeekFaults = SeekFaults(toEnd: Errno, query: Errno, set_: Errno)

  datatype Call =
    | OpenCall(directory: bool, append: bool, answer: OpenAnswer)
    | CloseCall(fd: int, errno: Errno)
    | DupCall(fd: int)
    | Dup2Call(fd: int, newFd: int, errno: Errno)
    | LseekCall(fd: int, offset: int, whence: int, faults: SeekFaults)

  predicate HasTable(s: State) {
    |s.slots| == MAX_FDS
  }

  /** The table as the start-up code leaves it. */
  function Boot(): (s: State)
    ensures HasTable(s) && forall i :: 0 <= i < |s.slots| ==> s.slots[i] == 0
    ensures s.files == map[] && s.trace == []
  {
    State(seq(16, i => 0), map[], [])
  }

  /** The first slot in use, or -1. */
  function FirstUsed(slots: seq<Handle>): (r: int)
    ensures -1 <= r < |slots|
    ensures r >= 0 ==> slots[r] != 0 && forall i :: 0 <= i < r ==> slots[i] == 0
    ensures r < 0 ==> forall i :: 0 <= i < |slots| ==> slots[i] == 0
  {
    if slots == [] then -1
    else if slots[0] != 0 then 0
    else
      var r := FirstUsed(slots[1..]);
      assert forall i :: 1 <= i < |slots| ==> slots[i] == slots[1..][i - 1];
      if r < 0 then -1 else r + 1
  }

  /** The first slot with the handle, or -1. */
  function FirstWith(slots: seq<Handle>, h: Handle): (r: int)
    ensures -1 <= r < |slots|
    ensures r >= 0 ==> slots[r] == h && forall i :: 0 <= i < r ==> slots[i] != h
    ensures r < 0 <==> h !in slots
  {
    if slots == [] then -1
    else if slots[0] == h then 0
    else
      var r := FirstWith(slots[1..], h);
      assert forall i :: 1 <= i < |slots| ==> slots[i] == slots[1..][i - 1];
      if r < 0 then -1 else r + 1
  }

  function OpenFile(s: State, h: Handle, file: File): State {
    s.(files := s.files[h := file], trace := s.trace + [Opened(h)])
  }

  /** The firmware's Close. It frees the handle even when it reports an error. */
  function CloseFile(s: State, h: Handle): State {
    s.(files := s.files - {h}, trace := s.trace + [Closed(h)])
  }

  /** The file as Open leaves it, moved to its end for appending once GetInfo has succeeded. */
  function NewFile(answer: OpenAnswer, append: bool): File
    requires answer.Granted?
  {
    var file := File(answer.size, 0);
    if append && answer.infoErrno == 0 && answer.seekErrno == 0 then SetPosition(file, END_MARKER) else file
  }

  /** Closing a handle the firmware has freed already is undefined. */
  function GiveBack(s: State, h: Handle, errno: Errno): Step {
    if h in s.files then Step(CloseFile(s, h), Returned(Failure(errno))) else Step(s, Undefined)
  }

  const END_MARKER: Word64 := 0xFFFF_FFFF_FFFF_FFFF

  /** The firmware's SetPosition (UEFI Specification 2.10, section 13.5): all ones means the end of the file. */
  function SetPosition(file: File, target: Word64): File {
    file.(position := if target == END_MARKER then file.size else target)
  }

  const SEEK_SET: int := 0
  const SEEK_CUR: int := 1
  const SEEK_END: int := 2

  /** The position part of lseek on an open handle. A `whence` the switch does not know leaves the status unset. */
  function SeekHandle(s: State, h: Handle, offset: int, whence: int, faults: SeekFaults): Step {
    if h !in s.files then Step(s, Undefined)
    else if whence == SEEK_SET then SeekTo(s, h, U64(offset), faults)
    else if whence == SEEK_END then
      if faults.toEnd != 0 then Step(s, Returned(Failure(faults.toEnd)))
      else SeekBy(s.(files := s.files[h := SetPosition(s.files[h], END_MARKER)]), h, offset, faults)
    else if whence == SEEK_CUR then SeekBy(s, h, offset, faults)
    else Step(s, Undefined)
  }

  function SeekBy(s: State, h: Handle, offset: int, faults: SeekFaults): Step
    requires h in s.files
  {
    if faults.query != 0 then Step(s, Returned(Failure(faults.query)))
    else SeekTo(s, h, Add64(s.files[h].position, offset), faults)
  }

  function SeekTo(s: State, h: Handle, target: Word64, faults: SeekFaults): Step
    requires h in s.files
  {
    if faults.set_ != 0 then Step(s, Returned(Failure(faults.set_)))
    else Step(s.(files := s.files[h := SetPosition(s.files[h], target)]), Returned(S64(target)))
  }
}
