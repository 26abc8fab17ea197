/** A concrete input for each property the source does not have on all inputs. */
module Witnesses {
  import opened MachineInts
  import opened GregorianCalendar
  import opened EfiTime
  import opened ConsoleText
  import opened Console
  import opened ConsoleLaws
  import opened Descriptors
  import ByteReads
  import GetDelim
  import Lines
  import WideString
  import YearSeconds
  import W = FdAsWritten
  import I = FdIntended
  import S = FdSeek

  /** Noon of 1 January 2000 is taken for noon of 1 January 3998. */
  lemma OldYear(t: Moment)
    requires t.year == 2000 && t.month == 1 && t.day == 1 && t.hour == 12 && t.minute == 0 && t.second == 0
    ensures Valid(t) && Reading(t).year == 3998 && Converted(t) != EpochSeconds(t)
  {
    ReadsOldDates(t);
    ExactFrom2001(t);
  }

  /** The fields GetTime leaves at 0 when it fails are converted to the start of 31 March 2019. */
  lemma NoTime(t: Moment, date: Moment)
    requires t.year == 0 && t.month == 0 && t.day == 0 && t.hour == 0 && t.minute == 0 && t.second == 0
    requires date == t.(year := 2019, month := 3, day := 31)
    ensures Valid(date) && Converted(t) == EpochSeconds(date) == 1553990400
  {
    MonthsCarry(t);
    MarchOf2019(date.year);
    SecondsOfReading(date, 86400 * (17897 + 59));
    SecondsOfReading(date.(month := 4, day := 0), 86400 * (17897 + 90));
  }

  lemma MarchOf2019(year: int)
    requires year == 2019
    ensures DaysToYear(year) == 17897 && DaysToMonth(year, 3) == 59 && DaysToMonth(year, 4) == 90
  {
    DaysToYearClosed(year);
    MonthStarts(year, 3);
    MonthStarts(year, 4);
  }

  /** The last second of each 29 February up to 2000, such as that of 1904, is not one second before the next. */
  lemma OldLeapDay(t: Moment)
    requires IsLeapYear(t.year) && t.year <= 2000 && t.month == 2 && t.day == 29
    requires t.hour == 23 && t.minute == 59 && t.second == 59
    ensures Valid(t) && AtSeam(t) && Converted(NextSecond(t)) != Converted(t) + 1
  {
    NoLeapYearLater(t.year);
    ConvertedTick(t);
  }

  lemma NoLeapYearLater(year: int)
    requires IsLeapYear(year)
    ensures !IsLeapYear(year + 1998)
  {
    Quotient4(year + 1998, year / 4 + 499, 2);
  }

  lemma LeapYear1904(year: int)
    requires year == 1904
    ensures IsLeapYear(year)
  {
  }

  /** The conversion to int makes nothing of the cycles of the years 2^32, 2 * 2^32, ... cycles after 2000. */
  method LostYear(year: nat, k: nat) returns (secs: nat)
    requires k > 0 && year == 100 + 400 * (TWO32 * k) < TWO64
    ensures S64(secs) != YearSeconds.SECONDS_PER_DAY * DaysToYear(1900 + year)
  {
    YearsLost(year, k);
    secs := YearSeconds.TimeYearToSecs(year, null);
  }

  lemma YearsLost(year: nat, k: nat)
    requires k > 0 && year == 100 + 400 * (TWO32 * k) < TWO64
    ensures YearSeconds.FitsPastCutOff(year)
  {
    var n, c := year - 100, TWO32 * k;
    assert U64(n) == n;
    assert n / 400 == c && n % 400 == 0;
    assert c % TWO32 == 0;
    assert n % 100 == 0;
  }

  /** One letter typed into a buffer of one byte is reported as two. */
  lemma OneLetter(key: Key)
    requires key.low == 65 && key.high == 0
    ensures Returns([key], 1) && Taken([key], 1) == 1 && ReadResult([key], 1) == 2
  {
  }

  /** A buffer of 2^32 - 1 bytes filled with letters is reported as empty. */
  lemma ManyLetters(keys: seq<Key>)
    requires |keys| == TWO32 - 1 && forall i :: 0 <= i < |keys| ==> keys[i].low == 65
    ensures Returns(keys, |keys|) && Taken(keys, |keys|) == |keys| && ReadResult(keys, |keys|) == 0
  {
    TakenIs(keys, |keys|, |keys|);
  }

  /** A lone line feed fills the stack buffer, and the terminator goes past it. */
  lemma LoneLineFeed(bytes: seq<Byte>)
    requires |bytes| == 1 && bytes[0] == LF
    ensures |Encode(bytes)| == 2 * |bytes|
  {
    TerminatorFits(bytes);
  }

  /** Ctrl-J is echoed as a line feed and written as a carriage return and a line feed. */
  lemma TypedLineFeed(keys: seq<Key>)
    requires |keys| == 1 && keys[0].low == LF && keys[0].high == 0
    ensures Echo(keys, 1) != Encode(StoredBytes(keys[..1]))
  {
    EchoIsWrite(keys, 1);
    assert !Plain(keys[0]);
  }

  /** A backspace typed first leaves the letter that was in the buffer, and shows nothing of it. */
  lemma SkippedLetter(before: seq<Byte>, keys: seq<Key>)
    requires |before| == 2 && before[0] == 97
    requires |keys| == 2 && IsBackspace(keys[0]) && keys[1].low == 98 && keys[1].high == 0
    ensures Filled(before, keys, 2)[..2] == [97, 98]
    ensures Echo(keys, 2) != Encode(Filled(before, keys, 2)[..2])
  {
    FilledCells(before, keys, 2);
    assert Swallowed(keys, 0);
    EchoIsWriteOfCells(before, keys, 2);
  }

  /** A backspace after a letter is stored by one read of two bytes and skipped by two reads of one. */
  lemma LetterAndBackspace(before: seq<Byte>, keys: seq<Key>)
    requires |before| == 2 && before[1] == 0
    requires |keys| == 2 && keys[0].low == 65 && IsBackspace(keys[1])
    ensures ByteReads.OneByOne(before, keys, 2).cells != ByteReads.AtOnce(before, keys, 2).cells
    ensures ByteReads.OneByOne(before, keys, 2).shown != ByteReads.AtOnce(before, keys, 2).shown
  {
    assert Taken(keys[1..], 1) == 1;
    ByteReads.OneByOneIsAtOnce(before, keys, 2);
  }

  /** A line of four bytes fills a block of exactly four cells: the NUL after it would go past the end. */
  method ExactBlock(line: seq<Byte>) returns (buf: GetDelim.LineBuffer, end: nat)
    requires |line| == 4 && Lines.IsLine(line, LF)
    ensures buf.out != null && buf.outSize == buf.out.Length == end && buf.out[..] == line
  {
    buf := new GetDelim.LineBuffer();
    buf.out, buf.outSize := new Byte[4], 4;
    var input := new GetDelim.Input(null, line, 0);
    assert line + [] == line;
    Lines.FindInFirst(line, [], LF);
    var found;
    end, found := GetDelim.CopyLine(buf, LF, input);
    assert buf.out[..end] == buf.out[..] && line[..end] == line;
  }

  /** Two paths of 511 characters that differ in the last one are one path to the firmware. */
  lemma LongPaths(s: seq<Byte>, t: seq<Byte>)
    requires |s| == |t| == 512 && s[511] == 0 && t[511] == 0 && s[510] == 97 && t[510] == 98
    requires forall i :: 0 <= i < 510 ==> s[i] == t[i] == 97
    ensures WideString.Text(s) != WideString.Text(t) && WideString.Clipped(s) == WideString.Clipped(t)
  {
    assert WideString.Length(s) == 511 && WideString.Length(t) == 511;
    assert WideString.Text(s)[510] != WideString.Text(t)[510];
    WideString.SamePathIff(s, t);
  }

  /** Two paths of 510 characters that differ in the last one are told apart. */
  lemma LongestPaths(s: seq<Byte>, t: seq<Byte>)
    requires |s| == |t| == 511 && s[510] == 0 && t[510] == 0 && s[509] == 97 && t[509] == 98
    requires forall i :: 0 <= i < 509 ==> s[i] == t[i] == 97
    ensures WideString.Clipped(s) != WideString.Clipped(t)
  {
    assert WideString.Length(s) == 510 && WideString.Length(t) == 510;
    assert WideString.Text(s)[509] != WideString.Text(t)[509];
    assert s[..510][509] != t[..510][509];
    WideString.SamePathIff(s, t);
  }

  /** A table whose slots 0 and 1 share the handle `h`. */
  predicate SharedPair(s: State, h: Handle) {
    && HasTable(s) && h != 0
    && s.slots[0] == h && s.slots[1] == h && (forall i :: 2 <= i < MAX_FDS ==> s.slots[i] == 0)
    && s.files.Keys == {h} && s.trace == [Opened(h)]
  }

  /** Opening a file and duplicating its descriptor makes such a table, when the calls do what is meant. */
  lemma SharedPairArises(h: Handle, size: Word64)
    requires h != 0
    ensures var calls := [OpenCall(false, false, Granted(h, size, false, 0, 0)), DupCall(4)];
            I.FreshRun(Boot(), calls) && SharedPair(I.Run(Boot(), calls), h) && I.Sound(I.Run(Boot(), calls))
  {
    var open, dup := OpenCall(false, false, Granted(h, size, false, 0, 0)), DupCall(4);
    RunOfTwo(Boot(), open, dup);
    var s := I.Perform(Boot(), open).state;
    assert s.slots[0] == h && FirstWith(s.slots, 0) == 1;
    I.RunsAreSound([open, dup]);
  }

  lemma RunOfTwo(s: State, first: Call, second: Call)
    requires HasTable(s)
    ensures var t := I.Perform(s, first).state;
            && I.Run(s, [first, second]) == I.Perform(t, second).state
            && (I.FreshRun(s, [first, second]) <==> I.Fresh(s, first) && I.Fresh(t, second))
  {
    var calls := [first, second];
    assert calls[..1] == [first] && calls[..0] == [] && [first][..0] == [];
    assert I.Run(s, calls[..0]) == s && I.Run(s, calls[..1]) == I.Perform(s, first).state;
    if I.FreshRun(s, calls) {
      assert I.Fresh(I.Run(s, calls[..0]), calls[0]) && I.Fresh(I.Run(s, calls[..1]), calls[1]);
    }
  }

  /** Closing descriptor 5 of the pair frees the handle that descriptor 4 still leads to. */
  lemma ClosePair(s: State, h: Handle)
    requires SharedPair(s, h)
    ensures var t := W.Close(s, 5, 0).state; t.slots[0] == h && h !in t.files
  {
  }

  /** Closing descriptor 4 as well then frees that handle a second time, which is undefined. */
  lemma CloseBoth(s: State, h: Handle)
    requires SharedPair(s, h)
    ensures W.Close(W.Close(s, 5, 0).state, 4, 0).outcome.Undefined?
  {
    var reset := W.Close(s, 5, 0).state.slots[0 := 0];
    assert forall i :: 0 <= i < |reset| ==> reset[i] == 0;
  }

  /** Opening a file next to the pair returns descriptor 4, which leads to the old file; the new one is leaked. */
  lemma OpenNextToPair(s: State, h: Handle, answer: OpenAnswer)
    requires SharedPair(s, h)
    requires answer.Granted? && answer.handle != 0 && answer.handle != h && answer.infoErrno == 0 && !answer.isDirectory
    ensures var step := W.Open(s, false, false, answer);
            && step.outcome == Returned(4) && step.state.slots[0] == h
            && answer.handle in step.state.files && answer.handle !in step.state.slots
  {
    var t := W.Open(s, false, false, answer).state;
    assert forall i :: 0 <= i < |t.slots| ==> t.slots[i] != answer.handle;
  }

  /** So it is when the firmware grants the second file and then reports an error for it. */
  lemma LateErrorLeaks(s: State, h: Handle, answer: OpenAnswer)
    requires SharedPair(s, h)
    requires answer.Granted? && answer.handle != 0 && answer.handle != h && answer.infoErrno == 5
    ensures var step := W.Open(s, false, false, answer);
            && step.outcome == Returned(-5)
            && answer.handle in step.state.files && answer.handle !in step.state.slots
  {
    var t := W.Open(s, false, false, answer).state;
    assert forall i :: 0 <= i < |t.slots| ==> t.slots[i] != answer.handle;
  }

  /** Duplicating descriptor 5 of the pair returns descriptor 4 instead of a free one. */
  lemma DupPair(s: State, h: Handle)
    requires SharedPair(s, h)
    ensures W.Dup(s, 5) == Step(s, Returned(4)) && I.Dup(s, 5).outcome == Returned(6)
  {
    assert s.slots[0 := h] == s.slots;
    assert s.slots[2] == 0;
  }

  /** A table whose slots 0 and 1 hold two handles. */
  predicate TwoFiles(s: State, g: Handle, h: Handle) {
    && HasTable(s) && g != 0 && h != 0 && g != h
    && s.slots[0] == g && s.slots[1] == h && (forall i :: 2 <= i < MAX_FDS ==> s.slots[i] == 0)
    && s.files.Keys == {g, h}
  }

  /** Opening two files makes such a table, when the calls do what is meant. */
  lemma TwoFilesArise(g: Handle, h: Handle, size: Word64)
    requires g != 0 && h != 0 && g != h
    ensures var calls := [OpenCall(false, false, Granted(g, size, false, 0, 0)),
                          OpenCall(false, false, Granted(h, size, false, 0, 0))];
            I.FreshRun(Boot(), calls) && TwoFiles(I.Run(Boot(), calls), g, h)
  {
    var first := OpenCall(false, false, Granted(g, size, false, 0, 0));
    var second := OpenCall(false, false, Granted(h, size, false, 0, 0));
    RunOfTwo(Boot(), first, second);
    var s := I.Perform(Boot(), first).state;
    assert s.slots[0] == g && FirstWith(s.slots, 0) == 1;
  }

  /** Duplicating descriptor 5 of two open ones overwrites the other: its file stays open with no descriptor. */
  lemma DupOverwrites(s: State, g: Handle, h: Handle)
    requires TwoFiles(s, g, h)
    ensures I.Sound(s)
    ensures var step := W.Dup(s, 5);
            step.outcome == Returned(4) && g in step.state.files && g !in step.state.slots
  {
    var t := W.Dup(s, 5).state;
    assert forall i :: 0 <= i < |t.slots| ==> t.slots[i] != g;
  }

  /** Asked to make descriptor 6 share with 5, dup2 returns 10 and leaves 6 without a file. */
  lemma Dup2Pair(s: State, h: Handle)
    requires SharedPair(s, h)
    ensures var step := W.Dup2(s, 5, 6, 0);
            step.outcome == Returned(10) && step.state.slots[6] == h && I.HandleOf(step.state, 6) == 0
  {
  }

  /** Asked to make descriptor 5 share with 4, which it does already, dup2 returns 9 for a handle it has freed. */
  lemma Dup2Frees(s: State, h: Handle)
    requires SharedPair(s, h)
    ensures var step := W.Dup2(s, 4, 5, 0);
            step.outcome == Returned(9) && step.state.slots[0] == step.state.slots[5] == h && h !in step.state.files
  {
  }

  /** A table whose only handle is in the last slot. */
  predicate LastSlotOnly(s: State, h: Handle) {
    && HasTable(s) && h != 0
    && s.slots[15] == h && (forall i :: 0 <= i < 15 ==> s.slots[i] == 0)
    && s.files.Keys == {h}
  }

  /** Descriptor 19 leads to it, but the guard rejects a seek to the start. */
  lemma SeekLastSlot(s: State, h: Handle)
    requires LastSlotOnly(s, h)
    ensures I.Sound(s)
    ensures W.Lseek(s, 19, 0, SEEK_SET, SeekFaults(0, 0, 0)) == Step(s, Returned(-EBADF))
    ensures I.Lseek(s, 19, 0, SEEK_SET, SeekFaults(0, 0, 0)).outcome == Returned(0)
  {
    assert s.slots[15] in s.slots;
  }

  /** Two steps over the end marker are not one: from just below it, the first ends at the end of the file. */
  lemma SeekOverMarker(s: State, h: Handle, faults: SeekFaults)
    requires h in s.files && s.files[h].size == 5 && s.files[h].position == TWO64 - 2
    requires S.FaultMet(SEEK_CUR, faults) == 0
    ensures SeekHandle(s, h, 1, SEEK_CUR, faults).state.files[h].position == 5
    ensures SeekHandle(s, h, 2, SEEK_CUR, faults).state.files[h].position == 0
  {
  }
}
