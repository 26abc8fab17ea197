# A model of UEFILinux's clock, console and descriptor table

UEFILinux emulates basic Linux system calls on top of UEFI firmware. This project models three parts of it in
Dafny and proves what they do on every input and in every run:

- **The clock** (`GregorianCalendar`, `YearSeconds`, `EfiTime`): the conversion of the firmware's calendar time to
  seconds since the epoch, in C's integer types, against a calendar that adds up days one by one and a clock that
  ticks second by second.
- **The console and line reading** (`ConsoleText`, `Console`, `ConsoleLaws`, `ByteReads`, `Lines`, `GetDelim`,
  `TypedLines`, `WideString`):
  the loops behind `write` to descriptors 1 and 2, `read` from descriptor 0, `my_getdelim`, and the widening of
  paths, against functions on sequences.
- **File descriptors** (`Errors`, `Descriptors`, `FdAsWritten`, `FdIntended`, `FdLaws`, `FdSeek`): the 16-slot table of
  shared firmware handles as the source has it, against a reference machine that does what the calls are for.

Code that changes state step by step is modelled by methods and classes, each tied by its postconditions to a
function of its inputs or of the old state; the lemmas are about those functions. `MachineInts` holds the C integer
types: `CInt` is a type whose operations must be shown not to overflow, `U64` and `S64` are the conversions to and
from 64 bits, `Next32` steps an `unsigned` index, and `Byte`, `Word16` and `Word64` are the stored widths. Run
`dafny verify dfyconfig.toml` to check everything.

## Where the code does not do what it is for

The model keeps the code as it is. Each of these findings is proved, with the exact condition under which the code
is right; `Witnesses` adds a concrete input for each failure.

- Calendar years up to 2000 are moved 1998 years ahead (`src/linux-uefi.c:236`), so the conversion is right exactly
  for years after 2000 (`ExactFrom2001`), and a tick of the clock is one second except at the seams `AtSeam`
  describes. The conversion also overwrites its argument, so converting the same object twice gives a different
  time (`SecondConversionDiffers`). Years whose count of 400-year cycles exceeds an `int` get wrong seconds
  (`TimeYearToSecs`; line 200).
- A read of descriptor 0 that fills its buffer without meeting a line end returns one more than the buffer holds,
  or 0 when that wraps around in 32 bits (line 534); the result counts the keys exactly when a line end is among
  them (`ResultCountsKeys`). A backspace typed first uses up a cell of the buffer without writing it (lines
  515-516), so cutting a read into shorter ones changes what is stored and shown exactly when a part starts with a
  backspace (`FilledSplits`, `EchoSplits`, `OneByOneIsAtOnce`), and what is shown is not what a write of the cells
  would show, unless that cell holds a NUL (`EchoIsWriteOfCells`).
- `my_getdelim` stores its NUL past a block of exactly `*out_size` cells when the line is just as long
  (`include/getdelim.h:38`); every other line fits, and a block that has grown always has a cell to spare (`CopyLine`).
- The terminator of a console write lands past the end of its stack buffer exactly when every byte written is a
  line feed, or none is written (`TerminatorFits`; line 575).
- A path is cut off after 510 characters, so longer ones that agree so far are one path (`SamePathIff`).
- The search for a free slot finds an occupied one (line 295), and `fd_open` never stores the handle it obtains
  (lines 331-373). Starting from the empty table, no run ever opens a file (`RunsGoNowhere`, `EveryOpenFails`).
- On tables that are not empty, `fd_open` gives back no handle on late errors (lines 354-355 and 366-370), `fd_close`
  takes slot 0 for no slot (lines 308 and 388), the guards reject the descriptors of the last three slots (line 377
  and its siblings), `fd_dup` overwrites a slot in use, and `fd_dup2` takes descriptor numbers for slot numbers
  (lines 440, 453, 455) and closes the target before it looks at the source. `OpenIsRight`, `CloseIsRight`,
  `DupIsRight`, `Dup2IsRight` and `LseekIsRight` give the exact cases in which each call still agrees with the
  reference machine, and `OpenKeepsSound`, `CloseKeepsSound`, `DupKeepsSound` and `Dup2KeepsSound` those in which it
  leaves the table sound. `OpenKeepsTable`, `CloseForgetsSlot0`, `DupTakesUsed`, `Dup2NeverNamesTarget`,
  `Dup2ClosesFirst` and `Dup2Undefined` say what the calls do instead.

The reference machine `FdIntended` differs from the source in just these points: it looks for a free slot, stores
the handle, gives it back on late errors, tells slot 0 from no slot, accepts the descriptors 4 to 19, uses slot
numbers throughout, and validates the source of a dup2, and the case of equal descriptors, before it closes
anything.

## Model

| member | source | states |
|---|---|---|
| GregorianCalendar.PosixFormula | src/linux-uefi.c:195-230 | The year part of the formula in section 4.16 of IEEE Std 1003.1-2017 is 86400 times the days counted year by year, for every year |
| GregorianCalendar.FourCenturyPeriod | src/linux-uefi.c:200-228 | Four hundred years later is 146097 days later, with the same leap rule: what the 400-year cycles of the source rest on |
| GregorianCalendar.Tick | src/linux-uefi.c:255-261 | One tick of a valid clock, over every carry, is one second |
| GregorianCalendar.OrderIsSeconds | src/linux-uefi.c:255-261 | Seconds order and identify valid moments exactly as the calendar does |
| GregorianCalendar.ClockRunsFrom | src/linux-uefi.c:255-261 | The difference in seconds is exactly the number of ticks from one moment to the other |
| GregorianCalendar.EpochIsZero | src/linux-uefi.c:255-261 | Midnight of 1 January 1970 is second 0 |
| YearSeconds.YearToSecsFast | src/linux-uefi.c:188-196 | For offsets 2 to 138 the wrapped unsigned sum, read back as signed, is 86400 times the day-by-day count, negative before 1970, and the leap flag follows the 4/100/400 rule |
| YearSeconds.YearToSecsByCycles | src/linux-uefi.c:200-230 | For every 64-bit year on which the leap-day count overflows nowhere, the seconds are those of the calendar exactly below the year whose cycle count is cut off by the conversion to int; the leap flag is always right |
| YearSeconds.TimeYearToSecs | src/linux-uefi.c:185-231 | The whole function meets the calendar, on both branches, exactly below the cut-off year |
| YearSeconds.FourCenturiesApart | src/linux-uefi.c:185-231 | The function itself gives 146097 days more for a year four centuries later, on whichever branch either year falls, up to the last year whose leap-day count is defined |
| YearSeconds.SecondsFromCycles | src/linux-uefi.c:200-230 | Cutting off the cycle count always shows in the 64-bit result |
| YearSeconds.FitsOnlyFrom2000 | src/linux-uefi.c:188-201 | For offsets 0 and 1, which wrap around and miss the fast branch, and for all others below 100, the leap-day count of the slow branch overflows, so the source is undefined |
| YearSeconds.CountFitsUpTo | src/linux-uefi.c:200-228 | Below the cut-off year the leap-day count is free of overflow exactly up to offset 8855602772 |
| MachineInts.ShiftIsFloor | src/linux-uefi.c:190 | The arithmetic shift of a possibly negative number is division rounding down |
| EfiTime.TimeEfiTimeToTimeT | src/linux-uefi.c:235-263 | The result is the calendar's seconds for the date the fields are read as, for every value of the fields; the year is left less 1900, or 98 more up to 2000, the month one less, or 255 for 0, and the other fields as they were |
| EfiTime.MonthTable | src/linux-uefi.c:239-257 | The month table with its leap-day correction agrees with the summed month lengths |
| EfiTime.ExactFrom2001 | src/linux-uefi.c:236-262 | For valid dates the conversion gives their seconds if and only if the year is after 2000 |
| EfiTime.ConversionIsClock | src/linux-uefi.c:235-263 | For valid dates after 2000, a clock at the epoch shows the date after exactly as many ticks as the conversion says |
| EfiTime.ConversionIsOrdered | src/linux-uefi.c:235-263 | Converted times after 2000 are ordered and distinguished exactly like the dates |
| EfiTime.ConvertedTick | src/linux-uefi.c:235-263 | For every valid date, the next second converts to one more if and only if it is not at one of the seams that the year workaround causes |
| EfiTime.MonthsCarry | src/linux-uefi.c:236-256 | For every value of the fields, the calendar date whose seconds the result is: years up to 2000 count 1998 more, months past 12 carry whole years, and month 0 wraps to 255 and is read as April 21 years on |
| EfiTime.FieldsAddUp | src/linux-uefi.c:258-261 | Whatever the fields hold, day 0 included, one more in the day, hour, minute or second is 86400, 3600, 60 or 1 more in the result |
| EfiTime.SecondConversionDiffers | src/linux-uefi.c:236-237 | Converting the same object a second time never gives the same result |
| EfiTime.SecondConversion | src/linux-uefi.c:236-262 | The date whose seconds a second conversion of the same object gives: for most, a month earlier and 98 years later |
| ConsoleText.EncodeJoins | src/linux-uefi.c:561-574 | Splitting a write into several shows the same text |
| ConsoleText.EncodedLength | src/linux-uefi.c:559-575 | The final index is the number of bytes, less the NULs, plus the line feeds |
| ConsoleText.TerminatorFits | src/linux-uefi.c:558-575 | The terminator is inside the buffer if and only if some byte is not a line feed |
| ConsoleText.CollapseUndoesEncode | src/linux-uefi.c:561-574 | Reading CR LF back as LF recovers the bytes written, less NULs, even when they contain carriage returns |
| ConsoleText.SameTextIffSameBytes | src/linux-uefi.c:561-574 | Two writes show the same text if and only if they differ only in NULs |
| Console.EncodeCell | src/linux-uefi.c:561-574 | One turn of the two-index loop adds the cells of one byte, even when the index wraps below 0 |
| Console.FillStringBuffer | src/linux-uefi.c:557-574 | The buffer holds the encoding of all bytes, within two cells a byte |
| Console.Terminal.FdWriteStdout | src/linux-uefi.c:556-582 | The screen grows by exactly the encoding of the bytes, or by the part shown before an error, which is returned; the terminator goes to the cell after the encoding |
| Console.Terminal.FdReadStdin | src/linux-uefi.c:500-535 | Which keys a read takes, what it stores in which cells, what it shows, and what it returns, with the 32-bit wrap of the result |
| Console.TakenIs | src/linux-uefi.c:502-532 | A read takes the keys up to the first line end within its count, and no other number |
| Console.FilledCells | src/linux-uefi.c:515-528 | Every cell of the buffer after a read: translated keys, the cell a first backspace skips, and the untouched rest |
| ConsoleLaws.ResultCountsKeys | src/linux-uefi.c:530-534 | The result is the number of keys taken if and only if a line end is among them, and at most the count if and only if that holds or the count plus one wraps to 0 |
| ConsoleLaws.ReadReturns | src/linux-uefi.c:502-532 | A read returns if and only if enough keys are typed, or one within its count whose low byte is 10 or 13 |
| ConsoleLaws.EchoIsWriteOfCells | src/linux-uefi.c:513-582 | For every read: the text echoed is the text a write of the cells it went over shows if and only if every key is below 256 and not LF, but for a backspace typed first, whose cell must hold a NUL |
| ConsoleLaws.EchoIsWrite | src/linux-uefi.c:513-582 | Its consequence for the stored keys, when the first is no backspace |
| ConsoleLaws.ReadSplits | src/linux-uefi.c:502-534 | A read of a+b bytes takes the keys of a read of a bytes and, unless a line ended, of a read of b more |
| ConsoleLaws.FilledIsStored | src/linux-uefi.c:524-528 | Without a first backspace the buffer holds the translated keys followed by its old contents |
| ConsoleLaws.EchoSplits | src/linux-uefi.c:514-523 | Cutting a read in two shows the same text if and only if the second part does not start with a backspace |
| ConsoleLaws.EchoReadsBack | src/linux-uefi.c:513-523 | The text echoed tells all 16 bits of every code typed, but for a backspace typed first, and has one line feed more for each key whose low byte is 13 |
| ByteReads.FilledSplits | src/linux-uefi.c:514-528 | Cutting a read in two stores the same bytes if and only if the second part does not start with a backspace, or the cell it skips holds one already |
| ByteReads.OneByOneIsAtOnce | src/linux-uefi.c:502-534 | Up to n one-byte reads stopped at the first line end take the keys of one read of n bytes, show the same text if and only if no later key is a backspace, and store the same bytes if and only if every later backspace meets a cell that holds one |
| ByteReads.ReadOneByOne | src/linux-uefi.c:500-535 | A caller that makes those one-byte reads gets exactly the bytes, keys and text they are said to give |
| Lines.SplitPartitions | include/getdelim.h:20-36 | The lines and the tail give the stream back, and each line ends at its only delimiter |
| Lines.SplitIsUnique | include/getdelim.h:20-36 | There is no other way to cut a stream into such lines and a tail |
| GetDelim.LineBuffer.Store | include/getdelim.h:26-31 | Growing by one cell is always enough: the byte is stored in bounds, the earlier ones survive, and the grown block has just one cell to spare |
| GetDelim.CopyLine | include/getdelim.h:20-38 | The loop copies the stream up to and including the first delimiter, or all of it when there is none; on the terminal it takes just those keys and echoes them. It leaves a cell for the NUL inside the block if and only if the block had a cell to spare or the copy is not just as long as its reported size |
| GetDelim.GetDelimited | include/getdelim.h:11-41 | Exactly one line and a NUL are in the buffer, the input is left right after the line, the size is the larger of the old size and the line's length, and the result is the length plus one, or -1 at the end of the input; a spare cell is kept, and gained by growing |
| GetDelim.MyGetDelim | include/getdelim.h:11-41 | The same for any int delimiter, of which only the low byte counts |
| GetDelim.LineTypedIff | include/getdelim.h:20-36 | What the line readers ask of the terminal: the delimiter is typed, and no key up to it has the low byte of a backspace |
| GetDelim.MyGetLine | include/getdelim.h:44-47 | The same, with every clause, for line feeds |
| GetDelim.ReadAllLines | include/getdelim.h:11-41 | Repeated calls with one buffer, even one of just `*out_size` cells, deliver exactly the lines of a file and leave the rest in the buffer |
| GetDelim.LinesFitIff | include/getdelim.h:26-38 | What a block of just `*out_size` cells asks of the lines: each line of just that length comes after a longer one |
| TypedLines.TypedLine | include/getdelim.h:20-36 | The keys of a typed line are those up to the first delimiter |
| TypedLines.FirstLinesSplit | include/getdelim.h:20-36 | The lines read first are the first that cutting all typed bytes gives, and the others are cut from the keys after them |
| TypedLines.ReadTypedLines | include/getdelim.h:11-41 | On the terminal, n calls with one buffer deliver the first n of these lines, take just their keys, and echo them |
| GetDelim.AskLine | src/main.c:33-37 | With a fresh buffer the reported size is the line's length, so the demo program's store erases the line feed and nothing else |
| GetDelim.LineIsOneRead | src/linux-uefi.c:500-535 | A typed line without backspaces: a read with room for it stores just the line my_getline assembles, a shorter one as much of it as fits |
| GetDelim.LineIsByteReads | src/linux-uefi.c:500-535 | One-byte reads of a typed line take the same keys, store the same bytes and show the same text as one read of any length |
| WideString.WideBuffer.BstrToWstr | src/linux-uefi.c:80-91 | Whatever the static buffer held, the firmware reads back the path up to its NUL, or its first 510 characters when it is longer |
| WideString.SamePathIff | src/linux-uefi.c:80-91 | Two paths look the same to the firmware if and only if they are equal or agree on 510 characters |
| FdAsWritten.DescriptorTable.constructor | src/linux-uefi.c:49-51 | The table starts empty |
| FdAsWritten.DescriptorTable.FdRealFindFree | src/linux-uefi.c:293-300 | The first slot in use, or -1 |
| FdAsWritten.DescriptorTable.FdRealForHandle | src/linux-uefi.c:303-309 | The first slot with the handle, 0 when there is none |
| FdAsWritten.DescriptorTable.FdRealReset | src/linux-uefi.c:312-314 | Empties one slot |
| FdAsWritten.DescriptorTable.FdOpen | src/linux-uefi.c:331-374 | Refines the open step as written, for every answer of the firmware |
| FdAsWritten.DescriptorTable.FdClose | src/linux-uefi.c:376-395 | Refines the close step as written |
| FdAsWritten.DescriptorTable.FdDup | src/linux-uefi.c:414-432 | Refines the dup step as written |
| FdAsWritten.DescriptorTable.FdDup2 | src/linux-uefi.c:434-456 | Refines the dup2 step as written, with the accesses outside the array as an outcome of their own |
| FdAsWritten.DescriptorTable.FdLseek | src/linux-uefi.c:458-493 | Refines the lseek step as written, including the fall-through from the end case and errors of each firmware call |
| FdLaws.EmptyTableRejects | src/linux-uefi.c:331-493 | On an empty table every call fails with a fixed error and changes nothing, or reaches outside the array |
| FdLaws.RunsGoNowhere | src/linux-uefi.c:292-493 | Every run from the empty table leaves it empty, and is undefined exactly when a dup2 target lies outside the array |
| FdLaws.EveryOpenFails | src/linux-uefi.c:331-335 | In every defined run from start-up, every open fails with EMFILE |
| FdLaws.GuardRejects | src/linux-uefi.c:376-463 | Every call rejects the descriptors below 4 and above 16 with a fixed error and changes nothing |
| FdLaws.CloseIsRight | src/linux-uefi.c:376-395 | On sound tables close does what is meant if and only if the descriptor is not hidden from the guard and slot 0 is not another alias |
| FdLaws.CloseKeepsSound | src/linux-uefi.c:303-309 | close leaves a freed handle in the table if and only if slot 0 is another alias |
| FdLaws.CloseForgetsSlot0 | src/linux-uefi.c:386-394 | When slot 0 is another alias, close still empties no other slot, and closes the file and returns what the firmware reports |
| FdLaws.OpenIsRight | src/linux-uefi.c:331-374 | open does what is meant if and only if the firmware refuses, on a table neither empty nor full |
| FdLaws.OpenKeepsSound | src/linux-uefi.c:348-373 | open leaks the handle if and only if the firmware grants one |
| FdLaws.OpenKeepsTable | src/linux-uefi.c:331-374 | On a table in use, open leaves every descriptor as it was; it reports the first error of the firmware's answer, or else returns the lowest open descriptor, and no descriptor leads to the file it opened |
| FdLaws.OpenedStands | src/linux-uefi.c:352-364 | The file it opened stands at its end when appending was asked for and the move met no error, and at its start otherwise |
| FdLaws.DupIsRight | src/linux-uefi.c:414-432 | dup does what is meant if and only if the descriptor is not open |
| FdLaws.DupTakesUsed | src/linux-uefi.c:414-432 | dup of an open descriptor makes the lowest open one lead to its file and returns that one, and changes nothing else |
| FdLaws.DupKeepsSound | src/linux-uefi.c:424-429 | dup keeps the table sound if and only if it is rejected or the slot it overwrites has another alias or already holds the same handle |
| FdLaws.Dup2NeverNamesTarget | src/linux-uefi.c:440-455 | A dup2 that succeeds returns the target plus 4, which then leads to the source's file, leaves the target closed, and changes nothing else but for closing it |
| FdLaws.Dup2ClosesFirst | src/linux-uefi.c:440-449 | A dup2 from a descriptor that is not open, or to the same one, closes the target and then fails |
| FdLaws.Dup2Undefined | src/linux-uefi.c:440-453 | dup2 looks outside the array if and only if the target is no descriptor, or is one of the last four and the handle is about to be stored |
| FdLaws.Dup2IsRight | src/linux-uefi.c:434-456 | dup2 does what is meant if and only if it just fails, in the two ways stated |
| FdLaws.Dup2KeepsSound | src/linux-uefi.c:434-456 | A dup2 that is defined keeps the table sound if and only if its target is no alias of slot 0 and the slot it stores to does not hold a handle's last alias |
| FdLaws.LseekIsRight | src/linux-uefi.c:459-466 | lseek does what is meant if and only if the descriptor is not hidden from the guard, but for a seek at position 2^64-9 that looks like a rejection |
| FdIntended.CallKeepsSound | src/linux-uefi.c:331-456 | Each intended call, under every firmware error, keeps the open files exactly those in the table and the trace balanced |
| FdIntended.RunsAreSound | src/linux-uefi.c:331-456 | In every run of intended calls nothing leaks, and at no point of the trace, not even within a call, is a handle opened while open or closed while closed |
| FdIntended.ClosesWithLastAlias | src/linux-uefi.c:386-393 | A handle is closed exactly at the call that takes its last alias from the table |
| FdIntended.OpenTrace | src/linux-uefi.c:331-373 | When an intended open succeeds, it takes the lowest free descriptor and changes no other; when it fails, it reports the first error, and gives back a handle it was granted |
| FdIntended.DupShares | src/linux-uefi.c:414-432 | Intended dup makes the lowest free descriptor share the handle and changes nothing else; on a full table, or a descriptor that is not open, it only says so |
| FdIntended.CloseFrees | src/linux-uefi.c:376-395 | Intended close frees the descriptor and no other; it closes the file exactly when no other descriptor leads to it, and returns 0 unless that meets an error |
| FdIntended.Dup2Shares | src/linux-uefi.c:434-456 | Intended dup2, for all descriptors: it makes both lead to one handle and touches no other, closing the target's former file exactly when no other descriptor leads to it, and fails just when that meets an error; to the descriptor itself it does nothing; otherwise it only reports its error |
| FdSeek.OpenedStands | src/linux-uefi.c:357-364 | Found by lseek: a file that an intended open opened for appending stands at its end, unless the move there failed, any other at its start; it has the size the firmware granted, and no other file changes |
| FdSeek.LseekSeeks | src/linux-uefi.c:458-466 | lseek moves the file its descriptor leads to, and fails when there is none |
| FdSeek.SeekIsDefined | src/linux-uefi.c:470-488 | A seek is undefined if and only if the handle is not open or the base is unknown, when the status tested is never set |
| FdSeek.SeekMeans | src/linux-uefi.c:470-492 | A seek without errors returns the base plus the offset modulo 2^64, which is the new position exactly unless it is the end marker, and changes nothing else |
| FdSeek.SeekFails | src/linux-uefi.c:475-490 | A seek that meets an error reports the first one and leaves the position alone, or at the end when it got that far |
| FdSeek.SeeksAddUp | src/linux-uefi.c:480-486 | Two relative seeks are one if and only if the first does not hit the end marker |
| FdSeek.RunKeepsFile | src/linux-uefi.c:331-492 | Every run of intended calls that neither seeks through a handle nor takes its last descriptor leaves its file and position alone |
| FdSeek.AliasesSeeTheMove | src/linux-uefi.c:464-492 | What a seek through one descriptor returned is what every alias, old or new, finds after any such run, exactly unless it is the end marker |
| Witnesses.NoTime | src/linux-uefi.c:267-268 | The zero fields of a GetTime that failed convert to 31 March 2019 |
| Witnesses.OldYear | src/linux-uefi.c:236 | Noon of 1 January 2000 converts to noon of 1 January 3998 |
| Witnesses.OldLeapDay | src/linux-uefi.c:236 | The last second of 29 February 1904, or of any leap year up to 2000, is at a seam |
| Witnesses.LostYear | src/linux-uefi.c:200-230 | Any multiple of 2^32 cycles past 2000, the cut-off cycle count gives the wrong seconds |
| Witnesses.OneLetter | src/linux-uefi.c:534 | One letter typed into a one-byte buffer is reported as two |
| Witnesses.ManyLetters | src/linux-uefi.c:534 | A buffer of 2^32-1 bytes filled with letters is reported as empty |
| Witnesses.LoneLineFeed | src/linux-uefi.c:558-575 | Writing a single line feed puts the terminator past the buffer |
| Witnesses.TypedLineFeed | src/linux-uefi.c:513-535 | A typed line feed is echoed unlike it is written |
| Witnesses.SkippedLetter | src/linux-uefi.c:514-516 | A backspace typed first leaves an old letter in the buffer that the echo does not show |
| Witnesses.LetterAndBackspace | src/linux-uefi.c:514-528 | A letter and a backspace are stored and shown differently by one read and by two |
| Witnesses.ExactBlock | include/getdelim.h:26-38 | The loop fills a block of four cells with a line of four bytes, so that the NUL goes past it |
| Witnesses.LongPaths | src/linux-uefi.c:80-91 | Two paths of 511 characters that differ in the last one are one path to the firmware |
| Witnesses.LongestPaths | src/linux-uefi.c:80-91 | Two paths of 510 characters that differ in the last one are told apart |
| Witnesses.SharedPairArises | src/linux-uefi.c:331-432 | One open and one dup, as meant, give the table on which the next inputs fail |
| Witnesses.ClosePair | src/linux-uefi.c:386-393 | Closing descriptor 5 frees the handle that descriptor 4 still leads to |
| Witnesses.CloseBoth | src/linux-uefi.c:386-393 | Closing descriptor 4 as well frees the same handle a second time |
| Witnesses.OpenNextToPair | src/linux-uefi.c:331-373 | Opening a second file returns the first one's descriptor and leaks the new handle |
| Witnesses.LateErrorLeaks | src/linux-uefi.c:353-355 | An error of GetInfo leaves the new handle open and in no slot |
| Witnesses.DupPair | src/linux-uefi.c:424-431 | Duplicating descriptor 5 returns descriptor 4, which was in use |
| Witnesses.DupOverwrites | src/linux-uefi.c:424-431 | Duplicating one of two open descriptors leaves the other's file open and in no slot |
| Witnesses.Dup2Pair | src/linux-uefi.c:440-455 | Asked for descriptor 6, dup2 returns 10 and leaves 6 empty |
| Witnesses.Dup2Frees | src/linux-uefi.c:440-455 | A dup2 onto an alias of slot 0 succeeds with a handle it has freed |
| Witnesses.SeekLastSlot | src/linux-uefi.c:459 | A seek on descriptor 19 is rejected |
| Witnesses.SeekOverMarker | src/linux-uefi.c:480-486 | Two relative seeks across the end marker end elsewhere than one |

## Left out

- Firmware calls (start-up, volumes, timers, key events): Open, Close, GetPosition and SetPosition are the functions of `Descriptors`, with their answers as parameters of each call; the keys typed are a sequence.
- Console.Terminal.FdWriteStdout: the 32-bit index must not wrap, so the count and the number of cells written stay below 2^32.
- Console.Terminal.FdReadStdin: a read that waits for ever, because neither enough keys nor a line end are typed, does not return and is excluded by its precondition, as is one that takes 2^32 keys or more, on which the index wraps within the loop; errors of OutputString, which the source ignores here, are not modelled.
- GetDelim.MyGetDelim: a backspace typed before the delimiter on descriptor 0 is excluded, because the byte the source then stores is uninitialised; so is the one line length for which `CopyLine` says that the NUL misses the block.
- GetDelim.ReadAllLines: lines of a length for which the NUL misses the block are excluded here as well.
- TypedLines.ReadTypedLines: excludes the same line lengths, and backspaces typed within the lines.
- GetDelim.Realloc: allocation failure is not modelled, and a moved block is always a new one.
- YearSeconds.TimeYearToSecs: the years whose leap-day count overflows an int are excluded, because the source is undefined there; `FitsOnlyFrom2000` and `CountFitsUpTo` say which they are below the cut-off of the cycle count.
- FdAsWritten.DescriptorTable.FdOpen: access modes and the truncation of an existing file are not modelled, because they depend on firmware structures not in the repository.
- The file branches of `fd_read` and `fd_write`: a single firmware call after the same checks on the descriptor.
- `fd_getdents64`: it writes every record to one place past its buffer's count and has no end test, so there is no contract to state.
- `fd_fsync`, the stat calls, `fd_select`, memory mapping, process and power calls, and the dispatch by system call number: flat branches around firmware calls.
- `EFI_TIME`'s nanoseconds, time zone and daylight fields, which the conversion ignores.
