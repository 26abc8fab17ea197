/** Reading one line, byte by byte, into a buffer that grows by one. */
module GetDelim {
  import opened ByteReads
  import opened MachineInts
  import opened ConsoleText
  import opened Console
  import opened ConsoleLaws
  import opened Lines

  /** The line can be read from the keys: they reach the delimiter, with no backspace before it. */
  predicate LineTyped(keys: seq<Key>, d: Byte) {
    keys != [] && !IsBackspace(keys[0]) && (StoredByte(keys[0]) == d || LineTyped(keys[1..], d))
  }

  /** What the descriptor `in` stands for: the terminal when it is 0, an open file otherwise. */
  class Input {
    const terminal: Terminal?
    /** The bytes of the file not read yet. */
    var unread: seq<Byte>
    /** What read returns past them: 0 at the end of the file, a negative number for an error. */
    const atEnd: int

    constructor (terminal: Terminal?, bytes: seq<Byte>, atEnd: int)
      requires atEnd <= 0
      ensures this.terminal == terminal && unread == bytes && this.atEnd == atEnd
    {
      this.terminal, this.unread, this.atEnd := terminal, bytes, atEnd;
    }

    /** The bytes that reading one at a time still delivers. */
    ghost function Incoming(): seq<Byte>
      reads this, terminal
    {
      if terminal == null then unread else StoredBytes(terminal.keys)
    }

    ghost predicate Ready(d: Byte)
      reads this, terminal
    {
      if terminal == null then atEnd <= 0 else LineTyped(terminal.keys, d)
    }

    /** `read(in, cell, 1)`: the file's next byte, or the terminal's one-byte read, whose result is 1 or 2. */
    method ReadByte(cell: array<Byte>, ghost d: Byte) returns (n: int)
      requires cell.Length == 1 && Ready(d)
      modifies this, terminal, cell
      ensures n <= 0 <==> old(Incoming()) == []
      ensures n > 0 ==> cell[0] == old(Incoming())[0] && Incoming() == old(Incoming())[1..]
      ensures n <= 0 ==> Incoming() == []
      ensures n > 0 && cell[0] != d ==> Ready(d)
      ensures terminal == null ==> Ready(d)
      ensures terminal != null ==> (
                && n > 0
                && terminal.keys == old(terminal.keys)[1..]
                && terminal.screen == old(terminal.screen) + EchoKey(old(terminal.keys)[0]))
    {
      if terminal != null {
        ghost var keys := terminal.keys;
        assert Echo(keys, 0) == [] && Echo(keys, 1) == [] + EchoKey(keys[0]) == EchoKey(keys[0]);
        assert Filled(cell[..], keys, 0) == cell[..];
        n := terminal.FdReadStdin(cell, 1);
        assert cell[0] == cell[..][0] == StoredByte(keys[0]);
        assert StoredBytes(keys)[1..] == StoredBytes(keys[1..]);
      } else if unread == [] {
        n := atEnd;
      } else {
        cell[0] := unread[0];
        unread := unread[1..];
        n := 1;
      }
    }
  }

  /** The `*out` and `*out_size` of the caller. */
  class LineBuffer {
    var out: array?<Byte>
    var outSize: nat

    constructor ()
      ensures out == null
    {
      out, outSize := null, 0;
    }

    /** The allocation has the cells it is said to have. */
    predicate Room()
      reads this
    {
      out != null && out.Length >= outSize
    }

    /** The allocation has a cell to spare beyond the size it is said to have. */
    predicate Spare()
      reads this
    {
      out != null && out.Length > outSize
    }

    /** The first block, with a cell to spare. */
    method Allocate()
      modifies this
      ensures fresh(out) && out != null && out.Length == 2 && outSize == 1
    {
      out, outSize := new Byte[2], 1;
    }

    /** Makes room for the byte at `outIdx` and stores it. Growing leaves a cell to spare. */
    method Store(outIdx: nat, c: Byte)
      requires Room() && outIdx <= outSize
      modifies this, out
      ensures Room() && outIdx + 1 <= outSize
      ensures old(Spare()) || outSize > old(outSize) ==> Spare()
      ensures outSize == if old(outSize) < outIdx + 1 then outIdx + 1 else old(outSize)
      ensures outSize > old(outSize) ==> out.Length == outSize + 1
      ensures old(outSize) >= outIdx + 1 ==> out == old(out)
      ensures out == old(out) || fresh(out)
      ensures out[..outIdx + 1] == old(out[..outIdx]) + [c]
    {
      if outSize < outIdx + 1 {
        outSize := outSize + 1;
        out := Realloc(out, outSize + 1);
      }
      out[outIdx] := c;
    }
  }

  /** The cells of a block of `cells` cells, said to be `size`, once it has taken a line of length `line`. */
  function CellsAfter(cells: nat, size: nat, line: nat): nat {
    if line > size then line + 1 else cells
  }

  /** The buffer can take a line of this length and the NUL after it; one that is not allocated yet always can. */
  predicate Takes(buf: LineBuffer, line: nat)
    reads buf
  {
    buf.out != null ==> buf.Room() && (buf.Spare() || line != buf.outSize)
  }

  /** The allocator's realloc: a block of the new size with what fits of the old contents. */
  method Realloc(block: array<Byte>, size: nat) returns (moved: array<Byte>)
    ensures fresh(moved) && moved.Length == size
    ensures forall i :: 0 <= i < size && i < block.Length ==> moved[i] == block[i]
  {
    moved := new Byte[size];
    for i := 0 to size
      invariant forall j :: 0 <= j < i && j < block.Length ==> moved[j] == block[j]
    {
      if i < block.Length {
        moved[i] := block[i];
      }
    }
  }

  function Max(a: nat, b: nat): nat {
    if a < b then b else a
  }

  /** One turn of the line loop: the next byte of the stream `s`, if there is one, goes to cell `outIdx`. */
  method TakeByte(buf: LineBuffer, outIdx: nat, input: Input, ghost s: seq<Byte>, ghost d: Byte)
    returns (c: Byte, more: bool)
    requires outIdx <= |s| && input.Incoming() == s[outIdx..] && input.Ready(d)
    requires buf.Room() && outIdx <= buf.outSize && buf.out[..outIdx] == s[..outIdx]
    modifies buf, buf.out, input, input.terminal
    ensures more <==> outIdx < |s|
    ensures input.terminal != null ==> more
    ensures buf.Room() && (buf.out == old(buf.out) || fresh(buf.out))
    ensures old(buf.Spare()) || buf.outSize > old(buf.outSize) ==> buf.Spare()
    ensures !more ==> buf.outSize == old(buf.outSize) && buf.out == old(buf.out) && buf.out[..] == old(buf.out[..])
                      && input.Incoming() == [] && input.Ready(d)
    ensures more ==> c == s[outIdx] && input.Incoming() == s[outIdx + 1..] && (c != d ==> input.Ready(d))
    ensures more ==> buf.outSize == Max(old(buf.outSize), outIdx + 1) && buf.out[..outIdx + 1] == s[..outIdx + 1]
    ensures more && old(buf.outSize) > outIdx ==> buf.out == old(buf.out)
    ensures buf.out.Length == if buf.outSize > old(buf.outSize) then buf.outSize + 1 else old(buf.out.Length)
    ensures input.terminal == null ==> input.Ready(d)
    ensures input.terminal != null ==> KeysRead(input.terminal, old(input.terminal.keys), old(input.terminal.screen), 1)
  {
    var cell := new Byte[1];
    var n := input.ReadByte(cell, d);
    more := n > 0;
    c := 0;
    if more {
      c := cell[0];
      buf.Store(outIdx, c);
      NextOf(s, outIdx);
    }
  }

  lemma NextOf(s: seq<Byte>, i: nat)
    requires i < |s|
    ensures s[i..][0] == s[i] && s[i..][1..] == s[i + 1..] && s[..i + 1] == s[..i] + [s[i]]
  {
  }

  /** The text typing shows for keys that are all echoed. */
  ghost predicate KeysRead(terminal: Terminal, keys: seq<Key>, screen: seq<Word16>, n: nat)
    reads terminal
  {
    n <= |keys| && terminal.keys == keys[n..] && terminal.screen == screen + Typed(keys[..n])
  }

  lemma KeysJoin(keys: seq<Key>, n: nat, rest: seq<Key>, m: nat)
    requires n <= |keys| && rest == keys[n..] && m <= |rest|
    ensures keys[..n + m] == keys[..n] + rest[..m] && keys[n + m..] == rest[m..]
  {
  }

  lemma TextJoins(screen: seq<Word16>, first: seq<Key>, next: seq<Key>)
    ensures screen + Typed(first + next) == screen + Typed(first) + Typed(next)
  {
    TypedJoins(first, next);
  }

  /** Reading on adds the text of the keys read. */
  lemma MoreKeys(terminal: Terminal, keys: seq<Key>, screen: seq<Word16>, n: nat, rest: seq<Key>, m: nat, all: nat)
    requires n <= |keys| && rest == keys[n..] && all == n + m
    requires KeysRead(terminal, rest, screen + Typed(keys[..n]), m)
    ensures KeysRead(terminal, keys, screen, all)
  {
    KeysJoin(keys, n, rest, m);
    TextJoins(screen, keys[..n], rest[..m]);
  }

  lemma OneMoreKey(terminal: Terminal, keys: seq<Key>, screen: seq<Word16>, n: nat, before: seq<Word16>)
    requires n < |keys| && before == screen + Typed(keys[..n])
    requires KeysRead(terminal, keys[n..], before, 1)
    ensures KeysRead(terminal, keys, screen, n + 1)
  {
    MoreKeys(terminal, keys, screen, n, keys[n..], 1, n + 1);
  }

  /** The same turn, with the keys `keys[..outIdx]` read before it when the input is the terminal. */
  method TakeNext(buf: LineBuffer, outIdx: nat, input: Input, ghost s: seq<Byte>, ghost d: Byte,
                  ghost keys: seq<Key>, ghost screen: seq<Word16>) returns (c: Byte, more: bool)
    requires outIdx <= |s| && input.Incoming() == s[outIdx..] && input.Ready(d)
    requires buf.Room() && outIdx <= buf.outSize && buf.out[..outIdx] == s[..outIdx]
    requires input.terminal != null ==> KeysRead(input.terminal, keys, screen, outIdx)
    modifies buf, buf.out, input, input.terminal
    ensures more <==> outIdx < |s|
    ensures buf.Room() && (buf.out == old(buf.out) || fresh(buf.out))
    ensures !more ==> buf.outSize == old(buf.outSize) && buf.out == old(buf.out) && buf.out[..] == old(buf.out[..])
                      && input.Incoming() == [] && input.Ready(d) && input.terminal == null
    ensures more ==> c == s[outIdx] && input.Incoming() == s[outIdx + 1..] && (c != d ==> input.Ready(d))
    ensures more ==> buf.outSize == Max(old(buf.outSize), outIdx + 1) && buf.out[..outIdx + 1] == s[..outIdx + 1]
    ensures more && old(buf.outSize) > outIdx ==> buf.out == old(buf.out)
    ensures buf.out.Length == if buf.outSize > old(buf.outSize) then buf.outSize + 1 else old(buf.out.Length)
    ensures input.terminal == null ==> input.Ready(d)
    ensures input.terminal != null ==> KeysRead(input.terminal, keys, screen, outIdx + 1)
  {
    ghost var before := if input.terminal == null then [] else input.terminal.screen;
    c, more := TakeByte(buf, outIdx, input, s, d);
    if input.terminal != null {
      OneMoreKey(input.terminal, keys, screen, outIdx, before);
    }
  }

  /**
   * The loop: copies the stream up to and including the first `d`, or all of it when there is none. The block has a
   * cell left after what was copied, for a NUL, exactly when it had one to spare or the copy is not just as long as
   * its reported size.
   */
  method CopyLine(buf: LineBuffer, d: Byte, input: Input) returns (outIdx: nat, found: bool)
    requires buf.Room() && input.Ready(d)
    modifies buf, buf.out, input, input.terminal
    ensures var s, k := old(input.Incoming()), Find(old(input.Incoming()), d);
            && found == (k < |s|)
            && outIdx == (if found then k + 1 else |s|)
            && input.Incoming() == s[outIdx..]
            && buf.Room()
            && buf.outSize == Max(old(buf.outSize), outIdx)
            && buf.out[..outIdx] == s[..outIdx]
            && (old(buf.outSize) >= outIdx ==> buf.out == old(buf.out))
    ensures buf.out.Length == CellsAfter(old(buf.out.Length), old(buf.outSize), outIdx)
    ensures outIdx < buf.out.Length <==> old(buf.Spare()) || outIdx != old(buf.outSize)
    ensures old(buf.Spare()) || buf.outSize > old(buf.outSize) ==> buf.Spare()
    ensures buf.out == old(buf.out) || fresh(buf.out)
    ensures input.terminal == null ==> input.Ready(d)
    ensures input.terminal != null ==>
              found && KeysRead(input.terminal, old(input.terminal.keys), old(input.terminal.screen), outIdx)
  {
    ghost var s, block := input.Incoming(), buf.out;
    ghost var keys, screen := [], [];
    if input.terminal != null {
      keys, screen := input.terminal.keys, input.terminal.screen;
      assert keys[..0] == [] && screen + Typed([]) == screen;
    }
    outIdx := 0;
    while true
      invariant outIdx <= Find(s, d) && outIdx <= buf.outSize
      invariant input.Incoming() == s[outIdx..] && input.Ready(d)
      invariant buf.Room() && (buf.out == block || fresh(buf.out))
      invariant buf.outSize == Max(old(buf.outSize), outIdx) && (old(buf.outSize) >= outIdx ==> buf.out == block)
      invariant buf.out[..outIdx] == s[..outIdx]
      invariant buf.out.Length == CellsAfter(old(buf.out.Length), old(buf.outSize), outIdx)
      invariant input.terminal != null ==> KeysRead(input.terminal, keys, screen, outIdx)
      decreases |s| - outIdx
    {
      FindHere(s, d, outIdx);
      var c, more := TakeNext(buf, outIdx, input, s, d, keys, screen);
      if !more {
        return outIdx, false;
      }
      outIdx := outIdx + 1;
      if c == d {
        return outIdx, true;
      }
    }
  }

  /** What a call leaves behind, for the stream `s` it found and the size the buffer was said to have. */
  ghost predicate LineRead(s: seq<Byte>, d: Byte, size: nat, buf: LineBuffer, left: seq<Byte>, r: int)
    reads buf, buf.out
  {
    var k := Find(s, d);
    && buf.Room()
    && buf.outSize == Max(size, if k < |s| then k + 1 else |s|)
    && if k < |s| then
         && r == k + 2 && left == s[k + 1..]
         && buf.out[..k + 1] == s[..k + 1] && k + 1 < buf.out.Length && buf.out[k + 1] == 0
       else r == -1 && left == [] && buf.out[..|s|] == s
  }

  /**
   * Reads up to and including the first byte `d`. The buffer then holds exactly that line and a NUL, and the
   * input is left at the byte after it. When the input ends first, the result is -1 and no NUL is stored.
   * The block is kept when the line fits the size it is said to have, and has a cell to spare once it has grown.
   */
  method GetDelimited(buf: LineBuffer, d: Byte, input: Input) returns (r: int)
    requires buf.out != null ==> buf.Room()
    requires Find(input.Incoming(), d) < |input.Incoming()| ==> Takes(buf, Find(input.Incoming(), d) + 1)
    requires input.Ready(d)
    modifies buf, buf.out, input, input.terminal
    ensures LineRead(old(input.Incoming()), d, if old(buf.out) == null then 1 else old(buf.outSize),
                     buf, input.Incoming(), r)
    ensures old(buf.out) == null || old(buf.Spare()) || buf.outSize > old(buf.outSize) ==> buf.Spare()
    ensures buf.out == old(buf.out) || fresh(buf.out)
    ensures old(buf.out) != null && old(buf.outSize) > Find(old(input.Incoming()), d) ==> buf.out == old(buf.out)
    ensures input.terminal == null ==> input.Ready(d)
    ensures input.terminal != null ==>
              r > 0 && KeysRead(input.terminal, old(input.terminal.keys), old(input.terminal.screen), r - 1)
  {
    if buf.out == null {
      buf.Allocate();
    }
    r := LineInBlock(buf, d, input);
  }

  /** The same once there is a block. */
  method LineInBlock(buf: LineBuffer, d: Byte, input: Input) returns (r: int)
    requires buf.Room() && input.Ready(d)
    requires Find(input.Incoming(), d) < |input.Incoming()| ==> Takes(buf, Find(input.Incoming(), d) + 1)
    modifies buf, buf.out, input, input.terminal
    ensures LineRead(old(input.Incoming()), d, old(buf.outSize), buf, input.Incoming(), r)
    ensures old(buf.Spare()) || buf.outSize > old(buf.outSize) ==> buf.Spare()
    ensures buf.out == old(buf.out) || fresh(buf.out)
    ensures old(buf.outSize) > Find(old(input.Incoming()), d) ==> buf.out == old(buf.out)
    ensures input.terminal == null ==> input.Ready(d)
    ensures input.terminal != null ==>
              r > 0 && KeysRead(input.terminal, old(input.terminal.keys), old(input.terminal.screen), r - 1)
  {
    ghost var s, k := input.Incoming(), Find(input.Incoming(), d);
    var outIdx, found := CopyLine(buf, d, input);
    assert outIdx == if found then k + 1 else |s|;
    r := Terminate(buf, outIdx, found);
    assert buf.out[..outIdx] == s[..outIdx];
    assert input.terminal != null ==> r - 1 == outIdx;
  }

  /** Stores the NUL after a line that was found. */
  method Terminate(buf: LineBuffer, outIdx: nat, found: bool) returns (r: int)
    requires buf.Room() && outIdx <= buf.outSize && (found ==> outIdx < buf.out.Length)
    modifies buf.out
    ensures buf.out[..outIdx] == old(buf.out[..outIdx])
    ensures if found then r == outIdx + 1 && buf.out[outIdx] == 0 else r == -1
  {
    if !found {
      return -1;
    }
    buf.out[outIdx] := 0;
    r := outIdx + 1;
  }

  /** The delimiter is compared as a character, so only the low byte of `delim` counts. */
  method MyGetDelim(buf: LineBuffer, delim: int, input: Input) returns (r: int)
    requires buf.out != null ==> buf.Room()
    requires var s := input.Incoming();
             Find(s, delim % 0x100) < |s| ==> Takes(buf, Find(s, delim % 0x100) + 1)
    requires input.Ready(delim % 0x100)
    modifies buf, buf.out, input, input.terminal
    ensures LineRead(old(input.Incoming()), delim % 0x100, if old(buf.out) == null then 1 else old(buf.outSize),
                     buf, input.Incoming(), r)
    ensures old(buf.out) == null || old(buf.Spare()) || buf.outSize > old(buf.outSize) ==> buf.Spare()
    ensures buf.out == old(buf.out) || fresh(buf.out)
    ensures old(buf.out) != null && old(buf.outSize) > Find(old(input.Incoming()), delim % 0x100) ==>
              buf.out == old(buf.out)
    ensures input.terminal == null ==> input.Ready(delim % 0x100)
    ensures input.terminal != null ==>
              r > 0 && KeysRead(input.terminal, old(input.terminal.keys), old(input.terminal.screen), r - 1)
  {
    r := GetDelimited(buf, delim % 0x100, input);
  }

  lemma {:induction false} TypedLineEnds(keys: seq<Key>, d: Byte)
    requires LineTyped(keys, d)
    ensures Find(StoredBytes(keys), d) < |keys| == |StoredBytes(keys)|
  {
    if StoredByte(keys[0]) != d {
      TypedLineEnds(keys[1..], d);
      assert StoredBytes(keys)[1..] == StoredBytes(keys[1..]);
    }
  }

  /** A line can be read exactly when its delimiter is typed and no key up to it has the low byte of a backspace. */
  lemma {:induction false} LineTypedIff(keys: seq<Key>, d: Byte)
    ensures LineTyped(keys, d) <==>
            exists k :: 0 <= k < |keys| && StoredByte(keys[k]) == d && forall i :: 0 <= i <= k ==> keys[i].low != 8
  {
    if keys != [] {
      var rest := keys[1..];
      LineTypedIff(rest, d);
      if k :| 0 <= k < |rest| && StoredByte(rest[k]) == d && (forall i :: 0 <= i <= k ==> rest[i].low != 8) {
        if keys[0].low != 8 {
          assert StoredByte(keys[k + 1]) == d;
          assert forall i :: 0 < i <= k + 1 ==> keys[i] == rest[i - 1];
        }
      }
      if k :| 0 < k < |keys| && StoredByte(keys[k]) == d && (forall i :: 0 <= i <= k ==> keys[i].low != 8) {
        assert StoredByte(rest[k - 1]) == d;
        assert forall i :: 0 <= i <= k - 1 ==> rest[i] == keys[i + 1];
      }
    }
  }

  /** Reads a line that ends in a line feed. */
  method MyGetLine(buf: LineBuffer, input: Input) returns (r: int)
    requires buf.out != null ==> buf.Room()
    requires Find(input.Incoming(), LF) < |input.Incoming()| ==> Takes(buf, Find(input.Incoming(), LF) + 1)
    requires input.Ready(LF)
    modifies buf, buf.out, input, input.terminal
    ensures LineRead(old(input.Incoming()), LF, if old(buf.out) == null then 1 else old(buf.outSize),
                     buf, input.Incoming(), r)
    ensures old(buf.out) == null || old(buf.Spare()) || buf.outSize > old(buf.outSize) ==> buf.Spare()
    ensures buf.out == old(buf.out) || fresh(buf.out)
    ensures old(buf.out) != null && old(buf.outSize) > Find(old(input.Incoming()), LF) ==> buf.out == old(buf.out)
    ensures input.terminal == null ==> input.Ready(LF)
    ensures input.terminal != null ==>
              r > 0 && KeysRead(input.terminal, old(input.terminal.keys), old(input.terminal.screen), r - 1)
  {
    assert LF % 0x100 == LF;
    r := MyGetDelim(buf, LF, input);
  }

  /** Lines of these lengths fit a block of exactly `size` cells: none is just that long before a longer one. */
  predicate LinesFit(lines: seq<seq<Byte>>, size: nat) {
    lines == [] || (|lines[0]| != size && (|lines[0]| > size || LinesFit(lines[1..], size)))
  }

  /** Each line of just that length comes after a longer one. */
  lemma {:induction false} LinesFitIff(lines: seq<seq<Byte>>, size: nat)
    ensures LinesFit(lines, size) <==>
            forall i :: 0 <= i < |lines| && |lines[i]| == size ==> exists j :: 0 <= j < i && |lines[j]| > size
  {
    if lines != [] {
      var rest := lines[1..];
      LinesFitIff(rest, size);
      if |lines[0]| < size {
        assert forall i :: 0 < i < |lines| ==> lines[i] == rest[i - 1];
        assert forall i :: 0 <= i < |rest| ==> rest[i] == lines[i + 1];
      }
    }
  }

  /** The buffer can take these lines one after the other; one with a cell to spare always can. */
  predicate TakesAll(buf: LineBuffer, lines: seq<seq<Byte>>)
    reads buf
  {
    buf.out != null ==> buf.Room() && (buf.Spare() || LinesFit(lines, buf.outSize))
  }

  lemma LinesFitStep(line: seq<Byte>, rest: seq<seq<Byte>>, size: nat)
    ensures LinesFit([line] + rest, size) <==> |line| != size && (|line| > size || LinesFit(rest, size))
  {
    assert ([line] + rest)[1..] == rest;
  }

  /** One call on a file, with the line it leaves in the buffer. */
  method NextLine(buf: LineBuffer, d: Byte, input: Input) returns (line: seq<Byte>, more: bool)
    requires TakesAll(buf, Split(input.Incoming(), d))
    requires input.terminal == null && input.Ready(d)
    modifies buf, buf.out, input
    ensures TakesAll(buf, Split(input.Incoming(), d))
    ensures buf.Room() && (buf.out == old(buf.out) || fresh(buf.out)) && input.Ready(d)
    ensures var s, left := old(input.Incoming()), input.Incoming();
            if more
            then |left| < |s| && Split(s, d) == [line] + Split(left, d) && Tail(s, d) == Tail(left, d)
            else left == [] && Split(s, d) == [] && |s| <= buf.outSize && buf.out[..|s|] == s == Tail(s, d)
  {
    ghost var s, k := input.Incoming(), Find(input.Incoming(), d);
    if k < |s| {
      SplitStep(s, d, k);
      LinesFitStep(s[..k + 1], Split(s[k + 1..], d), buf.outSize);
    }
    var r := GetDelimited(buf, d, input);
    if r < 0 {
      SplitEnds(s, d);
      return [], false;
    }
    line, more := buf.out[..r - 1], true;
    assert line == s[..k + 1];
  }

  /**
   * Any number of calls with the same buffer, up to the first -1, deliver exactly the lines of a file; what
   * follows the last delimiter is left in the buffer.
   */
  method ReadAllLines(buf: LineBuffer, d: Byte, input: Input) returns (lines: seq<seq<Byte>>)
    requires TakesAll(buf, Split(input.Incoming(), d))
    requires input.terminal == null && input.Ready(d)
    modifies buf, buf.out, input
    ensures lines == Split(old(input.Incoming()), d)
    ensures input.Incoming() == []
    ensures var tail := Tail(old(input.Incoming()), d);
            buf.out != null && buf.out.Length >= |tail| && buf.out[..|tail|] == tail
  {
    ghost var s := input.Incoming();
    lines := [];
    var more := true;
    while more
      invariant TakesAll(buf, Split(input.Incoming(), d))
      invariant buf.out == old(buf.out) || fresh(buf.out)
      invariant input.Ready(d)
      invariant more ==> Split(s, d) == lines + Split(input.Incoming(), d) && Tail(s, d) == Tail(input.Incoming(), d)
      invariant !more ==> Split(s, d) == lines && input.Incoming() == []
      invariant !more ==> buf.out != null && |Tail(s, d)| <= buf.out.Length && buf.out[..|Tail(s, d)|] == Tail(s, d)
      decreases more, |input.Incoming()|
    {
      ghost var done := lines;
      var line;
      line, more := NextLine(buf, d, input);
      if more {
        MoveLine(done, line, Split(input.Incoming(), d));
        lines := lines + [line];
      }
    }
  }

  /**
   * The demo program's prompt: with a fresh buffer the reported size is the length of the line, so that storing a
   * NUL at the last of those cells erases the line feed and nothing else.
   */
  method AskLine(input: Input) returns (buf: LineBuffer)
    requires input.terminal != null && input.Ready(LF)
    modifies input, input.terminal
    ensures var typed, k := old(input.Incoming()), Find(old(input.Incoming()), LF);
            && k < |typed|
            && input.Incoming() == typed[k + 1..]
            && buf.out != null && buf.outSize == k + 1 && buf.out.Length >= k + 2
            && buf.out[..k + 2] == typed[..k] + [0, 0]
  {
    buf := new LineBuffer();
    ghost var typed, k := input.Incoming(), Find(input.Incoming(), LF);
    var r := MyGetLine(buf, input);
    assert buf.outSize == k + 1;
    EraseLast(buf, typed[..k + 1]);
    assert typed[..k + 1][..k] == typed[..k];
  }

  /** `input_buf[input_len - 1] = 0` on a buffer that holds a line of the reported size and a NUL. */
  method EraseLast(buf: LineBuffer, ghost line: seq<Byte>)
    requires buf.Spare() && buf.outSize == |line| > 0
    requires buf.out[..|line|] == line && buf.out[|line|] == 0
    modifies buf.out
    ensures buf.out[..|line| + 1] == line[..|line| - 1] + [0, 0]
  {
    buf.out[buf.outSize - 1] := 0;
    assert buf.out[..|line| - 1] == line[..|line| - 1];
  }

  lemma {:induction false} NoBackspaceTyped(keys: seq<Key>, d: Byte, i: nat)
    requires LineTyped(keys, d) && i <= Find(StoredBytes(keys), d)
    ensures i < |keys| && !IsBackspace(keys[i])
  {
    if i > 0 {
      assert StoredBytes(keys)[1..] == StoredBytes(keys[1..]);
      NoBackspaceTyped(keys[1..], d, i - 1);
    }
  }

  /**
   * A typed line is the same whether my_getline reads it byte by byte or it is read at once: a read with room for
   * it stores just that line, and a shorter one as much of it as fits.
   */
  lemma LineIsOneRead(keys: seq<Key>, count: nat, before: seq<Byte>)
    requires LineTyped(keys, LF) && count <= |before| && count < TWO32
    ensures Find(StoredBytes(keys), LF) < |keys|
    ensures var line := StoredBytes(keys)[..Find(StoredBytes(keys), LF) + 1];
            if |line| <= count
            then ReadResult(keys, count) == Taken(keys, count) == |line|
                 && Filled(before, keys, |line|)[..|line|] == line
            else ReadResult(keys, count) == Next32(count) && Taken(keys, count) == count
                 && Filled(before, keys, count)[..count] == line[..count]
  {
    TypedLineEnds(keys, LF);
    var k := Find(StoredBytes(keys), LF);
    var n := if k < count then k + 1 else count;
    TakenIs(keys, count, n);
    FilledIsStored(before, keys, n);
    assert StoredBytes(keys[..n]) == StoredBytes(keys)[..n];
  }

  /** One-byte reads of a typed line take the same keys, store the same bytes and show the same text as one read. */
  lemma LineIsByteReads(keys: seq<Key>, count: nat, before: seq<Byte>)
    requires LineTyped(keys, LF) && count <= |before|
    ensures OneByOne(before, keys, count) == AtOnce(before, keys, count)
  {
    TypedLineEnds(keys, LF);
    forall i | 0 < i < Taken(keys, count) ensures !IsBackspace(keys[i]) {
      LineEndsTaking(keys, count, i);
      NoBackspaceTyped(keys, LF, i);
    }
    OneByOneIsAtOnce(before, keys, count);
  }

  lemma LineEndsTaking(keys: seq<Key>, count: nat, i: nat)
    requires i < Taken(keys, count)
    ensures i <= Find(StoredBytes(keys), LF)
  {
    var k := Find(StoredBytes(keys), LF);
    assert forall j :: 0 <= j < i ==> !EndsLine(keys[j]);
    assert k < |keys| ==> EndsLine(keys[k]);
  }
}
