/** The keyboard and screen behind the descriptors 0, 1 and 2. */
module Console {
  import opened MachineInts
  import opened ConsoleText
  import opened Errors

  /**
   * EFI_INPUT_KEY: a scan code, which the source ignores, and the UTF-16 code of the key as its two bytes in
   * memory, of which the source stores the low one. Keys without a character have code 0.
   */
  datatype Key = Key(scan: Word16, low: Byte, high: Byte) {
    function Code(): Word16 {
      0x100 * high + low
    }
  }

  function StoredByte(key: Key): Byte {
    if key.low == CR then LF else key.low
  }

  predicate EndsLine(key: Key) {
    StoredByte(key) == LF
  }

  predicate IsBackspace(key: Key) {
    key.low == BACKSPACE
  }

  function StoredBytes(keys: seq<Key>): (bytes: seq<Byte>)
    ensures |bytes| == |keys|
    ensures forall i :: 0 <= i < |keys| ==> bytes[i] == StoredByte(keys[i])
  {
    seq(|keys|, i requires 0 <= i < |keys| => StoredByte(keys[i]))
  }

  /** What typing `key` shows: the key itself, and a line feed after a carriage return. */
  function EchoKey(key: Key): seq<Word16> {
    if key.Code() == NUL then [] else if key.low == CR then [key.Code(), LF] else [key.Code()]
  }

  /** A backspace typed first is swallowed: it is neither shown nor stored. */
  predicate Swallowed(keys: seq<Key>, i: nat)
    requires i < |keys|
  {
    i == 0 && IsBackspace(keys[0])
  }

  /** What a read shows for its first `n` keys. */
  function Echo(keys: seq<Key>, n: nat): seq<Word16>
    requires n <= |keys|
  {
    if n == 0 then [] else Echo(keys, n - 1) + if Swallowed(keys, n - 1) then [] else EchoKey(keys[n - 1])
  }

  /** The buffer `before` after a read has stored its first `n` keys. */
  function Filled(before: seq<Byte>, keys: seq<Key>, n: nat): (after: seq<Byte>)
    requires n <= |keys| && n <= |before|
    ensures |after| == |before|
  {
    if n == 0 then before
    else if Swallowed(keys, n - 1) then Filled(before, keys, n - 1)
    else Filled(before, keys, n - 1)[n - 1 := StoredByte(keys[n - 1])]
  }

  lemma {:induction false} FilledCells(before: seq<Byte>, keys: seq<Key>, n: nat)
    requires n <= |keys| && n <= |before|
    ensures forall i :: 0 <= i < n && !Swallowed(keys, i) ==>
              Filled(before, keys, n)[i] == if keys[i].low == 13 then 10 else keys[i].low
    ensures n > 0 && keys[0].low == 8 ==> Filled(before, keys, n)[0] == before[0]
    ensures forall i :: n <= i < |before| ==> Filled(before, keys, n)[i] == before[i]
  {
    if n > 0 {
      FilledCells(before, keys, n - 1);
    }
  }

  /** How many keys a read of `count` bytes takes: up to the first line end, and no more than `count`. */
  function Taken(keys: seq<Key>, count: nat): (n: nat)
    ensures n <= count && n <= |keys|
    ensures forall i :: 0 <= i < n - 1 ==> !EndsLine(keys[i])
    ensures n < count && n < |keys| ==> n > 0 && EndsLine(keys[n - 1])
  {
    if count == 0 || keys == [] then 0
    else if EndsLine(keys[0]) then 1
    else 1 + Taken(keys[1..], count - 1)
  }

  /** The keys typed stop the read at a line end. */
  predicate Stopped(keys: seq<Key>, count: nat) {
    var n := Taken(keys, count);
    n > 0 && EndsLine(keys[n - 1])
  }

  /** The read does not wait for ever: enough keys are typed, or one that ends the line. */
  predicate Returns(keys: seq<Key>, count: nat) {
    Taken(keys, count) == count || Stopped(keys, count)
  }

  /** The number of keys taken is determined by where the first line end is. */
  lemma TakenIs(keys: seq<Key>, count: nat, n: nat)
    requires n <= count && n <= |keys|
    requires forall i :: 0 <= i < n - 1 ==> !EndsLine(keys[i])
    requires n < count && n < |keys| ==> n > 0 && EndsLine(keys[n - 1])
    ensures Taken(keys, count) == n
  {
  }

  /** A read that has not met a line end before its last cell finds another key. */
  lemma KeyWaits(keys: seq<Key>, count: nat, it: nat)
    requires Returns(keys, count) && it < count && it <= |keys|
    requires forall i :: 0 <= i < it ==> !EndsLine(keys[i])
    ensures it < |keys|
  {
  }

  /** What a read of descriptor 0 returns; without a line end it is `count + 1` in 32 bits. */
  function ReadResult(keys: seq<Key>, count: nat): nat {
    if Stopped(keys, count) then Taken(keys, count) else Next32(count)
  }

  /** The part of a text that a call to OutputString shows. */
  function Visible(text: seq<Word16>, errno: Errno, shown: nat): seq<Word16> {
    if errno == 0 || shown >= |text| then text else text[..shown]
  }

  class Terminal {
    /** Keys typed and not read yet. */
    var keys: seq<Key>
    /** Everything shown so far. */
    var screen: seq<Word16>

    constructor (typed: seq<Key>)
      ensures keys == typed && screen == []
    {
      keys, screen := typed, [];
    }

    /** The firmware's OutputString: shows `text` up to its NUL, or up to `shown` characters when it fails. */
    method OutputString(text: seq<Word16>, errno: Errno, shown: nat)
      requires NUL in text
      modifies this`screen
      ensures screen == old(screen) + Visible(UpToNul(text), errno, shown)
    {
      screen := screen + Visible(UpToNul(text), errno, shown);
    }

    /** The firmware's ReadKeyStroke, once a key is waiting. */
    method ReadKeyStroke() returns (key: Key)
      requires keys != []
      modifies this`keys
      ensures key == old(keys)[0] && keys == old(keys)[1..]
    {
      key, keys := keys[0], keys[1..];
    }

    /** Shows a key as it is typed. */
    method EchoTyped(key: Key)
      modifies this`screen
      ensures screen == old(screen) + EchoKey(key)
    {
      ShowCharacter(key.Code());
      ShowCharacter(LF);
      OutputString([key.Code(), NUL], 0, 0);
      if key.low == CR {
        OutputString([LF, NUL], 0, 0);
      }
    }

    /** After `it` turns of a read of the keys `typed`. */
    ghost predicate ReadSoFar(typed: seq<Key>, before: seq<Word16>, cells: seq<Byte>, buf: array<Byte>, it: nat)
      requires it <= |typed| && it <= |cells|
      reads this, buf
    {
      && keys == typed[it..]
      && screen == before + Echo(typed, it)
      && buf[..] == Filled(cells, typed, it)
    }

    /** One turn of the read loop, for cell `it`: waits for a key, shows it and stores it. */
    method ReadKeyInto(buf: array<Byte>, it: nat, ghost typed: seq<Key>, ghost before: seq<Word16>,
                       ghost cells: seq<Byte>)
      returns (stop: bool)
      requires it < |typed| && it < |cells| == buf.Length
      requires ReadSoFar(typed, before, cells, buf, it)
      modifies this, buf
      ensures ReadSoFar(typed, before, cells, buf, it + 1)
      ensures stop == EndsLine(typed[it])
    {
      var key := ReadKeyStroke();
      assert keys == typed[it + 1..];
      var c := key.low;
      if it == 0 && c == BACKSPACE {
        return false;
      }
      EchoTyped(key);
      assert screen == before + (Echo(typed, it) + EchoKey(key));
      if c == CR {
        c := LF;
      }
      buf[it] := c;
      assert buf[..] == Filled(cells, typed, it)[it := c];
      stop := c == LF;
    }

    /**
     * The read of descriptor 0. Fills `buf` from the keys, translating carriage returns, until a line ends or
     * `count` keys are taken; a backspace typed first uses up a cell without writing it. The number returned is
     * the index the loop ends at plus one, as an `unsigned`: that of the line end, or `count` when no line ended.
     * The index must not wrap within the loop.
     */
    method FdReadStdin(buf: array<Byte>, count: nat) returns (n: nat)
      requires count <= buf.Length
      requires Returns(keys, count) && Taken(keys, count) < TWO32
      modifies this, buf
      ensures var taken := Taken(old(keys), count);
              && keys == old(keys)[taken..]
              && screen == old(screen) + Echo(old(keys), taken)
              && n == ReadResult(old(keys), count)
              && buf[..] == Filled(old(buf[..]), old(keys), taken)
    {
      ghost var typed, before, cells := keys, screen, buf[..];
      var it := 0;
      while it != count
        invariant 0 <= it <= count && it <= |typed|
        invariant forall i :: 0 <= i < it ==> !EndsLine(typed[i])
        invariant ReadSoFar(typed, before, cells, buf, it)
        decreases count - it
      {
        KeyWaits(typed, count, it);
        var stop := ReadKeyInto(buf, it, typed, before, cells);
        if stop {
          TakenIs(typed, count, it + 1);
          NextIsPlusOne(it);
          return Next32(it);
        }
        it := it + 1;
      }
      TakenIs(typed, count, count);
      n := Next32(it);
    }

    /**
     * The write to descriptors 1 and 2: copies the encoding of `src` to a stack buffer of two cells a byte and
     * shows it. `end` is the cell the terminator goes to. The model's buffer has one cell more than the source's,
     * for the writes whose terminator lands past it. `errno` is what OutputString reports, after `shown` characters
     * when it is an error.
     */
    method FdWriteStdout(src: array<Byte>, count: nat, errno: Errno, shown: nat) returns (n: int, end: nat)
      requires count <= src.Length && count < TWO32
      requires |Encode(src[..count])| < TWO32
      modifies this`screen
      ensures n == if errno == 0 then count else 0 - errno
      ensures var text := Encode(src[..count]);
              screen == old(screen) + if errno == 0 || shown >= |text| then text else text[..shown]
      ensures end == |Encode(src[..count])| <= 2 * count
    {
      var strBuf := new Word16[2 * count + 1];
      end := FillStringBuffer(src, count, strBuf);
      strBuf[end] := NUL;

      NothingHidden(src[..count]);
      UpToNulSplits(strBuf[..end], strBuf[end + 1..]);
      assert strBuf[..] == strBuf[..end] + [NUL] + strBuf[end + 1..];
      OutputString(strBuf[..], errno, shown);
      n := if errno != 0 then Failure(errno) else count;
    }
  }

  /** The two-index loop of the write. `strIt` steps back before it steps on for a NUL, wrapping at index 0. */
  method FillStringBuffer(src: array<Byte>, count: nat, strBuf: array<Word16>) returns (strIt: nat)
    requires count <= src.Length && count < TWO32
    requires strBuf.Length > 2 * count
    requires |Encode(src[..count])| < TWO32
    modifies strBuf
    ensures strIt == |Encode(src[..count])| <= 2 * count
    ensures strBuf[..strIt] == Encode(src[..count])
  {
    ghost var bytes := src[..count];
    var it := 0;
    strIt := 0;
    assert bytes[..0] == [];
    while it != count
      invariant 0 <= it <= count
      invariant strIt == |Encode(bytes[..it])| <= 2 * it && strIt < TWO32
      invariant strBuf[..strIt] == Encode(bytes[..it])
      decreases count - it
    {
      EncodeGrows(bytes, it);
      strIt := EncodeCell(src[it], strBuf, strIt, bytes[..it]);
      it := it + 1;
    }
    assert bytes[..count] == bytes;
  }

  /** One turn of the loop: the cells for byte `b`, and the index after both increments. */
  method EncodeCell(b: Byte, strBuf: array<Word16>, strIt: nat, ghost done: seq<Byte>) returns (next: nat)
    requires strIt == |Encode(done)| && strIt + |EncodeByte(b)| < TWO32
    requires strIt + |EncodeByte(b)| < strBuf.Length
    requires strBuf[..strIt] == Encode(done)
    modifies strBuf
    ensures next == strIt + |EncodeByte(b)|
    ensures strBuf[..next] == Encode(done) + EncodeByte(b)
  {
    next := strIt;
    if b == NUL {
      NextOfPrevious(strIt);
      next := Previous32(next);
    } else if b == LF {
      NextIsPlusOne(strIt);
      strBuf[next] := CR;
      next := Next32(next);
      strBuf[next] := LF;
      NextIsPlusOne(next);
    } else {
      NextIsPlusOne(strIt);
      strBuf[next] := b;
    }
    next := Next32(next);
  }

  /** One more byte extends the encoding, which stays within that of all bytes and within two cells a byte. */
  lemma EncodeGrows(bytes: seq<Byte>, k: nat)
    requires k < |bytes|
    ensures Encode(bytes[..k + 1]) == Encode(bytes[..k]) + EncodeByte(bytes[k])
    ensures |Encode(bytes[..k + 1])| <= |Encode(bytes)|
    ensures |Encode(bytes[..k + 1])| <= 2 * (k + 1)
  {
    assert bytes[..k + 1][..k] == bytes[..k];
    assert bytes == bytes[..k + 1] + bytes[k + 1..];
    EncodeJoins(bytes[..k + 1], bytes[k + 1..]);
    TerminatorFits(bytes[..k + 1]);
  }

  lemma ShowCharacter(c: Word16)
    ensures UpToNul([c, NUL]) == if c == NUL then [] else [c]
  {
    if c != NUL {
      assert [c, NUL] == [c] + [NUL] + [];
      UpToNulSplits([c], []);
    }
  }
}
