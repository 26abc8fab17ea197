/** Reading line after line from the terminal with one buffer. */
module TypedLines {
  import opened MachineInts
  import opened ConsoleText
  import opened Console
  import opened ConsoleLaws
  import opened Lines
  import opened GetDelim

  /** The line typed first, with its delimiter. */
  function LineOf(keys: seq<Key>, d: Byte): seq<Byte> {
    if keys == [] then []
    else [StoredByte(keys[0])] + if StoredByte(keys[0]) == d then [] else LineOf(keys[1..], d)
  }

  /** The keys typed after it. */
  function After(keys: seq<Key>, d: Byte): seq<Key> {
    if keys == [] then [] else if StoredByte(keys[0]) == d then keys[1..] else After(keys[1..], d)
  }

  /** The next `n` lines can be read from the keys. */
  predicate LinesTyped(keys: seq<Key>, d: Byte, n: nat)
    decreases n
  {
    n == 0 || (LineTyped(keys, d) && LinesTyped(After(keys, d), d, n - 1))
  }

  function FirstLines(keys: seq<Key>, d: Byte, n: nat): (lines: seq<seq<Byte>>)
    ensures |lines| == n
    decreases n
  {
    if n == 0 then [] else [LineOf(keys, d)] + FirstLines(After(keys, d), d, n - 1)
  }

  function AfterLines(keys: seq<Key>, d: Byte, n: nat): seq<Key>
    decreases n
  {
    if n == 0 then keys else AfterLines(After(keys, d), d, n - 1)
  }

  lemma {:induction false} TypedLine(keys: seq<Key>, d: Byte)
    requires LineTyped(keys, d)
    ensures var k := Find(StoredBytes(keys), d);
            k < |keys| && LineOf(keys, d) == StoredBytes(keys)[..k + 1] && After(keys, d) == keys[k + 1..]
  {
    var s, rest := StoredBytes(keys), keys[1..];
    if StoredByte(keys[0]) != d {
      TypedLine(rest, d);
      var k := Find(StoredBytes(rest), d);
      assert s[1..] == StoredBytes(rest);
      assert s[..k + 2] == [s[0]] + StoredBytes(rest)[..k + 1];
      assert rest[k + 1..] == keys[k + 2..];
    }
  }

  lemma TypedLineInFront(keys: seq<Key>, d: Byte)
    requires LineTyped(keys, d)
    ensures IsLine(LineOf(keys, d), d)
    ensures StoredBytes(keys) == LineOf(keys, d) + StoredBytes(After(keys, d))
  {
    TypedLine(keys, d);
    var s, k := StoredBytes(keys), Find(StoredBytes(keys), d);
    assert StoredBytes(keys[k + 1..]) == s[k + 1..];
    assert s[..k + 1][..k] == s[..k];
  }

  /** The lines read first are the first that `Split` cuts, and the rest is cut from the keys after them. */
  lemma {:induction false} FirstLinesSplit(keys: seq<Key>, d: Byte, n: nat)
    requires LinesTyped(keys, d, n)
    ensures Split(StoredBytes(keys), d) == FirstLines(keys, d, n) + Split(StoredBytes(AfterLines(keys, d, n)), d)
    decreases n
  {
    if n > 0 {
      var line, rest := LineOf(keys, d), After(keys, d);
      TypedLineInFront(keys, d);
      FirstLinesSplit(rest, d, n - 1);
      FirstLineSplits(line, StoredBytes(rest), d);
      Prepend(line, FirstLines(rest, d, n - 1), Split(StoredBytes(AfterLines(rest, d, n - 1)), d));
    }
  }

  lemma FirstOfSplit(keys: seq<Key>, d: Byte, n: nat, lines: seq<seq<Byte>>)
    requires LinesTyped(keys, d, n) && lines == FirstLines(keys, d, n)
    ensures n <= |Split(StoredBytes(keys), d)| && lines == Split(StoredBytes(keys), d)[..n]
  {
    FirstLinesSplit(keys, d, n);
  }

  lemma Prepend(line: seq<Byte>, lines: seq<seq<Byte>>, more: seq<seq<Byte>>)
    ensures [line] + (lines + more) == ([line] + lines) + more
  {
  }

  /** One call on the terminal, with the line it leaves in the buffer. */
  method NextTypedLine(buf: LineBuffer, d: Byte, input: Input, ghost keys: seq<Key>) returns (line: seq<Byte>)
    requires input.terminal != null && input.terminal.keys == keys && LineTyped(keys, d)
    requires buf.out != null ==> buf.Room() && (buf.Spare() || |LineOf(keys, d)| != buf.outSize)
    modifies buf, buf.out, input, input.terminal
    ensures line == LineOf(keys, d) && input.terminal.keys == After(keys, d)
    ensures KeysRead(input.terminal, keys, old(input.terminal.screen), |line|)
    ensures buf.Room() && (buf.out == old(buf.out) || fresh(buf.out))
    ensures old(buf.out) == null || old(buf.Spare()) || |line| > old(buf.outSize) ==> buf.Spare()
    ensures old(buf.out) != null && |line| <= old(buf.outSize) ==> buf.outSize == old(buf.outSize)
  {
    TypedLine(keys, d);
    ghost var k := Find(StoredBytes(keys), d);
    var r := GetDelimited(buf, d, input);
    assert r - 1 == k + 1;
    line := buf.out[..r - 1];
    assert line == StoredBytes(keys)[..k + 1];
  }

  lemma TakenByLines(line: seq<Byte>, rest: seq<seq<Byte>>)
    ensures |Flatten([line] + rest)| == |line| + |Flatten(rest)|
  {
    assert ([line] + rest)[1..] == rest;
  }

  lemma NoKeysRead(terminal: Terminal)
    ensures KeysRead(terminal, terminal.keys, terminal.screen, 0)
  {
    assert terminal.screen + Typed(terminal.keys[..0]) == terminal.screen;
  }

  /** The first of `n` calls. */
  method NextOfLines(buf: LineBuffer, d: Byte, input: Input, n: nat, ghost keys: seq<Key>) returns (line: seq<Byte>)
    requires input.terminal != null && input.terminal.keys == keys && LinesTyped(keys, d, n) && n > 0
    requires TakesAll(buf, FirstLines(keys, d, n))
    modifies buf, buf.out, input, input.terminal
    ensures line == LineOf(keys, d) && input.terminal.keys == After(keys, d)
    ensures KeysRead(input.terminal, keys, old(input.terminal.screen), |line|)
    ensures TakesAll(buf, FirstLines(After(keys, d), d, n - 1))
    ensures buf.out == old(buf.out) || fresh(buf.out)
  {
    LinesFitStep(LineOf(keys, d), FirstLines(After(keys, d), d, n - 1), buf.outSize);
    line := NextTypedLine(buf, d, input, keys);
  }

  /** One more of the first lines has been read. */
  lemma OneMoreLine(done: seq<seq<Byte>>, keys: seq<Key>, d: Byte, n: nat)
    requires n > 0
    ensures var line := LineOf(keys, d);
            && done + FirstLines(keys, d, n) == (done + [line]) + FirstLines(After(keys, d), d, n - 1)
            && |Flatten(done + [line])| == |Flatten(done)| + |line|
  {
    MoveLine(done, LineOf(keys, d), FirstLines(After(keys, d), d, n - 1));
    FlattenMore(done, LineOf(keys, d));
  }

  lemma {:induction false} FlattenMore(done: seq<seq<Byte>>, line: seq<Byte>)
    ensures |Flatten(done + [line])| == |Flatten(done)| + |line|
  {
    if done != [] {
      FlattenMore(done[1..], line);
      assert done == [done[0]] + done[1..] && done + [line] == [done[0]] + (done[1..] + [line]);
      TakenByLines(done[0], done[1..]);
      TakenByLines(done[0], done[1..] + [line]);
    } else {
      assert Flatten([]) == [] && [line][1..] == [];
    }
  }

  /**
   * Any number of calls with the same buffer deliver the lines typed first, as `Split` cuts them, one after the
   * other. They take just the keys of these lines, and echo them.
   */
  method ReadTypedLines(buf: LineBuffer, d: Byte, input: Input, n: nat) returns (lines: seq<seq<Byte>>)
    requires input.terminal != null && LinesTyped(input.terminal.keys, d, n)
    requires TakesAll(buf, FirstLines(input.terminal.keys, d, n))
    modifies buf, buf.out, input, input.terminal
    ensures n <= |Split(old(input.Incoming()), d)| && lines == Split(old(input.Incoming()), d)[..n]
    ensures KeysRead(input.terminal, old(input.terminal.keys), old(input.terminal.screen), |Flatten(lines)|)
  {
    ghost var keys, screen := input.terminal.keys, input.terminal.screen;
    NoKeysRead(input.terminal);
    lines := [];
    var left: nat := n;
    while left > 0
      invariant KeysRead(input.terminal, keys, screen, |Flatten(lines)|)
      invariant LinesTyped(input.terminal.keys, d, left)
      invariant TakesAll(buf, FirstLines(input.terminal.keys, d, left)) && (buf.out == old(buf.out) || fresh(buf.out))
      invariant lines + FirstLines(input.terminal.keys, d, left) == FirstLines(keys, d, n)
    {
      lines := AddLine(buf, d, input, lines, left, keys, screen);
      left := left - 1;
    }
    FirstOfSplit(keys, d, n, lines);
  }

  /** One turn of that loop, with `left` lines to go. */
  method AddLine(buf: LineBuffer, d: Byte, input: Input, done: seq<seq<Byte>>, left: nat,
                 ghost keys: seq<Key>, ghost screen: seq<Word16>) returns (lines: seq<seq<Byte>>)
    requires input.terminal != null && KeysRead(input.terminal, keys, screen, |Flatten(done)|)
    requires left > 0 && LinesTyped(input.terminal.keys, d, left)
    requires TakesAll(buf, FirstLines(input.terminal.keys, d, left))
    modifies buf, buf.out, input, input.terminal
    ensures KeysRead(input.terminal, keys, screen, |Flatten(lines)|)
    ensures LinesTyped(input.terminal.keys, d, left - 1)
    ensures TakesAll(buf, FirstLines(input.terminal.keys, d, left - 1))
    ensures buf.out == old(buf.out) || fresh(buf.out)
    ensures lines + FirstLines(input.terminal.keys, d, left - 1)
            == done + FirstLines(old(input.terminal.keys), d, left)
  {
    ghost var now := input.terminal.keys;
    var line := NextOfLines(buf, d, input, left, now);
    OneMoreLine(done, now, d, left);
    lines := done + [line];
    MoreKeys(input.terminal, keys, screen, |Flatten(done)|, now, |line|, |Flatten(lines)|);
  }
}
