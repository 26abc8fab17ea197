/** Reading the terminal byte by byte, against reading it at once. */
module ByteReads {
  import opened MachineInts
  import opened ConsoleText
  import opened Console
  import opened ConsoleLaws

  /** What a number of reads leave in the buffer, how many keys they take, and what they show. */
  datatype Reading = Reading(cells: seq<Byte>, taken: nat, shown: seq<Word16>)

  /** One read with room for `n` bytes in front of `before`. */
  function AtOnce(before: seq<Byte>, keys: seq<Key>, n: nat): Reading
    requires n <= |before|
  {
    var taken := Taken(keys, n);
    Reading(Filled(before, keys, taken), taken, Echo(keys, taken))
  }

  /** Up to `n` reads of one byte each, into cell after cell, until one of them takes a line end. */
  function OneByOne(before: seq<Byte>, keys: seq<Key>, n: nat): (r: Reading)
    requires n <= |before|
    ensures |r.cells| == |before|
    decreases n
  {
    if n == 0 || keys == [] then Reading(before, 0, [])
    else
      var first := AtOnce(before[..1], keys, 1);
      if Stopped(keys, 1) then first.(cells := first.cells + before[1..])
      else
        var rest := OneByOne(before[1..], keys[1..], n - 1);
        Reading(first.cells + rest.cells, 1 + rest.taken, first.shown + rest.shown)
  }

  /** Cutting a read in two stores the same bytes unless a backspace at the cut meets a cell with another byte. */
  lemma FilledSplits(before: seq<Byte>, keys: seq<Key>, n: nat, m: nat)
    requires 0 < n && 0 < m && n + m <= |keys| && n + m <= |before|
    ensures Filled(before, keys, n + m) == Filled(before[..n], keys, n) + Filled(before[n..], keys[n..], m)
       <==> !IsBackspace(keys[n]) || before[n] == BACKSPACE
  {
    var whole, cut := Filled(before, keys, n + m), Filled(before[..n], keys, n) + Filled(before[n..], keys[n..], m);
    FilledCells(before, keys, n + m);
    FilledCells(before[..n], keys, n);
    FilledCells(before[n..], keys[n..], m);
    assert |whole| == |cut|;
    assert cut[n] == Filled(before[n..], keys[n..], m)[0];
    assert forall i :: 0 <= i < n ==> whole[i] == cut[i];
    forall i | n < i < |before|
      ensures whole[i] == cut[i]
    {
      assert cut[i] == Filled(before[n..], keys[n..], m)[i - n];
      if i < n + m {
        assert keys[n..][i - n] == keys[i];
      }
    }
  }

  /** One-byte reads take the keys of one read. */
  lemma {:induction false} SameKeysTaken(before: seq<Byte>, keys: seq<Key>, n: nat)
    requires n <= |before|
    ensures OneByOne(before, keys, n).taken == Taken(keys, n)
    decreases n
  {
    if n > 0 && keys != [] && !Stopped(keys, 1) {
      SameKeysTaken(before[1..], keys[1..], n - 1);
    }
  }

  /** Every cell after one-byte reads: each backspace leaves its cell as it was. */
  lemma {:induction false} CellsOneByOne(before: seq<Byte>, keys: seq<Key>, n: nat, i: nat)
    requires n <= |before| && i < |before|
    ensures OneByOne(before, keys, n).cells[i]
         == if i < Taken(keys, n) && !IsBackspace(keys[i]) then StoredByte(keys[i]) else before[i]
    decreases n
  {
    if n > 0 && keys != [] {
      FilledCells(before[..1], keys, 1);
      if i > 0 && !Stopped(keys, 1) {
        CellsOneByOne(before[1..], keys[1..], n - 1, i - 1);
      }
    }
  }

  /** A backspace is among the first `n` keys, after the first of them. */
  predicate LaterBackspace(keys: seq<Key>, n: nat)
    requires n <= |keys|
  {
    exists i :: 0 < i < n && IsBackspace(keys[i])
  }

  lemma EchoAfterFirst(keys: seq<Key>, m: nat)
    requires 1 + m <= |keys|
    ensures var first, rest, whole := Echo(keys, 1), Echo(keys[1..], m), Echo(keys, 1 + m);
            if m > 0 && IsBackspace(keys[1]) then |first + rest| < |whole| else whole == first + rest
  {
    if m > 0 {
      EchoExtends(keys, 1, m);
      SecondText(keys, 1, m);
    }
  }

  lemma LaterInRest(keys: seq<Key>, m: nat)
    requires 1 + m <= |keys|
    ensures LaterBackspace(keys, 1 + m) <==> (m > 0 && IsBackspace(keys[1])) || LaterBackspace(keys[1..], m)
  {
    if i :| 0 < i < 1 + m && IsBackspace(keys[i]) {
      assert i == 1 || IsBackspace(keys[1..][i - 1]);
    }
    if i :| 0 < i < m && IsBackspace(keys[1..][i]) {
      assert IsBackspace(keys[i + 1]);
    }
  }

  /** One-byte reads show no more than one read, and less when a backspace comes after the first key. */
  lemma {:induction false} TextOneByOne(before: seq<Byte>, keys: seq<Key>, n: nat)
    requires n <= |before|
    ensures var once, single := Echo(keys, Taken(keys, n)), OneByOne(before, keys, n).shown;
            if LaterBackspace(keys, Taken(keys, n)) then |single| < |once| else single == once
    decreases n
  {
    if n > 0 && keys != [] && !Stopped(keys, 1) {
      var rest, m := keys[1..], Taken(keys[1..], n - 1);
      TextOneByOne(before[1..], rest, n - 1);
      assert OneByOne(before, keys, n).shown == Echo(keys, 1) + OneByOne(before[1..], rest, n - 1).shown;
      EchoAfterFirst(keys, m);
      LaterInRest(keys, m);
    }
  }

  /**
   * Up to `n` one-byte reads, stopped at the first line end, take exactly the keys of one read of `n` bytes. They
   * show the same text exactly when no key after the first is a backspace, and store the same bytes exactly when
   * every such backspace meets a cell that holds one already.
   */
  lemma OneByOneIsAtOnce(before: seq<Byte>, keys: seq<Key>, n: nat)
    requires n <= |before|
    ensures var once, single := AtOnce(before, keys, n), OneByOne(before, keys, n);
            && single.taken == once.taken
            && (single.shown == once.shown <==> forall i :: 0 < i < once.taken ==> !IsBackspace(keys[i]))
            && (single.cells == once.cells <==>
                  forall i :: 0 < i < once.taken ==> !IsBackspace(keys[i]) || before[i] == BACKSPACE)
  {
    var once, single := AtOnce(before, keys, n), OneByOne(before, keys, n);
    SameKeysTaken(before, keys, n);
    TextOneByOne(before, keys, n);
    FilledCells(before, keys, once.taken);
    forall i | 0 <= i < |before|
      ensures single.cells[i] == once.cells[i]
         <==> !(0 < i < once.taken) || !IsBackspace(keys[i]) || before[i] == BACKSPACE
    {
      CellsOneByOne(before, keys, n, i);
    }
  }

  lemma ReturnsAfterFirst(keys: seq<Key>, n: nat)
    requires n > 0 && Returns(keys, n)
    ensures keys != [] && Returns(keys, 1) && Taken(keys, 1) == 1
    ensures !Stopped(keys, 1) ==> Returns(keys[1..], n - 1)
  {
    if keys != [] && !EndsLine(keys[0]) {
      var m := Taken(keys[1..], n - 1);
      assert m > 0 ==> keys[1..][m - 1] == keys[m];
    }
  }

  /** `read(0, buf + i, 1)`: the read that may fill cell `i`. */
  method ReadCell(terminal: Terminal, buf: array<Byte>, i: nat) returns (stopped: bool)
    requires i < buf.Length
    requires Returns(terminal.keys, 1) && Taken(terminal.keys, 1) == 1
    modifies terminal, buf
    ensures var first := AtOnce(old(buf[i..])[..1], old(terminal.keys), 1);
            && stopped == Stopped(old(terminal.keys), 1)
            && buf[..i] == old(buf[..i]) && buf[i..] == first.cells + old(buf[i..])[1..]
            && terminal.keys == old(terminal.keys)[1..]
            && terminal.screen == old(terminal.screen) + first.shown
  {
    ghost var keys, tail := terminal.keys, buf[i..];
    var cell := new Byte[] [buf[i]];
    assert cell[..] == tail[..1];
    var n := terminal.FdReadStdin(cell, 1);
    StoppedIsOne(keys);
    buf[i] := cell[0];
    assert [cell[0]] == cell[..];
    assert buf[i..] == [cell[0]] + tail[1..];
    stopped := n == 1;
  }

  /** A caller that reads byte by byte from cell `i` on gets what `OneByOne` says. */
  method ReadOneByOne(terminal: Terminal, buf: array<Byte>, i: nat, n: nat) returns (ghost r: Reading)
    requires i + n <= buf.Length
    requires Returns(terminal.keys, n)
    modifies terminal, buf
    ensures r == OneByOne(old(buf[i..]), old(terminal.keys), n)
    ensures buf[..i] == old(buf[..i]) && buf[i..] == r.cells
    ensures r.taken <= |old(terminal.keys)| && terminal.keys == old(terminal.keys)[r.taken..]
    ensures terminal.screen == old(terminal.screen) + r.shown
    decreases n
  {
    ghost var keys, tail := terminal.keys, buf[i..];
    if n == 0 {
      return Reading(tail, 0, []);
    }
    ReturnsAfterFirst(keys, n);
    var stopped := ReadCell(terminal, buf, i);
    ghost var first := AtOnce(tail[..1], keys, 1);
    if stopped {
      return first.(cells := first.cells + tail[1..]);
    }
    assert buf[i + 1..] == tail[1..];
    ghost var front := buf[..i + 1];
    ghost var rest := ReadOneByOne(terminal, buf, i + 1, n - 1);
    r := Reading(first.cells + rest.cells, 1 + rest.taken, first.shown + rest.shown);
    assert buf[..i] == front[..i] && buf[i] == front[i] == first.cells[0];
    assert buf[i..] == [buf[i]] + buf[i + 1..] == r.cells;
    TextGoesOn(old(terminal.screen), first.shown, rest.shown);
    assert keys[1..][rest.taken..] == keys[r.taken..];
  }

  lemma TextGoesOn(screen: seq<Word16>, first: seq<Word16>, rest: seq<Word16>)
    ensures (screen + first) + rest == screen + (first + rest)
  {
  }

  lemma StoppedIsOne(keys: seq<Key>)
    requires Returns(keys, 1)
    ensures ReadResult(keys, 1) == 1 <==> Stopped(keys, 1)
  {
  }
}
