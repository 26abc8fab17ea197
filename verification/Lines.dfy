/** Cutting a stream of bytes into lines. */
module Lines {
  import opened MachineInts

  /** The position of the first `d`, or the length when there is none. */
  function Find(s: seq<Byte>, d: Byte): (k: nat)
    ensures k <= |s|
    ensures forall i :: 0 <= i < k ==> s[i] != d
    ensures k < |s| ==> s[k] == d
  {
    if s == [] || s[0] == d then 0 else 1 + Find(s[1..], d)
  }

  lemma FindHere(s: seq<Byte>, d: Byte, i: nat)
    requires i <= Find(s, d)
    ensures i == Find(s, d) <==> i == |s| || s[i] == d
  {
  }

  /** The complete lines of `s`, each with its delimiter. */
  function Split(s: seq<Byte>, d: Byte): seq<seq<Byte>>
    decreases |s|
  {
    var k := Find(s, d);
    if k == |s| then [] else [s[..k + 1]] + Split(s[k + 1..], d)
  }

  /** What follows the last delimiter. */
  function Tail(s: seq<Byte>, d: Byte): seq<Byte>
    decreases |s|
  {
    var k := Find(s, d);
    if k == |s| then s else Tail(s[k + 1..], d)
  }

  function Flatten(lines: seq<seq<Byte>>): seq<Byte> {
    if lines == [] then [] else lines[0] + Flatten(lines[1..])
  }

  predicate IsLine(line: seq<Byte>, d: Byte) {
    line != [] && line[|line| - 1] == d && d !in line[..|line| - 1]
  }

  predicate AreLines(lines: seq<seq<Byte>>, d: Byte) {
    forall i :: 0 <= i < |lines| ==> IsLine(lines[i], d)
  }

  lemma Regroup(a: seq<Byte>, b: seq<Byte>, c: seq<Byte>)
    ensures (a + b) + c == a + (b + c)
  {
  }

  lemma SplitStep(s: seq<Byte>, d: Byte, k: nat)
    requires k == Find(s, d) < |s|
    ensures Split(s, d) == [s[..k + 1]] + Split(s[k + 1..], d)
    ensures Tail(s, d) == Tail(s[k + 1..], d)
  {
  }

  lemma SplitEnds(s: seq<Byte>, d: Byte)
    requires Find(s, d) == |s|
    ensures Split(s, d) == [] && Tail(s, d) == s
  {
  }

  lemma MoveLine(lines: seq<seq<Byte>>, line: seq<Byte>, rest: seq<seq<Byte>>)
    ensures lines + ([line] + rest) == (lines + [line]) + rest
  {
  }

  /** A line in front of a stream is split off first. */
  lemma FirstLineSplits(line: seq<Byte>, rest: seq<Byte>, d: Byte)
    requires IsLine(line, d)
    ensures Split(line + rest, d) == [line] + Split(rest, d) && Tail(line + rest, d) == Tail(rest, d)
  {
    FindInFirst(line, rest, d);
    assert (line + rest)[..|line|] == line && (line + rest)[|line|..] == rest;
  }

  /** The lines and the tail give the stream back, and each line ends at its only delimiter. */
  lemma {:induction false} SplitPartitions(s: seq<Byte>, d: Byte)
    ensures Flatten(Split(s, d)) + Tail(s, d) == s
    ensures AreLines(Split(s, d), d) && d !in Tail(s, d)
    decreases |s|
  {
    var k := Find(s, d);
    if k < |s| {
      var line, rest := s[..k + 1], s[k + 1..];
      SplitPartitions(rest, d);
      assert s == line + rest && IsLine(line, d);
      FirstLineSplits(line, rest, d);
      assert ([line] + Split(rest, d))[1..] == Split(rest, d);
      Regroup(line, Flatten(Split(rest, d)), Tail(rest, d));
    } else {
      assert Flatten(Split(s, d)) == [];
    }
  }

  /** There is no other way to cut the stream. */
  lemma {:induction false} SplitIsUnique(lines: seq<seq<Byte>>, tail: seq<Byte>, d: Byte)
    requires AreLines(lines, d) && d !in tail
    ensures Split(Flatten(lines) + tail, d) == lines && Tail(Flatten(lines) + tail, d) == tail
  {
    if lines == [] {
      assert Flatten(lines) + tail == tail;
    } else {
      var line, rest := lines[0], Flatten(lines[1..]) + tail;
      SplitIsUnique(lines[1..], tail, d);
      Regroup(line, Flatten(lines[1..]), tail);
      FirstLineSplits(line, rest, d);
      assert lines == [line] + lines[1..];
    }
  }

  lemma FindInFirst(line: seq<Byte>, rest: seq<Byte>, d: Byte)
    requires IsLine(line, d)
    ensures Find(line + rest, d) == |line| - 1
  {
    var last := |line| - 1;
    assert (line + rest)[last] == d;
    forall i | 0 <= i < last
      ensures (line + rest)[i] != d
    {
      assert (line + rest)[i] == line[..last][i];
    }
  }
}
