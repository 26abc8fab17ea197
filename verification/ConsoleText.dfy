/** What the console's write branch shows for the bytes it is given. */
module ConsoleText {
  import opened MachineInts

  const NUL: Word16 := 0
  const BACKSPACE: Word16 := 8
  const LF: Word16 := 10
  const CR: Word16 := 13

  function EncodeByte(b: Byte): seq<Word16> {
    if b == NUL then [] else if b == LF then [CR, LF] else [b]
  }

  /** The characters shown for `bytes`: no NULs, and a carriage return before every line feed. */
  function Encode(bytes: seq<Byte>): seq<Word16> {
    if bytes == [] then [] else Encode(bytes[..|bytes| - 1]) + EncodeByte(bytes[|bytes| - 1])
  }

  /** The characters of a NUL-terminated string. */
  function UpToNul(s: seq<Word16>): seq<Word16> {
    if s == [] || s[0] == NUL then [] else [s[0]] + UpToNul(s[1..])
  }

  /** Reads CR LF pairs back as line feeds. */
  function Collapse(s: seq<Word16>): seq<Word16> {
    if |s| < 2 then s
    else if s[0] == 13 && s[1] == 10 then [10] + Collapse(s[2..])
    else [s[0]] + Collapse(s[1..])
  }

  function DropNuls(bytes: seq<Byte>): seq<Byte> {
    if bytes == [] then [] else (if bytes[0] == 0 then [] else [bytes[0]]) + DropNuls(bytes[1..])
  }

  function Count(bytes: seq<Byte>, b: Byte): nat {
    if bytes == [] then 0 else Count(bytes[..|bytes| - 1], b) + if bytes[|bytes| - 1] == b then 1 else 0
  }

  lemma {:induction false} UpToNulSplits(shown: seq<Word16>, rest: seq<Word16>)
    requires NUL !in shown
    ensures UpToNul(shown + [NUL] + rest) == shown
  {
    var s := shown + [NUL] + rest;
    if shown != [] {
      assert s[0] == shown[0] && s[1..] == shown[1..] + [NUL] + rest;
      UpToNulSplits(shown[1..], rest);
    }
  }

  lemma {:induction false} NothingHidden(bytes: seq<Byte>)
    ensures NUL !in Encode(bytes)
  {
    if bytes != [] {
      NothingHidden(bytes[..|bytes| - 1]);
    }
  }

  /** Splitting a write into several shows the same text. */
  lemma {:induction false} EncodeJoins(a: seq<Byte>, b: seq<Byte>)
    ensures Encode(a + b) == Encode(a) + Encode(b)
  {
    if b == [] {
      assert a + b == a;
    } else {
      var last := |b| - 1;
      var init, end := b[..last], EncodeByte(b[last]);
      assert (a + b)[..|a + b| - 1] == a + init;
      EncodeJoins(a, init);
      assert (Encode(a) + Encode(init)) + end == Encode(a) + (Encode(init) + end);
    }
  }

  lemma EncodeFront(bytes: seq<Byte>)
    requires bytes != []
    ensures Encode(bytes) == EncodeByte(bytes[0]) + Encode(bytes[1..])
  {
    assert bytes == [bytes[0]] + bytes[1..];
    EncodeJoins([bytes[0]], bytes[1..]);
  }

  /** The final index of the encoding loop: one cell for each byte that is not NUL, one more for each line feed. */
  lemma {:induction false} EncodedLength(bytes: seq<Byte>)
    ensures |Encode(bytes)| == |bytes| - Count(bytes, NUL) + Count(bytes, LF)
    ensures Count(bytes, LF) + Count(bytes, NUL) <= |bytes|
  {
    if bytes != [] {
      EncodedLength(bytes[..|bytes| - 1]);
    }
  }

  /** The terminator lands inside the buffer of two cells a byte just when some byte is not a line feed. */
  lemma {:induction false} TerminatorFits(bytes: seq<Byte>)
    ensures |Encode(bytes)| <= 2 * |bytes|
    ensures |Encode(bytes)| < 2 * |bytes| <==> exists i :: 0 <= i < |bytes| && bytes[i] != LF
  {
    if bytes != [] {
      var init := bytes[..|bytes| - 1];
      TerminatorFits(init);
      if i :| 0 <= i < |init| && init[i] != LF {
        assert bytes[i] != LF;
      }
      assert bytes[|bytes| - 1] != LF ==> exists i :: 0 <= i < |bytes| && bytes[i] != LF;
      assert forall i :: 0 <= i < |init| ==> bytes[i] == init[i];
    }
  }

  lemma CollapseStep(c: Word16, s: seq<Word16>)
    requires c != CR || s == [] || s[0] != LF
    ensures Collapse([c] + s) == [c] + Collapse(s)
  {
    assert ([c] + s)[1..] == s;
  }

  lemma CollapseLine(s: seq<Word16>)
    ensures Collapse([CR, LF] + s) == [LF] + Collapse(s)
  {
    assert ([CR, LF] + s)[2..] == s;
  }

  lemma {:induction false} NeverStartsWithLf(bytes: seq<Byte>)
    ensures Encode(bytes) == [] || Encode(bytes)[0] != LF
  {
    if bytes != [] {
      EncodeFront(bytes);
      NeverStartsWithLf(bytes[1..]);
    }
  }

  /** The text shown determines the bytes up to NULs, whatever carriage returns are among them. */
  lemma {:induction false} CollapseUndoesEncode(bytes: seq<Byte>)
    ensures Collapse(Encode(bytes)) == DropNuls(bytes)
  {
    if bytes != [] {
      var rest := Encode(bytes[1..]);
      EncodeFront(bytes);
      CollapseUndoesEncode(bytes[1..]);
      if bytes[0] == NUL {
        assert [] + rest == rest;
      } else if bytes[0] == LF {
        CollapseLine(rest);
      } else {
        NeverStartsWithLf(bytes[1..]);
        CollapseStep(bytes[0], rest);
      }
    }
  }

  lemma {:induction false} NulsShowNothing(bytes: seq<Byte>)
    ensures Encode(bytes) == Encode(DropNuls(bytes))
  {
    if bytes != [] {
      NulsShowNothing(bytes[1..]);
      EncodeFront(bytes);
      if bytes[0] == NUL {
        assert EncodeByte(bytes[0]) + Encode(bytes[1..]) == Encode(bytes[1..]);
        assert DropNuls(bytes) == [] + DropNuls(bytes[1..]) == DropNuls(bytes[1..]);
      } else {
        EncodeFront(DropNuls(bytes));
        assert DropNuls(bytes)[1..] == DropNuls(bytes[1..]);
      }
    }
  }

  /** Two writes look the same exactly when they differ only in NULs. */
  lemma SameTextIffSameBytes(a: seq<Byte>, b: seq<Byte>)
    ensures Encode(a) == Encode(b) <==> DropNuls(a) == DropNuls(b)
  {
    CollapseUndoesEncode(a);
    CollapseUndoesEncode(b);
    NulsShowNothing(a);
    NulsShowNothing(b);
  }
}
