/** Widening a path to UTF-16 in a static buffer. */
module WideString {
  import opened MachineInts

  /** The length of a NUL-terminated string. */
  function Length(s: seq<Byte>): (n: nat)
    ensures n <= |s|
    ensures forall i :: 0 <= i < n ==> s[i] != 0
    ensures n < |s| ==> s[n] == 0
  {
    if s == [] || s[0] == 0 then 0 else 1 + Length(s[1..])
  }

  /** The string itself, without the NUL. */
  function Text(s: seq<Byte>): seq<Byte> {
    s[..Length(s)]
  }

  function Unit(low: Byte, high: Byte): Word16 {
    0x100 * high + low
  }

  /** What the firmware reads from a CHAR16 string: little-endian units up to the first zero unit. */
  function Decode(b: seq<Byte>): seq<Word16> {
    if |b| < 2 || (b[0] == 0 && b[1] == 0) then [] else [Unit(b[0], b[1])] + Decode(b[2..])
  }

  const BUFFER_SIZE: nat := 1024

  /** Characters that fit: the buffer's units, less one for the terminator, less one that is never used. */
  const MAX_CHARS: nat := 510

  function Clipped(s: seq<Byte>): seq<Byte> {
    if Length(s) <= MAX_CHARS then Text(s) else s[..MAX_CHARS]
  }

  /** The function-level static buffer. */
  class WideBuffer {
    const fres: array<Byte>

    constructor ()
      ensures fresh(fres) && fres.Length == BUFFER_SIZE
    {
      fres := new Byte[BUFFER_SIZE];
    }

    /** Stores the unit for one byte. */
    method StoreUnit(i: nat, c: Byte)
      requires 2 * i + 2 <= fres.Length
      modifies fres
      ensures fres[..] == old(fres[..])[2 * i := c][2 * i + 1 := 0]
    {
      fres[i * 2] := c;
      fres[i * 2 + 1] := 0;
    }

    /** Whatever an earlier call left, the firmware reads back the first 510 characters of the path. */
    method BstrToWstr(input: array<Byte>)
      requires fres.Length == BUFFER_SIZE && input != fres
      requires 0 in input[..]
      modifies fres
      ensures Decode(fres[..]) == Clipped(input[..])
      ensures var length := Length(input[..]);
              Decode(fres[..]) == input[..if length <= 510 then length else 510]
    {
      ghost var s := input[..];
      NulEndsText(s);
      var it := 0;
      while input[it] != 0 && it != BUFFER_SIZE / 2 - 2
        invariant 0 <= it <= |Clipped(s)|
        invariant Widened(fres[..], s[..it])
        decreases |s| - it
      {
        WidenedGrows(fres[..], s, it);
        StoreUnit(it, input[it]);
        it := it + 1;
      }
      TerminatorKeeps(fres[..], s[..it]);
      StoreUnit(it, 0);
      DecodeWidened(fres[..], s[..it]);
    }
  }

  lemma NulEndsText(s: seq<Byte>)
    requires 0 in s
    ensures Length(s) < |s|
  {
    var i :| 0 <= i < |s| && s[i] == 0;
  }

  /** `b` starts with the characters of `text`, each followed by a zero byte. */
  predicate Widened(b: seq<Byte>, text: seq<Byte>) {
    2 * |text| <= |b| && forall i :: 0 <= i < |text| ==> b[2 * i] == text[i] && b[2 * i + 1] == 0
  }

  lemma WidenedGrows(b: seq<Byte>, s: seq<Byte>, n: nat)
    requires n < |s| && 2 * n + 2 <= |b| && Widened(b, s[..n])
    ensures Widened(b[2 * n := s[n]][2 * n + 1 := 0], s[..n + 1])
  {
  }

  lemma TerminatorKeeps(b: seq<Byte>, text: seq<Byte>)
    requires 2 * |text| + 2 <= |b| && Widened(b, text)
    ensures Widened(b[2 * |text| := 0][2 * |text| + 1 := 0], text)
  {
  }

  lemma {:induction false} DecodeWidened(b: seq<Byte>, text: seq<Byte>)
    requires 2 * |text| + 2 <= |b| && 0 !in text && Widened(b, text)
    requires b[2 * |text|] == 0 && b[2 * |text| + 1] == 0
    ensures Decode(b) == text
  {
    if text != [] {
      var c, rest := text[0], text[1..];
      assert b[2 * 0] == c && b[1] == 0;
      WidenedTail(b, text);
      DecodeWidened(b[2..], rest);
      assert Decode(b) == [Unit(c, 0)] + Decode(b[2..]);
      assert text == [c] + rest;
    }
  }

  lemma WidenedTail(b: seq<Byte>, text: seq<Byte>)
    requires text != [] && Widened(b, text)
    ensures Widened(b[2..], text[1..])
  {
    forall i | 0 <= i < |text[1..]|
      ensures b[2..][2 * i] == text[1..][i] && b[2..][2 * i + 1] == 0
    {
      assert b[2 * (i + 1)] == text[i + 1] && b[2 * (i + 1) + 1] == 0;
    }
  }

  /** Two paths look the same to the firmware just when they agree on their first 510 characters. */
  lemma SamePathIff(s: seq<Byte>, t: seq<Byte>)
    requires 0 in s && 0 in t
    ensures Clipped(s) == Clipped(t) <==>
            (Text(s) == Text(t)
             || (Length(s) >= 510 && Length(t) >= 510 && s[..510] == t[..510]))
  {
    NulEndsText(s);
    NulEndsText(t);
    if Length(s) == MAX_CHARS { assert Text(s) == s[..MAX_CHARS]; }
    if Length(t) == MAX_CHARS { assert Text(t) == t[..MAX_CHARS]; }
    if Text(s) == Text(t) {
      assert |Text(s)| == |Text(t)|;
      if Length(s) > MAX_CHARS {
        assert s[..MAX_CHARS] == Text(s)[..MAX_CHARS] == t[..MAX_CHARS];
      }
    }
  }
}
