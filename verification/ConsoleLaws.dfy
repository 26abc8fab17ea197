/** How typing, the text echoed for it and the text written for the stored bytes relate. */
module ConsoleLaws {
  import opened MachineInts
  import opened ConsoleText
  import opened Console

  /**
   * The result is the number of keys taken just when a line end is among them. It is within the buffer then, and
   * for the one count whose successor wraps to 0.
   */
  lemma ResultCountsKeys(keys: seq<Key>, count: nat)
    requires Returns(keys, count) && Taken(keys, count) < TWO32
    ensures ReadResult(keys, count) == Taken(keys, count)
       <==> exists i :: 0 <= i < Taken(keys, count) && keys[i].low in {10, 13}
    ensures ReadResult(keys, count) <= count
       <==> count == 0xFFFF_FFFF || exists i :: 0 <= i < count && i < |keys| && keys[i].low in {10, 13}
  {
    var n := Taken(keys, count);
    if Stopped(keys, count) {
      assert EndsLine(keys[n - 1]);
    } else if count < TWO32 - 1 {
      NextIsPlusOne(count);
    }
  }

  /** A read returns exactly when enough keys are typed, or one within its count that ends the line. */
  lemma ReadReturns(keys: seq<Key>, count: nat)
    ensures Returns(keys, count)
       <==> |keys| >= count || exists i :: 0 <= i < count && i < |keys| && keys[i].low in {10, 13}
  {
    var n := Taken(keys, count);
    if Stopped(keys, count) {
      assert EndsLine(keys[n - 1]);
    }
  }

  predicate Plain(key: Key) {
    key.high == 0 && key.low != LF
  }

  /** The text shown for keys none of which is swallowed. */
  function Typed(keys: seq<Key>): seq<Word16> {
    if keys == [] then [] else Typed(keys[..|keys| - 1]) + EchoKey(keys[|keys| - 1])
  }

  lemma {:induction false} TypedJoins(a: seq<Key>, b: seq<Key>)
    ensures Typed(a + b) == Typed(a) + Typed(b)
  {
    if b == [] {
      assert a + b == a;
    } else {
      var last := |b| - 1;
      var init, end := b[..last], EchoKey(b[last]);
      assert (a + b)[..|a + b| - 1] == a + init;
      TypedJoins(a, init);
      assert (Typed(a) + Typed(init)) + end == Typed(a) + (Typed(init) + end);
    }
  }

  /** The first key of a read that shows. */
  function Start(keys: seq<Key>): nat {
    if keys != [] && IsBackspace(keys[0]) then 1 else 0
  }

  lemma {:induction false} EchoIsTyped(keys: seq<Key>, n: nat)
    requires Start(keys) <= n <= |keys|
    ensures Echo(keys, n) == Typed(keys[Start(keys)..n])
    decreases n
  {
    var s := Start(keys);
    if n > s {
      EchoIsTyped(keys, n - 1);
      assert keys[s..n][..n - 1 - s] == keys[s..n - 1];
    } else if s == 1 {
      EchoOfSwallowed(keys, n);
    }
  }

  lemma EchoOfSwallowed(keys: seq<Key>, n: nat)
    requires n == 1 <= |keys| && IsBackspace(keys[0])
    ensures Echo(keys, n) == []
  {
    var before := n - 1;
    assert Echo(keys, before) == [];
  }

  /** Drops the line feed after every unit whose low byte is 13. */
  function DropLineFeeds(shown: seq<Word16>): seq<Word16> {
    if |shown| < 2 then shown
    else if shown[0] % 256 == 13 && shown[1] == 10 then [shown[0]] + DropLineFeeds(shown[2..])
    else [shown[0]] + DropLineFeeds(shown[1..])
  }

  /** The UTF-16 code of a key that has one. */
  function CodeOf(key: Key): seq<Word16> {
    if key.low == 0 && key.high == 0 then [] else [256 * key.high + key.low]
  }

  function Codes(keys: seq<Key>): seq<Word16> {
    if keys == [] then [] else CodeOf(keys[0]) + Codes(keys[1..])
  }

  /** How many of the keys have the low byte 13. */
  function ReturnKeys(keys: seq<Key>): nat {
    if keys == [] then 0 else (if keys[0].low == 13 then 1 else 0) + ReturnKeys(keys[1..])
  }

  lemma TypedFront(keys: seq<Key>)
    requires keys != []
    ensures Typed(keys) == EchoKey(keys[0]) + Typed(keys[1..])
  {
    assert keys == [keys[0]] + keys[1..];
    assert Typed([keys[0]]) == Typed([keys[0]][..0]) + EchoKey(keys[0]);
    TypedJoins([keys[0]], keys[1..]);
  }

  lemma DropStep(unit: Word16, s: seq<Word16>)
    ensures unit % 256 != 13 ==> DropLineFeeds([unit] + s) == [unit] + DropLineFeeds(s)
    ensures unit % 256 == 13 ==> DropLineFeeds([unit, 10] + s) == [unit] + DropLineFeeds(s)
  {
    assert ([unit] + s)[1..] == s && ([unit, 10] + s)[2..] == s;
  }

  lemma KeyReadsBack(key: Key, rest: seq<Word16>)
    ensures DropLineFeeds(EchoKey(key) + rest) == CodeOf(key) + DropLineFeeds(rest)
    ensures |EchoKey(key)| == |CodeOf(key)| + if key.low == 13 then 1 else 0
  {
    var unit := 256 * key.high + key.low;
    if unit == 0 {
      assert [] + rest == rest;
    } else {
      assert unit % 256 == key.low;
      DropStep(unit, rest);
    }
  }

  /** The text typed determines the codes, and has one line feed more for each key with the low byte 13. */
  lemma {:induction false} TypedReadsBack(keys: seq<Key>)
    ensures DropLineFeeds(Typed(keys)) == Codes(keys)
    ensures |Typed(keys)| == |Codes(keys)| + ReturnKeys(keys)
  {
    if keys != [] {
      TypedFront(keys);
      TypedReadsBack(keys[1..]);
      KeyReadsBack(keys[0], Typed(keys[1..]));
    }
  }

  /**
   * What a read shows for its first `n` keys tells their codes, all 16 bits of each, but for a backspace typed first;
   * it has one line feed more for each key whose low byte is that of a carriage return.
   */
  lemma EchoReadsBack(keys: seq<Key>, n: nat)
    requires n <= |keys|
    ensures var shown := keys[if n > 0 && keys[0].low == 8 then 1 else 0..n];
            && DropLineFeeds(Echo(keys, n)) == Codes(shown)
            && |Echo(keys, n)| == |Codes(shown)| + ReturnKeys(shown)
  {
    if n > 0 {
      EchoIsTyped(keys, n);
      TypedReadsBack(keys[Start(keys)..n]);
    }
  }

  lemma {:induction false} WrittenIsNarrow(bytes: seq<Byte>)
    ensures forall p :: 0 <= p < |Encode(bytes)| ==> Encode(bytes)[p] < 0x100
  {
    if bytes != [] {
      WrittenIsNarrow(bytes[..|bytes| - 1]);
    }
  }

  lemma StoredGrows(keys: seq<Key>)
    requires keys != []
    ensures var last := |keys| - 1;
            Encode(StoredBytes(keys)) == Encode(StoredBytes(keys[..last])) + EncodeByte(StoredByte(keys[last]))
  {
    assert StoredBytes(keys)[..|keys| - 1] == StoredBytes(keys[..|keys| - 1]);
  }

  lemma PlainEcho(key: Key)
    requires Plain(key)
    ensures EchoKey(key) == EncodeByte(StoredByte(key))
  {
    if key.low == NUL {
      assert EchoKey(key) == [];
      assert EncodeByte(StoredByte(key)) == [];
    } else if key.low == CR {
      assert EchoKey(key) == [CR, LF];
      assert EncodeByte(StoredByte(key)) == [CR, LF];
    } else {
      assert EchoKey(key) == [key.low];
      assert EncodeByte(StoredByte(key)) == [key.low];
    }
  }

  /** Plain keys show what a write of their bytes shows. */
  lemma {:induction false} PlainText(keys: seq<Key>)
    requires forall i :: 0 <= i < |keys| ==> Plain(keys[i])
    ensures Typed(keys) == Encode(StoredBytes(keys))
  {
    if keys != [] {
      PlainText(keys[..|keys| - 1]);
      StoredGrows(keys);
      PlainEcho(keys[|keys| - 1]);
    }
  }

  lemma NarrowKey(key: Key)
    requires key.high == 0
    ensures if Plain(key) then |EchoKey(key)| == |EncodeByte(StoredByte(key))|
            else |EchoKey(key)| < |EncodeByte(StoredByte(key))|
  {
    if Plain(key) {
      PlainEcho(key);
    }
  }

  /** Keys below 256 show no more than a write of their bytes, and less when a line feed is among them. */
  lemma {:induction false} NarrowText(keys: seq<Key>)
    requires forall i :: 0 <= i < |keys| ==> keys[i].high == 0
    ensures |Typed(keys)| <= |Encode(StoredBytes(keys))|
    ensures (exists i :: 0 <= i < |keys| && !Plain(keys[i])) ==> |Typed(keys)| < |Encode(StoredBytes(keys))|
  {
    if keys != [] {
      var last := |keys| - 1;
      NarrowText(keys[..last]);
      StoredGrows(keys);
      NarrowKey(keys[last]);
      if i :| 0 <= i < last && !Plain(keys[i]) {
        assert !Plain(keys[..last][i]);
      }
    }
  }

  /** A key from 256 on shows a character that no write shows. */
  lemma {:induction false} WideText(keys: seq<Key>, i: nat) returns (p: nat)
    requires i < |keys| && keys[i].high != 0
    ensures p < |Typed(keys)| && Typed(keys)[p] >= 0x100
  {
    var last := |keys| - 1;
    if i < last {
      p := WideText(keys[..last], i);
    } else {
      p := |Typed(keys[..last])|;
      assert EchoKey(keys[last])[0] == keys[last].Code();
    }
  }

  /** The text of keys is what a write of some bytes and then of theirs shows, when the bytes show nothing. */
  lemma TextIsWrite(keys: seq<Key>, c: seq<Byte>)
    ensures Typed(keys) == Encode(c) + Encode(StoredBytes(keys))
       <==> Encode(c) == [] && forall i :: 0 <= i < |keys| ==> Plain(keys[i])
  {
    if i :| 0 <= i < |keys| && keys[i].high != 0 {
      var p := WideText(keys, i);
      WrittenIsNarrow(c);
      WrittenIsNarrow(StoredBytes(keys));
    } else {
      NarrowText(keys);
      if forall i :: 0 <= i < |keys| ==> Plain(keys[i]) {
        PlainText(keys);
      }
    }
  }

  /** The bytes of a buffer that a read has filled from its front. */
  lemma FilledFront(before: seq<Byte>, keys: seq<Key>, n: nat)
    requires n <= |keys| && Start(keys) <= n <= |before|
    ensures Filled(before, keys, n)[..n] == before[..Start(keys)] + StoredBytes(keys[Start(keys)..n])
  {
    FilledCells(before, keys, n);
  }

  /**
   * The text echoed by a read is the text a write of the cells it went over shows, exactly when every key is an
   * 8-bit character other than LF, but for a backspace typed first: the cell that one skips must hold a NUL.
   */
  lemma {:induction false} EchoIsWriteOfCells(before: seq<Byte>, keys: seq<Key>, n: nat)
    requires n <= |keys| && n <= |before|
    ensures Echo(keys, n) == Encode(Filled(before, keys, n)[..n]) <==> WellShown(before, keys, n)
  {
    var s := Start(keys);
    if s <= n {
      var shown, skipped := keys[s..n], before[..s];
      assert Echo(keys, n) == Typed(shown) by { EchoIsTyped(keys, n); }
      assert Encode(Filled(before, keys, n)[..n]) == Encode(skipped) + Encode(StoredBytes(shown)) by {
        FilledFront(before, keys, n);
        EncodeJoins(skipped, StoredBytes(shown));
      }
      TextIsWrite(shown, skipped);
      SkippedText(before, s);
      WellShownSplits(before, keys, n);
    }
  }

  /** Every key is an 8-bit character other than LF, or a backspace typed first over a cell that holds a NUL. */
  predicate WellShown(before: seq<Byte>, keys: seq<Key>, n: nat)
    requires n <= |keys| && n <= |before|
  {
    forall i :: 0 <= i < n ==> if Swallowed(keys, i) then before[0] == NUL else Plain(keys[i])
  }

  lemma WellShownSplits(before: seq<Byte>, keys: seq<Key>, n: nat)
    requires Start(keys) <= n <= |keys| && n <= |before|
    ensures var s := Start(keys);
            WellShown(before, keys, n)
            <==> (s == 0 || before[0] == NUL) && forall i :: 0 <= i < n - s ==> Plain(keys[s..n][i])
  {
    var s := Start(keys);
    assert forall i :: s <= i < n ==> keys[i] == keys[s..n][i - s];
  }

  lemma SkippedText(before: seq<Byte>, s: nat)
    requires s <= 1 && s <= |before|
    ensures Encode(before[..s]) == [] <==> s == 0 || before[0] == NUL
  {
    if s == 1 {
      assert Encode(before[..s]) == Encode(before[..s][..0]) + EncodeByte(before[0]);
    }
  }

  /** Without a backspace in front, the cells hold the bytes of the keys. */
  lemma EchoIsWrite(keys: seq<Key>, n: nat)
    requires n <= |keys|
    requires keys == [] || !IsBackspace(keys[0])
    ensures Echo(keys, n) == Encode(StoredBytes(keys[..n])) <==> forall i :: 0 <= i < n ==> Plain(keys[i])
  {
    var before := StoredBytes(keys);
    EchoIsWriteOfCells(before, keys, n);
    FilledFront(before, keys, n);
    assert before[..0] + StoredBytes(keys[0..n]) == StoredBytes(keys[..n]);
  }

  /** Without a backspace in front, the buffer holds the translated keys and then what it held before. */
  lemma FilledIsStored(before: seq<Byte>, keys: seq<Key>, n: nat)
    requires n <= |keys| && n <= |before|
    requires n > 0 ==> !IsBackspace(keys[0])
    ensures Filled(before, keys, n) == StoredBytes(keys[..n]) + before[n..]
  {
    FilledCells(before, keys, n);
  }

  /** A read of `a + b` bytes takes the keys of a read of `a` bytes and, if no line ended, of another of `b`. */
  lemma ReadSplits(keys: seq<Key>, a: nat, b: nat)
    ensures var n := Taken(keys, a);
            Taken(keys, a + b) == if Stopped(keys, a) then n else n + Taken(keys[n..], b)
  {
    var n := Taken(keys, a);
    if Stopped(keys, a) {
      TakenIs(keys, a + b, n);
    } else {
      SecondTaken(keys, a, b, n, keys[n..]);
    }
  }

  /** Where the first part of a read stops without a line end, the second takes over. */
  lemma SecondTaken(keys: seq<Key>, a: nat, b: nat, n: nat, rest: seq<Key>)
    requires n == Taken(keys, a) && !Stopped(keys, a) && rest == keys[n..]
    ensures Taken(keys, a + b) == n + Taken(rest, b)
  {
    var m := Taken(rest, b);
    assert forall i :: n <= i < n + m ==> keys[i] == rest[i - n];
    TakenIs(keys, a + b, n + m);
  }

  lemma BackspaceShows(keys: seq<Key>)
    requires keys != [] && IsBackspace(keys[0])
    ensures |Typed(keys)| > |Typed(keys[1..])|
  {
    var first := keys[..1];
    assert first[..0] == [];
    assert first[0].Code() > 0;
    assert Typed(first) == Typed(first[..0]) + EchoKey(first[0]);
    assert keys == first + keys[1..];
    TypedJoins(first, keys[1..]);
  }

  /** Cutting a read in two shows the same text unless the second part starts with a backspace. */
  lemma EchoSplits(keys: seq<Key>, n: nat, m: nat)
    requires 0 < n && 0 < m && n + m <= |keys|
    ensures Echo(keys, n + m) == Echo(keys, n) + Echo(keys[n..], m) <==> !IsBackspace(keys[n])
  {
    var first, rest, second := Echo(keys, n), Echo(keys[n..], m), Typed(keys[n..n + m]);
    assert Echo(keys, n + m) == first + second by { EchoExtends(keys, n, m); }
    SecondText(keys, n, m);
    if IsBackspace(keys[n]) {
      assert |first + rest| < |first + second|;
    }
  }

  lemma SliceJoins(keys: seq<Key>, i: nat, j: nat, k: nat)
    requires i <= j <= k <= |keys|
    ensures keys[i..k] == keys[i..j] + keys[j..k]
  {
  }

  lemma EchoOfWhole(keys: seq<Key>, n: nat, k: nat)
    requires 0 < n <= k <= |keys|
    ensures Echo(keys, k) == Typed(keys[Start(keys)..n] + keys[n..k])
  {
    SliceJoins(keys, Start(keys), n, k);
    EchoIsTyped(keys, k);
  }

  lemma EchoExtends(keys: seq<Key>, n: nat, m: nat)
    requires 0 < n && n + m <= |keys|
    ensures Echo(keys, n + m) == Echo(keys, n) + Typed(keys[n..n + m])
  {
    EchoOfWhole(keys, n, n + m);
    EchoIsTyped(keys, n);
    TypedJoins(keys[Start(keys)..n], keys[n..n + m]);
  }

  lemma SliceOfRest(keys: seq<Key>, n: nat, i: nat, m: nat)
    requires i <= m && n + m <= |keys|
    ensures keys[n..][i..m] == keys[n..n + m][i..]
  {
    assert |keys[n..][i..m]| == |keys[n..n + m][i..]|;
  }

  lemma SecondText(keys: seq<Key>, n: nat, m: nat)
    requires 0 < m && n + m <= |keys|
    ensures !IsBackspace(keys[n]) ==> Echo(keys[n..], m) == Typed(keys[n..n + m])
    ensures IsBackspace(keys[n]) ==> |Echo(keys[n..], m)| < |Typed(keys[n..n + m])|
  {
    var rest, second := keys[n..], keys[n..n + m];
    if IsBackspace(keys[n]) {
      BackspaceShows(second);
      SliceOfRest(keys, n, 1, m);
    } else {
      SliceOfRest(keys, n, 0, m);
    }
    EchoIsTyped(rest, m);
  }
}
