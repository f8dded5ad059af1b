/** Which unfinished byte sequences the decoder never recovers from, and which bytes halt it
    (src/ps2_keyboard.cpp:17-129, 225-235). */
module KeyboardSilence {
  import opened Words
  import opened Keyboard

  /** SCAN_CODE after the bytes of `h`, were it unbounded. */
  function Value(h: seq<Byte>): nat {
    if h == [] then 0 else Value(h[..|h| - 1]) * 256 + h[|h| - 1]
  }

  function Pow256(n: nat): (r: nat)
    ensures r >= 1
  {
    if n == 0 then 1 else 256 * Pow256(n - 1)
  }

  /** The bytes that a uint64_t still holds. */
  function Window(h: seq<Byte>): (w: seq<Byte>)
    ensures |w| <= 8
  {
    if |h| <= 8 then h else h[|h| - 8..]
  }

  /** No event and no halt so far: every byte of `h` is still waiting for its code to complete. */
  predicate Pending(h: seq<Byte>) { Decode(0, h).events == [] && !Decode(0, h).invalid }

  /** `h` is the beginning, and not the whole, of a listed code that the tables know. */
  ghost predicate BeginsCode(h: seq<Byte>) {
    exists e: Byte :: IsListed(e) && !IsMissing(e) && |h| < |Code(e)| && Code(e)[..|h|] == h
  }

  // ---------------------------------------------------------------- SCAN_CODE is the last eight bytes

  /** `x` shifted up by n bytes. */
  function Shifted(x: nat, n: nat): nat { if n == 0 then x else Shifted(x, n - 1) * 256 }

  lemma {:induction false} ValueFirst(w: seq<Byte>)
    requires w != []
    ensures Value(w) == Shifted(w[0], |w| - 1) + Value(w[1..])
  {
    var n := |w| - 1;
    if n > 0 {
      ValueFirst(w[..n]);
      assert w[1..][..n - 1] == w[..n][1..];
    }
  }

  lemma {:induction false} ValueBelow(w: seq<Byte>)
    ensures Value(w) < Pow256(|w|)
  {
    if w != [] {
      ValueBelow(w[..|w| - 1]);
    }
  }

  lemma {:induction false} WrapDrops(high: nat, x: nat)
    ensures Wrap64(high * TWO_64 + x) == Wrap64(x)
  {
    if high > 0 {
      WrapDrops(high - 1, x);
    }
  }

  lemma EightBytes()
    ensures Pow256(7) * 256 == TWO_64 && Pow256(5) == 0x100_0000_0000 && Pow256(6) == 0x1_0000_0000_0000
  {
    assert Pow256(3) == 0x100_0000;
    assert Pow256(5) == 0x100_0000_0000;
    assert Pow256(7) == 0x100_0000_0000_0000;
  }

  lemma TopByte(x: nat)
    ensures Shifted(x, 7) * 256 == x * TWO_64
  {
    assert Shifted(x, 0) == x && Shifted(x, 1) == x * 256;
    assert Shifted(x, 2) == x * 0x1_0000;
    assert Shifted(x, 4) == Shifted(x, 2) * 0x1_0000;
    assert Shifted(x, 6) == Shifted(x, 4) * 0x1_0000;
  }

  lemma ValueSnoc(h: seq<Byte>, b: Byte)
    ensures Value(h + [b]) == Value(h) * 256 + b
  {
    assert (h + [b])[..|h|] == h;
  }

  /** Shifting one more byte into SCAN_CODE keeps the last eight. */
  lemma ShiftIn(w: seq<Byte>, b: Byte)
    requires |w| <= 8
    ensures Wrap64(Value(w) * 256 + b) == Value(Window(w + [b]))
  {
    if |w| == 8 {
      ShiftOut(w, b);
    } else {
      ShiftShort(w, b);
    }
  }

  lemma ShiftShort(w: seq<Byte>, b: Byte)
    requires |w| < 8
    ensures Wrap64(Value(w) * 256 + b) == Value(Window(w + [b]))
  {
    ValueSnoc(w, b);
    ShortValue(w + [b]);
    SmallWraps(Value(w + [b]));
  }

  lemma SmallWraps(x: nat)
    requires x < TWO_64
    ensures Wrap64(x) == x
  {
  }

  lemma ShiftOut(w: seq<Byte>, b: Byte)
    requires |w| == 8
    ensures Wrap64(Value(w) * 256 + b) == Value(Window(w + [b]))
  {
    var low := w[1..] + [b];
    assert Window(w + [b]) == low;
    ValueFirst(w);
    TopByte(w[0]);
    ValueSnoc(w[1..], b);
    ShortValue(low);
    WrapDrops(w[0], Value(low));
  }

  lemma ShortValue(w: seq<Byte>)
    requires |w| <= 8
    ensures Value(w) < TWO_64
  {
    EightBytes();
    ValueBelow(w);
    PowMonotone(|w|, 8);
  }

  lemma {:induction false} PowMonotone(m: nat, n: nat)
    requires m <= n
    ensures Pow256(m) <= Pow256(n)
  {
    if m < n {
      PowMonotone(m, n - 1);
    }
  }

  lemma {:induction false} PendingValue(h: seq<Byte>)
    requires Pending(h)
    ensures Decode(0, h).scanCode == Value(Window(h))
    ensures h != [] ==> Pending(h[..|h| - 1])
  {
    if h != [] {
      var n := |h| - 1;
      var past, b := h[..n], h[n];
      assert h == past + [b];
      DecodeSnoc(0, past, b);
      PendingValue(past);
      ShiftIn(Window(past), b);
      assert Window(Window(past) + [b]) == Window(h);
    }
  }

  // ---------------------------------------------------------------- only beginnings of codes complete

  lemma {:induction false} LeadingByte(w: seq<Byte>)
    requires w != [] && w[0] != 0
    ensures Value(w) >= Pow256(|w| - 1)
  {
    if |w| > 1 {
      LeadingByte(w[..|w| - 1]);
    }
  }

  lemma LongNeverCompletes(w: seq<Byte>)
    requires |w| >= 7 && w[0] != 0
    ensures !IsComplete(Value(w))
  {
    LeadingByte(w);
    PowMonotone(6, |w| - 1);
    EightBytes();
  }

  /** A value without leading zero has one spelling. */
  lemma {:induction false} SpellingUnique(a: seq<Byte>, b: seq<Byte>)
    requires a != [] ==> a[0] != 0
    requires b != [] ==> b[0] != 0
    requires Value(a) == Value(b)
    ensures a == b
  {
    if a == [] || b == [] {
      if a != [] { LeadingByte(a); }
      if b != [] { LeadingByte(b); }
    } else {
      SpellingUnique(a[..|a| - 1], b[..|b| - 1]);
      assert a == a[..|a| - 1] + [a[|a| - 1]];
      assert b == b[..|b| - 1] + [b[|b| - 1]];
    }
  }

  lemma CodeValue(e: Byte)
    requires e >= 0xfd
    ensures Value(Code(e)) == if e == 0xfd then 0xe02a_e037 else if e == 0xfe then 0xe0b7_e0aa else 0xe11d_45e1_9dc5
  {
    ValueSnoc([], Code(e)[0]);
    ValueSnoc(Code(e)[..1], Code(e)[1]);
    ValueSnoc(Code(e)[..2], Code(e)[2]);
    ValueSnoc(Code(e)[..3], Code(e)[3]);
    assert Code(e)[..1] == [] + [Code(e)[0]] && Code(e)[..2] == Code(e)[..1] + [Code(e)[1]];
    assert Code(e)[..3] == Code(e)[..2] + [Code(e)[2]] && Code(e)[..4] == Code(e)[..3] + [Code(e)[3]];
    if e == 0xff {
      ValueSnoc(Code(e)[..4], Code(e)[4]);
      ValueSnoc(Code(e)[..5], Code(e)[5]);
      assert Code(e)[..5] == Code(e)[..4] + [Code(e)[4]] && Code(e) == Code(e)[..5] + [Code(e)[5]];
    } else {
      assert Code(e) == Code(e)[..4];
    }
  }

  lemma TwoBytes(h: seq<Byte>)
    requires |h| > 1 && h[0] != 0
    ensures Value(h) >= 256
  {
    LeadingByte(h);
    PowMonotone(1, |h| - 1);
  }

  lemma OneOrTwo(h: seq<Byte>, b: Byte)
    requires 0 !in h && Value(h + [b]) <= 0xffff
    ensures |h| <= 1 && (Value(h + [b]) <= 0xff ==> h == [])
    ensures h != [] ==> h[0] == Value(h + [b]) / 256
  {
    ValueSnoc(h, b);
    if h != [] {
      assert h[0] in h;
      LeadingByte(h);
      if |h| > 1 {
        TwoBytes(h);
      } else {
        ValueSnoc([], h[0]);
        assert h == [] + [h[0]];
      }
    }
  }

  /** Without zero bytes, only the beginning of a listed code is completed by one more byte. */
  lemma CompleteBegins(h: seq<Byte>, b: Byte)
    requires 0 !in h && b != 0 && IsComplete(Value(h + [b]))
    ensures BeginsCode(h)
  {
    var w := h + [b];
    if Value(w) <= 0xffff {
      OneOrTwo(h, b);
      if h == [] {
        assert IsListed(1) && Code(1)[..0] == h;
      } else {
        assert h == [0xe0];
        assert IsListed(0xfd) && Code(0xfd)[..1] == h;
      }
    } else {
      var e: Byte := if Value(w) == 0xe02a_e037 then 0xfd else if Value(w) == 0xe0b7_e0aa then 0xfe else 0xff;
      CodeValue(e);
      assert h != [] ==> h[0] in h;
      SpellingUnique(w, Code(e));
      assert IsListed(e) && Code(e)[..|h|] == h;
    }
  }

  lemma NoCompletion(h: seq<Byte>, b: Byte)
    requires 0 !in h && b != 0 && !BeginsCode(h)
    ensures !IsComplete(Value(Window(h + [b])))
  {
    var next := Window(h + [b]);
    if |h| <= 7 {
      if IsComplete(Value(next)) {
        CompleteBegins(h, b);
      }
    } else {
      assert next[0] == h[|h| - 7] && h[|h| - 7] in h;
      LongNeverCompletes(next);
    }
  }

  lemma BeginsBefore(h: seq<Byte>, b: Byte)
    requires BeginsCode(h + [b])
    ensures BeginsCode(h)
  {
    var e: Byte :| IsListed(e) && !IsMissing(e) && |h + [b]| < |Code(e)| && Code(e)[..|h + [b]|] == h + [b];
    assert Code(e)[..|h|] == Code(e)[..|h| + 1][..|h|] == h;
  }

  lemma PendingStep(h: seq<Byte>, b: Byte)
    requires Pending(h) && 0 !in h && b != 0 && !BeginsCode(h)
    ensures Pending(h + [b]) && !BeginsCode(h + [b])
  {
    NoCompletion(h, b);
    PendingNext(h, b);
    if BeginsCode(h + [b]) {
      BeginsBefore(h, b);
    }
  }

  lemma PendingNext(h: seq<Byte>, b: Byte)
    requires Pending(h) && !IsComplete(Value(Window(h + [b])))
    ensures Pending(h + [b])
  {
    PendingValue(h);
    DecodeSnoc(0, h, b);
    ShiftIn(Window(h), b);
    assert Window(Window(h) + [b]) == Window(h + [b]);
  }

  lemma {:induction false} StaysSilent(h: seq<Byte>, rest: seq<Byte>)
    requires Pending(h) && 0 !in h && 0 !in rest && !BeginsCode(h)
    ensures Pending(h + rest)
    decreases |rest|
  {
    if rest == [] {
      assert h + rest == h;
    } else {
      assert rest[0] in rest;
      PendingStep(h, rest[0]);
      StaysSilent(h + [rest[0]], rest[1..]);
      assert h + [rest[0]] + rest[1..] == h + rest;
    }
  }

  lemma CodeHasNoZero(e: Byte)
    requires IsListed(e)
    ensures 0 !in Code(e)
  {
  }

  /** While the keyboard sends no zero byte: the decoder never yields an event again, nor halts, exactly
      when the bytes it is waiting on have stopped being the beginning of a code it knows. */
  lemma SilentForeverIff(h: seq<Byte>)
    requires Pending(h) && 0 !in h
    ensures (forall rest: seq<Byte> :: 0 !in rest ==> Pending(h + rest)) <==> !BeginsCode(h)
  {
    if BeginsCode(h) {
      var e: Byte :| IsListed(e) && !IsMissing(e) && |h| < |Code(e)| && Code(e)[..|h|] == h;
      var rest := Code(e)[|h|..];
      assert h + rest == Code(e) && Code(e) + [] == Code(e);
      CodeHasNoZero(e);
      DecodeOne(e, []);
      assert 0 !in rest && !Pending(h + rest);
    } else {
      forall rest: seq<Byte> | 0 !in rest ensures Pending(h + rest) {
        StaysSilent(h, rest);
      }
    }
  }

  /** One 0xFA, a keyboard's acknowledgement, silences the decoder: no later key is ever seen. */
  lemma AcknowledgeSilences(rest: seq<Byte>)
    requires 0 !in rest
    ensures Decode(0, [0xfa] + rest).events == [] && !Decode(0, [0xfa] + rest).invalid
  {
    var h: seq<Byte> := [0xfa];
    assert h[1..] == [];
    assert Pending(h);
    NoCodeBeginsSo();
    StaysSilent(h, rest);
  }

  lemma NoCodeBeginsSo()
    ensures !BeginsCode([0xfa])
  {
    forall e: Byte | IsListed(e) && |Code(e)| > 1 ensures Code(e)[..1] != [0xfa] {
      LongCode(e);
    }
  }

  lemma LongCode(e: Byte)
    requires |Code(e)| > 1
    ensures Code(e)[0] == 0xe0 || Code(e)[0] == 0xe1
  {
  }

  // ---------------------------------------------------------------- which bytes halt the decoder

  /** The second bytes that the tables turn into events of their range. */
  predicate Converts(low: Byte) { if low <= 0x9c then low in PART1[..40] else low in PART2[..36] }

  const TWO_56 := 0x100_0000_0000_0000

  /** `b` completes E0 `b`, which has no event; only the last seven bytes of SCAN_CODE are kept. */
  predicate Halts(scanCode: nat, b: Byte) {
    scanCode % TWO_56 == 0xe0 && b != 0x2a && b != 0xb7 && !Converts(b)
  }

  lemma TableMisses(base: Byte, count: nat, table: seq<Byte>, data: Byte)
    requires 1 <= base && 1 <= count <= |table| && base + |table| <= 256
    ensures TableEvent(base, base + count - 1, FirstIndex(table, data)).None? <==> data !in table[..count]
  {
    var k := FirstIndex(table, data);
    assert k >= 0 ==> table[k] == data && data !in table[..k];
  }

  lemma LookupMisses(low: Byte)
    ensures TableLookup(low).None? <==> !Converts(low)
  {
    if low <= 0x9c {
      Part1Misses(low);
    } else {
      Part2Misses(low);
    }
  }

  lemma Part1Misses(low: Byte)
    ensures TableEvent(0x59, 0x80, FirstIndex(PART1, low)).None? <==> low !in PART1[..40]
  {
    TableMisses(0x59, 40, PART1, low);
  }

  lemma Part2Misses(low: Byte)
    ensures TableEvent(0xd9, 0xfc, FirstIndex(PART2, low)).None? <==> low !in PART2[..36]
  {
    TableMisses(0xd9, 36, PART2, low);
  }

  lemma SevenBytes(c: nat, b: Byte)
    ensures Wrap64(c * 256 + b) == c % TWO_56 * 256 + b
  {
    var q, r := c / TWO_56, c % TWO_56;
    assert c * 256 + b == q * TWO_64 + (r * 256 + b);
    WrapDrops(q, r * 256 + b);
    SmallWraps(r * 256 + b);
  }

  /** The fatal codes are the complete two-byte ones whose second byte the tables miss. */
  lemma FatalCode(r: nat, b: Byte, code: nat)
    requires code == r * 256 + b
    ensures IsComplete(code) && ToEventId(code).None?
            <==> r == 0xe0 && b != 0x2a && b != 0xb7 && TableLookup(b).None?
  {
    if r == 0xe0 && b != 0x2a && b != 0xb7 {
      ExtendedCode(b);
    } else if r != 0 && r <= 0xff {
      assert code / 256 == r && code % 256 == b;
    }
  }

  lemma FeedCode(c: nat, b: Byte, code: nat)
    requires code == Wrap64(c * 256 + b)
    ensures FeedByte(c, b).Invalid? <==> IsComplete(code) && ToEventId(code).None?
    ensures FeedByte(c, b).Event? <==> IsComplete(code) && ToEventId(code).Some?
    ensures FeedByte(c, b).Partial? ==> FeedByte(c, b).code == code
  {
  }

  lemma FeedFatalIff(c: nat, b: Byte)
    ensures FeedByte(c, b).Invalid? <==> Halts(c, b)
  {
    SevenBytes(c, b);
    LookupMisses(b);
    FeedFatal(c, b, c % TWO_56, Wrap64(c * 256 + b));
  }

  lemma FeedFatal(c: nat, b: Byte, r: nat, code: nat)
    requires code == Wrap64(c * 256 + b) == r * 256 + b
    ensures FeedByte(c, b).Invalid? <==> r == 0xe0 && b != 0x2a && b != 0xb7 && TableLookup(b).None?
  {
    FeedCode(c, b, code);
    FatalCode(r, b, code);
  }

  /** On any byte stream, from any state: the decoder halts exactly when some byte completes E0 xx with xx
      in neither table's range. */
  lemma {:induction false} StreamFatalIff(c: nat, bytes: seq<Byte>)
    ensures Decode(c, bytes).invalid
            <==> exists i :: 0 <= i < |bytes| && !Decode(c, bytes[..i]).invalid
                             && Halts(Decode(c, bytes[..i]).scanCode, bytes[i])
    decreases |bytes|
  {
    if bytes != [] {
      var n := |bytes| - 1;
      var past := bytes[..n];
      assert bytes == past + [bytes[n]];
      StreamFatalIff(c, past);
      DecodeSnoc(c, past, bytes[n]);
      FeedFatalIff(Decode(c, past).scanCode, bytes[n]);
      forall i | 0 <= i < n ensures past[..i] == bytes[..i] {
      }
      assert Decode(c, past).invalid ==> exists i :: 0 <= i < n && !Decode(c, past[..i]).invalid
                                                     && Halts(Decode(c, past[..i]).scanCode, past[i]);
    }
  }
}
