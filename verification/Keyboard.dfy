/** The PS/2 set-1 scan-code decoder (src/ps2_keyboard.cpp, src/keyevent_table.cpp). */
module Keyboard {
  import opened Words
  import opened Seqs

  const TWO_64 := 0x1_0000_0000_0000_0000

  // ---------------------------------------------------------------- the decoder

  predicate IsSingleByteCode(code: nat) {
    0x01 <= code <= 0x53 || 0x57 <= code <= 0x58 || 0x81 <= code <= 0xd3 || 0xd7 <= code <= 0xd8
  }

  /** is_complete_scancode */
  predicate IsComplete(code: nat) {
    if code <= 0xff then IsSingleByteCode(code)
    else if code <= 0xffff then code / 256 == 0xe0 && code % 256 != 0x2a && code % 256 != 0xb7
    else if code <= 0xffff_ffff then code == 0xe02a_e037 || code == 0xe0b7_e0aa
    else code == 0xe11d_45e1_9dc5
  }

  const PART1: seq<Byte> := [
    0x10, 0x19, 0x1C, 0x1D, 0x20, 0x21, 0x22, 0x24, 0x2E, 0x30,
    0x32, 0x35, 0x38, 0x47, 0x48, 0x49, 0x4B, 0x4D, 0x4F, 0x50,
    0x51, 0x52, 0x53, 0x5B, 0x5C, 0x5D, 0x5E, 0x5F, 0x63, 0x65,
    0x66, 0x67, 0x68, 0x69, 0x6A, 0x6B, 0x6C, 0x6D, 0x90, 0x99]

  /** The 0xE0 before the last entry is the source's own. */
  const PART2: seq<Byte> := [
    0x9c, 0x9D, 0xA0, 0xA1, 0xA2, 0xA4, 0xAE, 0xB0,
    0xB2, 0xB5, 0xB8, 0xC7, 0xC8, 0xC9, 0xCB, 0xCD,
    0xCF, 0xD0, 0xD1, 0xD2, 0xD3, 0xDB, 0xDC, 0xDD,
    0xDE, 0xDF, 0xE3, 0xE5, 0xE6, 0xE7, 0xE8, 0xE9,
    0xEA, 0xEB, 0xEC, 0xE0, 0xED]

  ghost predicate IsFirstIndex(table: seq<Byte>, data: Byte, i: int) {
    if data in table then 0 <= i < |table| && table[i] == data && data !in table[..i] else i == -1
  }

  function FirstIndex(table: seq<Byte>, data: Byte): (i: int)
    ensures IsFirstIndex(table, data, i)
    decreases |table|, data    // with `data`, so that searches of the constant tables are not unrolled
  {
    if table == [] then -1
    else if table[0] == data then 0
    else
      var r := FirstIndex(table[1..], data);
      assert data in table <==> data in table[1..];
      assert r >= 0 ==> table[..r + 1] == [table[0]] + table[1..][..r];
      if r == -1 then -1 else r + 1
  }

  /** index_of */
  method IndexOf(table: seq<Byte>, data: Byte) returns (index: int)
    ensures index == FirstIndex(table, data)
  {
    var i := 0;
    while i < |table|
      invariant 0 <= i <= |table|
      invariant data !in table[..i]
    {
      if table[i] == data {
        return i;
      }
      i := i + 1;
    }
    return -1;
  }

  /** The event id is a uint8_t, range-checked after the table lookup. */
  function TableEvent(base: Byte, last: Byte, index: int): Option<Byte> {
    var event: int := (base as int + index) % 256;
    if base <= event <= last then Some(event) else None
  }

  /** to_event_id; `None` is the fatal branch. */
  function ToEventId(code: nat): Option<Byte> {
    if code <= 0xff then Some(code)
    else if code <= 0xffff then
      if code <= 0xe09c then TableEvent(0x59, 0x80, FirstIndex(PART1, code % 256))
      else TableEvent(0xd9, 0xfc, FirstIndex(PART2, code % 256))
    else if code == 0xe02a_e037 then Some(0xfd)
    else if code == 0xe0b7_e0aa then Some(0xfe)
    else if code == 0xe11d_45e1_9dc5 then Some(0xff)
    else None
  }

  /** SCAN_CODE is a uint64_t. */
  function Wrap64(code: nat): nat { if code < TWO_64 then code else Wrap64(code - TWO_64) }

  /** to_event_id with its table searches, as the handler runs it. */
  method ConvertCode(code: nat) returns (event: Option<Byte>)
    ensures event == ToEventId(code)
  {
    if code <= 0xff {
      return Some(code);
    } else if code <= 0xffff {
      var low := code % 256;
      if code <= 0xe09c {
        var index := IndexOf(PART1, low);
        var event: Byte := (0x59 + index) % 256;
        return if 0x59 <= event <= 0x80 then Some(event) else None;
      }
      var index := IndexOf(PART2, low);
      var event: Byte := (0xd9 + index) % 256;
      return if 0xd9 <= event <= 0xfc then Some(event) else None;
    } else if code <= 0xffff_ffff {
      if code == 0xe02a_e037 {
        return Some(0xfd);
      }
      if code == 0xe0b7_e0aa {
        return Some(0xfe);
      }
    } else if code == 0xe11d_45e1_9dc5 {
      return Some(0xff);
    }
    return None;
  }

  datatype Feed = Partial(code: nat) | Event(event: Byte) | Invalid

  /** One keyboard interrupt: shift the byte in; a complete code is converted and SCAN_CODE reset. */
  function FeedByte(scanCode: nat, data: Byte): Feed {
    var code := Wrap64(scanCode * 256 + data);
    if !IsComplete(code) then Partial(code)
    else match ToEventId(code)
      case Some(e) => Event(e)
      case None => Invalid
  }

  datatype Decoded = Decoded(scanCode: nat, events: seq<Byte>, invalid: bool)

  /** The decoder over a whole byte stream, stopping at the first fatal code. */
  function Decode(scanCode: nat, bytes: seq<Byte>): Decoded
    decreases |bytes|
  {
    if bytes == [] then Decoded(scanCode, [], false)
    else match FeedByte(scanCode, bytes[0])
      case Partial(code) => Decode(code, bytes[1..])
      case Event(e) =>
        var rest := Decode(0, bytes[1..]);
        rest.(events := [e] + rest.events)
      case Invalid => Decoded(scanCode, [], true)
  }

  /** Decoding one byte more. */
  lemma {:induction false} DecodeSnoc(c: nat, h: seq<Byte>, b: Byte)
    ensures var d, r := Decode(c, h), Decode(c, h + [b]);
            if d.invalid then r == d
            else match FeedByte(d.scanCode, b)
              case Partial(code) => r == Decoded(code, d.events, false)
              case Event(e) => r == Decoded(0, d.events + [e], false)
              case Invalid => r == Decoded(d.scanCode, d.events, true)
    decreases |h|
  {
    if h == [] {
      assert [b][1..] == [];
    } else {
      assert (h + [b])[1..] == h[1..] + [b];
      match FeedByte(c, h[0])
      case Partial(code) => DecodeSnoc(code, h[1..], b);
      case Event(e) => DecodeSnoc(0, h[1..], b);
      case Invalid =>
    }
  }

  // ---------------------------------------------------------------- reference: the code list

  /** Presses listed in sorted_scan_codes.txt under events 0x59 to 0x80. */
  const PRESSED: seq<Byte> := [
    0x10, 0x19, 0x1C, 0x1D, 0x20, 0x21, 0x22, 0x24, 0x2E, 0x30,
    0x32, 0x35, 0x38, 0x47, 0x48, 0x49, 0x4B, 0x4D, 0x4F, 0x50,
    0x51, 0x52, 0x53, 0x5B, 0x5C, 0x5D, 0x5E, 0x5F, 0x63, 0x65,
    0x66, 0x67, 0x68, 0x69, 0x6A, 0x6B, 0x6C, 0x6D, 0x90, 0x99]

  /** Releases listed there under events 0xD9 to 0xFC. */
  const RELEASED: seq<Byte> := [
    0x9c, 0x9D, 0xA0, 0xA1, 0xA2, 0xA4, 0xAE, 0xB0,
    0xB2, 0xB5, 0xB8, 0xC7, 0xC8, 0xC9, 0xCB, 0xCD,
    0xCF, 0xD0, 0xD1, 0xD2, 0xD3, 0xDB, 0xDC, 0xDD,
    0xDE, 0xDF, 0xE3, 0xE5, 0xE6, 0xE7, 0xE8, 0xE9,
    0xEA, 0xEB, 0xEC, 0xED]

  /** Events that have a line in the list; the other seven numbers are "invalid key" fillers. */
  predicate IsListed(e: Byte) {
    e != 0 && !(0x54 <= e <= 0x56) && !(0xd4 <= e <= 0xd6)
  }

  /** The bytes the keyboard sends for event `e`: line `e` of sorted_scan_codes.txt. */
  function Code(e: Byte): seq<Byte> {
    if 0x59 <= e <= 0x80 then [0xe0, PRESSED[e - 0x59]]
    else if 0xd9 <= e <= 0xfc then [0xe0, RELEASED[e - 0xd9]]
    else if e == 0xfd then [0xe0, 0x2a, 0xe0, 0x37]
    else if e == 0xfe then [0xe0, 0xb7, 0xe0, 0xaa]
    else if e == 0xff then [0xe1, 0x1d, 0x45, 0xe1, 0x9d, 0xc5]
    else [e]
  }

  function Codes(events: seq<Byte>): seq<Byte> {
    if events == [] then [] else Code(events[0]) + Codes(events[1..])
  }

  /** E0 9C and E0 ED: the two listed codes the source's tables miss. */
  predicate IsMissing(e: Byte) { e == 0xd9 || e == 0xfc }

  // ---------------------------------------------------------------- proofs

  predicate AscendingTo(s: seq<Byte>, n: nat)
    requires n <= |s|
  {
    forall i :: 0 <= i < n - 1 ==> s[i] < s[i + 1]
  }

  lemma {:induction false} AscendingOrder(s: seq<Byte>, n: nat, i: nat, j: nat)
    requires i < j < n <= |s| && AscendingTo(s, n)
    ensures s[i] < s[j]
  {
    if i + 1 < j {
      AscendingOrder(s, n, i, j - 1);
    }
  }

  /** In a table with an ascending prefix, every prefix entry is found at its own position. */
  lemma FirstIndexAt(table: seq<Byte>, n: nat, i: nat)
    requires i < n <= |table| && AscendingTo(table, n)
    ensures FirstIndex(table, table[i]) == i
  {
    var k := FirstIndex(table, table[i]);
    assert table[i] in table;
    if k < i {
      AscendingOrder(table, n, k, i);
    }
  }

  lemma TablesAscending()
    ensures AscendingTo(PART1, 40) && AscendingTo(PART2, 35)
  {
  }

  lemma Part1Index(i: nat)
    requires i < 40
    ensures FirstIndex(PART1, PART1[i]) == i
  {
    TablesAscending();
    FirstIndexAt(PART1, 40, i);
  }

  lemma Part1Range(i: nat)
    requires i < 40
    ensures PART1[i] <= 0x99 && PART1[i] != 0x2a && PART1[i] != 0xb7
  {
  }

  lemma Part2Index(i: nat)
    requires 0 < i < 35
    ensures FirstIndex(PART2, PART2[i]) == i
  {
    TablesAscending();
    FirstIndexAt(PART2, 35, i);
  }

  lemma Part2Range(i: nat)
    requires 0 < i < 35
    ensures 0x9d <= PART2[i] && PART2[i] != 0xb7
  {
  }

  lemma Part2IsReleased(i: nat)
    requires 0 < i < 35
    ensures PART2[i] == RELEASED[i]
  {
  }

  /** The two misses: 0x9c is looked up in the wrong table, 0xed sits one place too far. */
  lemma MissingIndices()
    ensures RELEASED[0] == 0x9c && 0x9c !in PART1
    ensures RELEASED[35] == 0xed && FirstIndex(PART2, 0xed) == 36
  {
    assert PART2[36] == 0xed;
    assert forall i :: 0 <= i < 36 ==> PART2[i] != 0xed;
    assert 0xed in PART2;
  }

  function TableLookup(low: Byte): Option<Byte> {
    if low <= 0x9c then TableEvent(0x59, 0x80, FirstIndex(PART1, low))
    else TableEvent(0xd9, 0xfc, FirstIndex(PART2, low))
  }

  /** E0 followed by `low`: the code is complete, and `low` picks the table. */
  lemma ExtendedCode(low: Byte)
    requires low != 0x2a && low != 0xb7
    ensures var code: int := 0xe000 + low as int;
            IsComplete(code)
            && ToEventId(code) == TableLookup(low)
  {
    var code: int := 0xe000 + low as int;
    assert code / 256 == 0xe0 && code % 256 == low;
  }

  /** Decoding E0 `low` from the idle state, given what the table lookup says of `low`. */
  lemma DecodeExtended(low: Byte, rest: seq<Byte>)
    requires low != 0x2a && low != 0xb7
    ensures var d, after := Decode(0, [0xe0, low] + rest), Decode(0, rest);
            match TableLookup(low)
            case Some(e) => d == after.(events := [e] + after.events)
            case None => d.invalid && d.events == []
  {
    var bytes := [0xe0, low] + rest;
    ExtendedCode(low);
    DecodePartial(0, bytes);
    assert bytes[1..][1..] == rest;
  }

  lemma TableEventHit(base: Byte, last: Byte, index: nat)
    requires base + index <= last
    ensures TableEvent(base, last, index) == Some(base + index)
  {
  }

  lemma LookupPressed(e: Byte, low: Byte)
    requires 0x59 <= e <= 0x80 && low == PART1[e - 0x59]
    ensures low != 0x2a && low != 0xb7 && TableLookup(low) == Some(e)
  {
    Part1Range(e - 0x59);
    Part1Index(e - 0x59);
    TableEventHit(0x59, 0x80, e - 0x59);
  }

  lemma LookupHigh(low: Byte, index: nat)
    requires 0x9c < low && FirstIndex(PART2, low) == index < 36
    ensures TableLookup(low) == Some(0xd9 + index)
  {
    TableEventHit(0xd9, 0xfc, index);
  }

  lemma LookupReleased(e: Byte, low: Byte)
    requires 0xd9 < e < 0xfc && low == PART2[e - 0xd9]
    ensures low != 0x2a && low != 0xb7 && TableLookup(low) == Some(e)
  {
    Part2Range(e - 0xd9);
    Part2Index(e - 0xd9);
    LookupHigh(low, e - 0xd9);
  }

  lemma LookupMissing(e: Byte, low: Byte)
    requires IsMissing(e) && low == RELEASED[e - 0xd9]
    ensures low != 0x2a && low != 0xb7 && TableLookup(low) == None
  {
    MissingIndices();
  }

  /** Feeding one listed code from the idle state consumes exactly its bytes. */
  lemma {:induction false} DecodeOne(e: Byte, rest: seq<Byte>)
    requires IsListed(e)
    ensures var d, after := Decode(0, Code(e) + rest), Decode(0, rest);
            if IsMissing(e) then d.invalid && d.events == []
            else d == after.(events := [e] + after.events)
  {
    if 0x59 <= e <= 0x80 || 0xd9 <= e <= 0xfc {
      var low := Code(e)[1];
      if e <= 0x80 {
        LookupPressed(e, low);
      } else if IsMissing(e) {
        LookupMissing(e, low);
      } else {
        Part2IsReleased(e - 0xd9);
        LookupReleased(e, low);
      }
      DecodeExtended(low, rest);
    } else if e == 0xfd || e == 0xfe {
      DecodePrintScreen(e, rest);
    } else if e == 0xff {
      DecodePause(rest);
    } else {
      assert ([e] + rest)[1..] == rest;
    }
  }

  lemma DecodePrintScreen(e: Byte, rest: seq<Byte>)
    requires e == 0xfd || e == 0xfe
    ensures Decode(0, Code(e) + rest) == Decode(0, rest).(events := [e] + Decode(0, rest).events)
  {
    var bytes := Code(e) + rest;
    DecodePartial(0, bytes);
    DecodePartial(0xe0, bytes[1..]);
    DecodePartial(if e == 0xfd then 0xe02a else 0xe0b7, bytes[2..]);
    assert bytes[3..][1..] == rest;
  }

  lemma DecodePause(rest: seq<Byte>)
    ensures Decode(0, Code(0xff) + rest) == Decode(0, rest).(events := [0xff] + Decode(0, rest).events)
  {
    var bytes := Code(0xff) + rest;
    DecodePartial(0, bytes);
    DecodePartial(0xe1, bytes[1..]);
    DecodePartial(0xe11d, bytes[2..]);
    DecodePartial(0xe11d45, bytes[3..]);
    DecodePartial(0xe11d45e1, bytes[4..]);
    assert bytes[5..][1..] == rest;
  }

  lemma DecodePartial(scanCode: nat, bytes: seq<Byte>)
    requires bytes != [] && scanCode * 256 + bytes[0] < TWO_64
    requires !IsComplete(scanCode * 256 + bytes[0])
    ensures Decode(scanCode, bytes) == Decode(scanCode * 256 + bytes[0], bytes[1..])
  {
  }

  /** The decoder inverts the code list: a stream of listed codes without E0 9C and E0 ED yields
      exactly its events, in order, and leaves SCAN_CODE at 0. */
  lemma {:induction false} DecodeInvertsCodes(events: seq<Byte>)
    requires forall e :: e in events ==> IsListed(e) && !IsMissing(e)
    ensures Decode(0, Codes(events)) == Decoded(0, events, false)
  {
    if events != [] {
      DecodeOne(events[0], Codes(events[1..]));
      DecodeInvertsCodes(events[1..]);
    }
  }

  /** ... and it reaches the fatal branch exactly when the stream holds one of the two. */
  lemma {:induction false} DecodeFatalIff(events: seq<Byte>)
    requires forall e :: e in events ==> IsListed(e)
    ensures Decode(0, Codes(events)).invalid <==> exists e :: e in events && IsMissing(e)
  {
    if events != [] {
      DecodeOne(events[0], Codes(events[1..]));
      DecodeFatalIff(events[1..]);
    }
  }

  /** Releasing keypad Enter (E0 9C) or the media select key (E0 ED) halts the decoder. */
  lemma MissingCodesHalt(e: Byte, bytes: seq<Byte>)
    requires IsMissing(e) && bytes == Code(e)
    ensures |bytes| == 2 && bytes[0] == 0xe0 && bytes[1] == if e == 0xd9 then 0x9c else 0xed
    ensures Decode(0, bytes).invalid
  {
    MissingCode(e);
    DecodeOne(e, []);
    assert bytes + [] == bytes;
  }

  lemma MissingCode(e: Byte)
    requires IsMissing(e)
    ensures |Code(e)| == 2 && Code(e)[0] == 0xe0 && Code(e)[1] == if e == 0xd9 then 0x9c else 0xed
  {
  }

  /** Listed codes are uniquely decodable: two different event sequences never send the same bytes,
      so no code is another's code, prefix or join. */
  lemma CodesUnique(a: seq<Byte>, b: seq<Byte>)
    requires forall e :: e in a ==> IsListed(e) && !IsMissing(e)
    requires forall e :: e in b ==> IsListed(e) && !IsMissing(e)
    requires Codes(a) == Codes(b)
    ensures a == b
  {
    DecodeInvertsCodes(a);
    DecodeInvertsCodes(b);
  }

  // ---------------------------------------------------------------- keys and characters

  datatype KeyEvent = KeyEvent(key: nat, pressed: bool)

  /** Keyevent_table, whose lines are runs of consecutive key ids. */
  function EventKey(e: Byte): (k: KeyEvent)
    ensures k.key < 256
  {
    if e <= 0x53 then KeyEvent(e, true)
    else if e <= 0x56 then KeyEvent(0, true)
    else if e <= 0x7e then KeyEvent(e - 3, true)
    else if e <= 0x80 then KeyEvent(e - 0x29, false)
    else if e <= 0xd3 then KeyEvent(e - 0x80, false)
    else if e <= 0xd6 then KeyEvent(0, true)
    else if e <= 0xd8 then KeyEvent(e - 0x83, false)
    else if e <= 0xfc then KeyEvent(e - 0x81, false)
    else if e == 0xfd then KeyEvent(0x7c, true)
    else if e == 0xfe then KeyEvent(0x7c, false)
    else KeyEvent(0x7d, true)
  }

  /** The event of the code that releases the key pressed by `e`. */
  function BreakOf(e: Byte): Byte
    requires IsMake(e)
  {
    if e <= 0x58 then e + 0x80 else if e <= 0x5a then e + 0x26 else e + 0x7e
  }

  /** Events sent by one- and two-byte codes that press a key. */
  predicate IsMake(e: Byte) { IsListed(e) && e <= 0x7e }

  /** Set 1 releases a key with the code that pressed it plus 0x80: the tables agree, so that code is
      decoded as the release of the same key. */
  lemma BreakCodeReleases(e: Byte)
    requires IsMake(e)
    ensures IsListed(BreakOf(e))
    ensures var n := |Code(e)| - 1;
            |Code(BreakOf(e))| == n + 1 && Code(BreakOf(e))[n] == Code(e)[n] + 0x80
            && (n == 1 ==> Code(BreakOf(e))[0] == Code(e)[0])
    ensures EventKey(e).pressed && EventKey(BreakOf(e)) == KeyEvent(EventKey(e).key, false)
  {
    if 0x5b <= e {
      BreakTable(e - 0x59);
    } else if 0x59 <= e {
      TrackCodes();
    }
  }

  lemma BreakTable(i: nat)
    requires 2 <= i < 38
    ensures RELEASED[i - 2] == PART1[i] + 0x80
  {
  }

  lemma TrackCodes()
    ensures PART1[38] == PART1[0] + 0x80 && PART1[39] == PART1[1] + 0x80
  {
  }

  const LEFT_SHIFT := 0x2a
  const RIGHT_SHIFT := 0x36

  /** is_valid_char */
  predicate IsValidChar(key: nat) {
    0x2 <= key <= 0xb || 0x10 <= key <= 0x19 || 0x1e <= key <= 0x26 || 0x2c <= key <= 0x32
  }

  /** First character of the key's name in Key_table, for the keys is_valid_char admits. */
  function KeyChar(key: nat): char
    requires IsValidChar(key)
  {
    if key <= 0xb then "1234567890"[key - 0x2]
    else if key <= 0x19 then "QWERTYUIOP"[key - 0x10]
    else if key <= 0x26 then "ASDFGHJKL"[key - 0x1e]
    else "ZXCVBNM"[key - 0x2c]
  }

  function ToLower(c: char): char {
    if 'A' <= c <= 'Z' then ((c as int) - ('A' as int) + ('a' as int)) as char else c
  }

  type KeyTable = s: seq<bool> | |s| == 256 witness seq(256, _ => false)

  predicate ShiftPressed(pressed: KeyTable) { pressed[LEFT_SHIFT] || pressed[RIGHT_SHIFT] }

  /** to_char */
  function ToChar(pressed: KeyTable, key: nat): char
    requires IsValidChar(key)
  {
    if ShiftPressed(pressed) then KeyChar(key) else ToLower(KeyChar(key))
  }

  function Press(pressed: KeyTable, e: Byte): KeyTable {
    pressed[EventKey(e).key := EventKey(e).pressed]
  }

  /** The character a key event contributes to a waiting `gets`, if any. */
  function Typed(pressed: KeyTable, e: Byte): Option<char> {
    var k := EventKey(e);
    if IsValidChar(k.key) && k.pressed then Some(ToChar(Press(pressed, e), k.key)) else None
  }

  function TypedAll(pressed: KeyTable, events: seq<Byte>): seq<char>
    decreases |events|
  {
    if events == [] then []
    else (match Typed(pressed, events[0]) case Some(c) => [c] case None => [])
         + TypedAll(Press(pressed, events[0]), events[1..])
  }

  // ---- the same text, read off the event history without the table

  /** A key is held after `events` when its latest event is a press. */
  ghost predicate Held(events: seq<Byte>, key: nat)
  {
    exists i {:trigger events[i]} :: 0 <= i < |events| && EventKey(events[i]) == KeyEvent(key, true)
      && forall j :: i < j < |events| ==> EventKey(events[j]).key != key
  }

  /** The layout: the two characters a key press types, without and with a shift key held. */
  function Layout(e: Byte): (keys: string)
    ensures |keys| == 0 || |keys| == 2
  {
    match e
    case 0x02 => "11"  case 0x03 => "22"  case 0x04 => "33"  case 0x05 => "44"
    case 0x06 => "55"  case 0x07 => "66"  case 0x08 => "77"  case 0x09 => "88"
    case 0x0a => "99"  case 0x0b => "00"
    case 0x10 => "qQ"  case 0x11 => "wW"  case 0x12 => "eE"  case 0x13 => "rR"
    case 0x14 => "tT"  case 0x15 => "yY"  case 0x16 => "uU"  case 0x17 => "iI"
    case 0x18 => "oO"  case 0x19 => "pP"
    case 0x1e => "aA"  case 0x1f => "sS"  case 0x20 => "dD"  case 0x21 => "fF"
    case 0x22 => "gG"  case 0x23 => "hH"  case 0x24 => "jJ"  case 0x25 => "kK"
    case 0x26 => "lL"
    case 0x2c => "zZ"  case 0x2d => "xX"  case 0x2e => "cC"  case 0x2f => "vV"
    case 0x30 => "bB"  case 0x31 => "nN"  case 0x32 => "mM"
    case _ => ""
  }

  /** Of the presses and releases of one key in a history, the latest is a press. */
  predicate Down(events: seq<Byte>, press: Byte, release: Byte) {
    events != []
    && (var n := |events| - 1;
        events[n] == press || (events[n] != release && Down(events[..n], press, release)))
  }

  /** The left or the right shift key is down. */
  predicate ShiftDown(events: seq<Byte>) { Down(events, 0x2a, 0xaa) || Down(events, 0x36, 0xb6) }

  /** The characters that `events[from..]` type, read off the layout and the history of the shift keys. */
  function TextOf(events: seq<Byte>, from: nat): seq<char>
    requires from <= |events|
    decreases |events| - from
  {
    if from == |events| then []
    else if Layout(events[from]) == "" then TextOf(events, from + 1)
    else [Layout(events[from])[if ShiftDown(events[..from]) then 1 else 0]] + TextOf(events, from + 1)
  }

  function NoKeys(): (table: KeyTable)
    ensures forall k :: 0 <= k < 256 ==> !table[k]
  {
    seq(256, _ => false)
  }

  function PressAll(pressed: KeyTable, events: seq<Byte>): KeyTable
    decreases |events|
  {
    if events == [] then pressed else PressAll(Press(pressed, events[0]), events[1..])
  }

  lemma {:induction false} PressAllSnoc(pressed: KeyTable, events: seq<Byte>, e: Byte)
    ensures PressAll(pressed, events + [e]) == Press(PressAll(pressed, events), e)
    decreases |events|
  {
    if events != [] {
      assert (events + [e])[1..] == events[1..] + [e];
      PressAllSnoc(Press(pressed, events[0]), events[1..], e);
    }
  }

  /** The key table is exactly the set of held keys. */
  lemma {:induction false} TableIsHeld(events: seq<Byte>, key: nat)
    requires key < 256
    ensures PressAll(NoKeys(), events)[key] <==> Held(events, key)
  {
    if events != [] {
      var n := |events| - 1;
      var past, e := events[..n], events[n];
      assert events == past + [e];
      TableIsHeld(past, key);
      PressAllSnoc(NoKeys(), past, e);
      if EventKey(e).key == key {
        if EventKey(e).pressed {
          assert EventKey(events[n]) == KeyEvent(key, true);
        }
      } else if Held(past, key) {
        var i :| 0 <= i < |past| && EventKey(past[i]) == KeyEvent(key, true)
          && forall j :: i < j < |past| ==> EventKey(past[j]).key != key;
        assert EventKey(events[i]) == KeyEvent(key, true);
      }
    }
  }

  /** The tables and the layout agree on every event. */
  lemma LayoutMatches(e: Byte)
    ensures var k := EventKey(e);
            && (IsValidChar(k.key) && k.pressed <==> Layout(e) != "")
            && (Layout(e) != "" ==> Layout(e)[0] == ToLower(KeyChar(k.key)) && Layout(e)[1] == KeyChar(k.key))
  {
  }

  lemma ShiftKeys(e: Byte)
    ensures EventKey(e).key == LEFT_SHIFT <==> e == 0x2a || e == 0xaa
    ensures EventKey(e).key == RIGHT_SHIFT <==> e == 0x36 || e == 0xb6
    ensures EventKey(0x2a).pressed && EventKey(0x36).pressed && !EventKey(0xaa).pressed && !EventKey(0xb6).pressed
  {
  }

  /** The key table holds the shift keys that are down. */
  lemma {:induction false} ShiftHeld(events: seq<Byte>)
    ensures PressAll(NoKeys(), events)[LEFT_SHIFT] <==> Down(events, 0x2a, 0xaa)
    ensures PressAll(NoKeys(), events)[RIGHT_SHIFT] <==> Down(events, 0x36, 0xb6)
  {
    if events != [] {
      var n := |events| - 1;
      assert events == events[..n] + [events[n]];
      ShiftHeld(events[..n]);
      PressAllSnoc(NoKeys(), events[..n], events[n]);
      ShiftKeys(events[n]);
    }
  }

  /** What one event types after a history. */
  lemma TypedIs(events: seq<Byte>, e: Byte)
    ensures Typed(PressAll(NoKeys(), events), e)
            == if Layout(e) == "" then None else Some(Layout(e)[if ShiftDown(events) then 1 else 0])
  {
    LayoutMatches(e);
    ShiftKeys(e);
    ShiftHeld(events);
  }

  lemma TypedFirst(pressed: KeyTable, e: Byte, rest: seq<Byte>)
    ensures TypedAll(pressed, [e] + rest)
            == (match Typed(pressed, e) case Some(c) => [c] case None => []) + TypedAll(Press(pressed, e), rest)
  {
    assert ([e] + rest)[1..] == rest;
  }

  /** What the decoder types is what the layout and the history say. */
  lemma {:induction false} TypedIsText(events: seq<Byte>, from: nat)
    requires from <= |events|
    ensures TypedAll(PressAll(NoKeys(), events[..from]), events[from..]) == TextOf(events, from)
    decreases |events| - from
  {
    if from < |events| {
      var past, e, rest := events[..from], events[from], events[from + 1..];
      TypedIsText(events, from + 1);
      assert events[from..] == [e] + rest && events[..from + 1] == past + [e];
      PressAllSnoc(NoKeys(), past, e);
      TypedFirst(PressAll(NoKeys(), past), e, rest);
      TypedIs(past, e);
    }
  }
}
