/** Long file names and directory lookup (locate_file_dirent in src/b32_filesystem.cpp) with strcmp
    (src/b32_string.cpp), against the Microsoft FAT32 File System Specification 1.03, section "FAT
    Long Directory Entries". */
module LongNames {
  import opened Words

  const NAME_SIZE := 257    // MAX_FILENAME_SIZE + 1
  const PER_ENTRY := 13

  type Entry = s: seq<Byte> | |s| == 32 witness seq(32, _ => 0)
  type Name = s: seq<Byte> | |s| == NAME_SIZE witness seq(NAME_SIZE, _ => 0)

  // ---------------------------------------------------------------- strcmp

  /** A `char` is signed. */
  function Signed(b: Byte): int { if b < 128 then b else b - 256 }

  /** A null byte ends one of the strings inside both arrays. */
  ghost predicate Ends(a: seq<Byte>, b: seq<Byte>, i: nat) {
    exists j :: i <= j < |a| && j < |b| && (a[j] == 0 || b[j] == 0)
  }

  function Compare(a: seq<Byte>, b: seq<Byte>, i: nat): (r: int)
    requires Ends(a, b, i)
    decreases |a| - i
  {
    if a[i] != 0 && b[i] != 0 then
      if a[i] == b[i] then Compare(a, b, i + 1)
      else if Signed(a[i]) < Signed(b[i]) then -1 else 1
    else if a[i] == 0 && b[i] == 0 then 0
    else if a[i] == 0 then -1
    else 1
  }

  method Strcmp(lhs: seq<Byte>, rhs: seq<Byte>) returns (r: int)
    requires Ends(lhs, rhs, 0)
    ensures r == Compare(lhs, rhs, 0)
  {
    var i := 0;
    while lhs[i] != 0 && rhs[i] != 0
      invariant Ends(lhs, rhs, i) && Compare(lhs, rhs, i) == Compare(lhs, rhs, 0)
      decreases |lhs| - i
    {
      if lhs[i] == rhs[i] {
        i := i + 1;
      } else if Signed(lhs[i]) < Signed(rhs[i]) {
        return -1;
      } else {
        return 1;
      }
    }
    if lhs[i] == 0 && rhs[i] == 0 {
      return 0;
    } else if lhs[i] == 0 {
      return -1;
    } else {
      return 1;
    }
  }

  /** `s` is the C string at the start of `a`. */
  ghost predicate IsCString(a: seq<Byte>, s: seq<Byte>) {
    |s| < |a| && a[..|s|] == s && a[|s|] == 0 && 0 !in s
  }

  /** strcmp against a terminated string is 0 exactly when the other array holds the same string. */
  lemma {:induction false} CompareZeroIff(a: seq<Byte>, s: seq<Byte>, b: seq<Byte>, i: nat)
    requires IsCString(a, s) && |s| < |b| && i <= |s| && a[..i] == b[..i]
    ensures Ends(a, b, i)
    ensures Compare(a, b, i) == 0 <==> IsCString(b, s)
    decreases |s| - i
  {
    assert a[|s|] == 0;
    if i < |s| {
      assert a[i] == s[i] && s[i] in s;
      if a[i] == b[i] {
        assert a[..i + 1] == a[..i] + [a[i]] && b[..i + 1] == b[..i] + [b[i]];
        CompareZeroIff(a, s, b, i + 1);
      } else {
        assert b[..|s|][i] != s[i];
      }
    } else {
      assert a[..i] == s;
    }
  }

  /** strcmp orders: swapping the arguments negates the result. */
  lemma {:induction false} CompareAntisymmetric(a: seq<Byte>, b: seq<Byte>, i: nat)
    requires Ends(a, b, i) && Ends(b, a, i)
    ensures Compare(a, b, i) == -Compare(b, a, i)
    decreases |a| - i
  {
    if a[i] != 0 && a[i] == b[i] {
      CompareAntisymmetric(a, b, i + 1);
    }
  }

  /** strcmp goes by the first difference: an ended string comes first, and otherwise the smaller signed
      character, so that 0x80 to 0xff come before 1 to 0x7f. */
  lemma {:induction false} CompareOrders(a: seq<Byte>, b: seq<Byte>, i: nat, k: nat)
    requires i <= k < |a| && k < |b| && a[k] != b[k]
    requires forall j :: i <= j < k ==> a[j] == b[j] != 0
    requires Ends(a, b, i)
    ensures Compare(a, b, i)
            == if a[k] == 0 then -1 else if b[k] == 0 then 1
               else if (a[k] as int + 128) % 256 < (b[k] as int + 128) % 256 then -1 else 1
    decreases k - i
  {
    if i < k {
      CompareOrders(a, b, i + 1, k);
    }
  }

  // ---------------------------------------------------------------- one long-name entry

  /** Offset of the k-th of the 13 characters: fields chars1, chars2 and chars3. */
  function CharOffset(k: nat): nat
    requires k < PER_ENTRY
    ensures CharOffset(k) <= 30
  {
    if k < 5 then 1 + 2 * k else if k < 11 then 14 + 2 * (k - 5) else 28 + 2 * (k - 11)
  }

  function LfnChar(e: Entry, k: nat): nat
    requires k < PER_ENTRY
  {
    e[CharOffset(k)] as int + 0x100 * e[CharOffset(k) + 1] as int
  }

  function Order(e: Entry): nat { e[0] as int % 16 }

  predicate IsLfn(e: Entry) { e[11] == 0x0f }

  function LfnChars(e: Entry): (cs: seq<nat>)
    ensures |cs| == PER_ENTRY && forall k :: 0 <= k < PER_ENTRY ==> cs[k] == LfnChar(e, k)
  {
    seq(PER_ENTRY, k requires 0 <= k < PER_ENTRY => LfnChar(e, k))
  }

  /** Characters written from `at` on; 0xffff is padding, and of the others the low byte is kept. */
  function WriteChars(name: Name, cs: seq<nat>, at: nat): Name
    requires at + |cs| <= NAME_SIZE
    decreases |cs|
  {
    if cs == [] then name
    else if cs[0] == 0xffff then WriteChars(name, cs[1..], at)
    else WriteChars(name[at := cs[0] % 256], cs[1..], at + 1)
  }

  /** Order 0 would write before the buffer: entries 1 to 15 are the ones that can be placed. */
  function WriteEntry(name: Name, e: Entry): Name
    requires 1 <= Order(e)
  {
    WriteChars(name, LfnChars(e), (Order(e) - 1) * PER_ENTRY)
  }

  function WriteAll(name: Name, entries: seq<Entry>): Name
    requires forall e :: e in entries ==> 1 <= Order(e)
    decreases |entries|
  {
    if entries == [] then name else WriteAll(WriteEntry(name, entries[0]), entries[1..])
  }

  // ---------------------------------------------------------------- reference: the on-disk encoding

  /** Entries needed for a name. */
  function Runs(name: seq<Byte>): nat { (|name| + PER_ENTRY - 1) / PER_ENTRY }

  /** ASCII, and short enough for order numbers 1 to 15. */
  predicate NameOk(s: seq<Byte>) {
    1 <= |s| <= 195 && forall c :: c in s ==> 0 < c < 128
  }

  /** The character the specification puts at position `i`: the name, one null, then 0xffff. */
  function Encoded(s: seq<Byte>, i: nat): nat {
    if i < |s| then s[i] else if i == |s| then 0 else 0xffff
  }

  /** Where an entry keeps its 13 characters, two bytes each. */
  const OFFSETS: seq<nat> := [1, 3, 5, 7, 9, 14, 16, 18, 20, 22, 24, 28, 30]

  lemma OffsetsAre(k: nat)
    requires k < PER_ENTRY
    ensures |OFFSETS| == 13 && OFFSETS[k] == CharOffset(k)
  {
  }

  /** `e` is the entry of order `order` of the name's run: the order number, marked in the last one, the
      long-name attribute, and the 13 characters. */
  ghost predicate Encodes(e: Entry, s: seq<Byte>, order: nat) {
    && 1 <= order <= 15 && e[0] == (if order == Runs(s) then 0x40 + order else order)
    && e[11] == 0x0f
    && forall k {:trigger OFFSETS[k]} :: 0 <= k < 13 ==>
         e[OFFSETS[k]] as int + 0x100 * e[OFFSETS[k] + 1] as int == Encoded(s, (order - 1) * 13 + k)
  }

  /** Read by the code, such an entry has that order and those characters. */
  lemma EncodesReads(e: Entry, s: seq<Byte>, order: nat)
    requires Encodes(e, s, order)
    ensures IsLfn(e) && Order(e) == order
    ensures forall k :: 0 <= k < PER_ENTRY ==> LfnChar(e, k) == Encoded(s, (order - 1) * PER_ENTRY + k)
  {
    forall k | 0 <= k < PER_ENTRY ensures LfnChar(e, k) == Encoded(s, (order - 1) * PER_ENTRY + k) {
      OffsetsAre(k);
    }
  }

  /** The run of a name on disk: highest order first. */
  ghost predicate IsRun(entries: seq<Entry>, s: seq<Byte>, n: nat) {
    |entries| == n && forall j :: 0 <= j < n ==> Encodes(entries[j], s, n - j)
  }

  // ---------------------------------------------------------------- rebuilding a name

  /** `cs` is what the encoding puts at positions pos, pos + 1, ... */
  ghost predicate EncodedFrom(cs: seq<nat>, s: seq<Byte>, pos: nat) {
    forall k :: 0 <= k < |cs| ==> cs[k] == Encoded(s, pos + k)
  }

  /** What a stretch of characters leaves in the buffer: its part of the name, and the null if it
      falls there. */
  lemma {:induction false} WriteCharsCells(name: Name, cs: seq<nat>, s: seq<Byte>, pos: nat, i: nat)
    requires NameOk(s) && EncodedFrom(cs, s, pos) && pos <= |s| && pos + |cs| <= NAME_SIZE && i < NAME_SIZE
    ensures WriteChars(name, cs, pos)[i]
            == if pos <= i < pos + |cs| && i < |s| then s[i]
               else if pos <= i < pos + |cs| && i == |s| then 0
               else name[i]
    decreases |cs|
  {
    if cs != [] {
      assert cs[0] == Encoded(s, pos);
      if pos < |s| {
        assert s[pos] in s;
        WriteCharsCells(name[pos := cs[0] % 256], cs[1..], s, pos + 1, i);
      } else {
        PaddingWritesNothing(name[pos := 0], cs[1..], pos + 1);
      }
    }
  }

  lemma {:induction false} PaddingWritesNothing(name: Name, cs: seq<nat>, at: nat)
    requires (forall k :: 0 <= k < |cs| ==> cs[k] == 0xffff) && at + |cs| <= NAME_SIZE
    ensures WriteChars(name, cs, at) == name
    decreases |cs|
  {
    if cs != [] {
      PaddingWritesNothing(name, cs[1..], at);
    }
  }

  lemma EntryCells(name: Name, e: Entry, s: seq<Byte>, order: nat, i: nat)
    requires NameOk(s) && Encodes(e, s, order) && order <= Runs(s) && i < NAME_SIZE
    ensures WriteEntry(name, e)[i]
            == if (order - 1) * PER_ENTRY <= i < order * PER_ENTRY && i < |s| then s[i]
               else if (order - 1) * PER_ENTRY <= i < order * PER_ENTRY && i == |s| then 0
               else name[i]
  {
    EncodesReads(e, s, order);
    WriteCharsCells(name, LfnChars(e), s, (order - 1) * PER_ENTRY, i);
  }

  lemma RunOrders(entries: seq<Entry>, s: seq<Byte>, n: nat)
    requires IsRun(entries, s, n)
    ensures forall e :: e in entries ==> 1 <= Order(e)
    ensures n > 0 ==> Encodes(entries[0], s, n) && IsRun(entries[1..], s, n - 1)
  {
    forall e | e in entries ensures 1 <= Order(e) {
      var j :| 0 <= j < n && entries[j] == e;
      EncodesReads(entries[j], s, n - j);
    }
    if n > 0 {
      assert Encodes(entries[0], s, n - 0);
      forall j | 0 <= j < n - 1 ensures Encodes(entries[1..][j], s, n - 1 - j) {
        assert entries[1..][j] == entries[j + 1];
      }
    }
  }

  /** Cell `i` once the first `n` thirteens of the name, and the null if it falls there, are written. */
  function CellAfter(name: Name, s: seq<Byte>, n: nat, i: nat): Byte
    requires i < NAME_SIZE
  {
    if i < n * PER_ENTRY && i < |s| then s[i] else if i < n * PER_ENTRY && i == |s| then 0 else name[i]
  }

  /** After orders n, n - 1, ..., 1 the first 13n cells hold the name and, where it falls there, the
      null; everything else is stale. */
  lemma {:induction false} WriteAllCells(name: Name, entries: seq<Entry>, s: seq<Byte>, n: nat, i: nat)
    requires NameOk(s) && n <= Runs(s) && IsRun(entries, s, n) && i < NAME_SIZE
    ensures forall e :: e in entries ==> 1 <= Order(e)
    ensures WriteAll(name, entries)[i] == CellAfter(name, s, n, i)
    decreases n
  {
    RunOrders(entries, s, n);
    if n > 0 {
      EntryCells(name, entries[0], s, n, i);
      WriteAllCells(WriteEntry(name, entries[0]), entries[1..], s, n - 1, i);
    }
  }

  /** Whatever stale bytes the buffer held: the rebuilt name compares equal to the original exactly
      when its length is no multiple of 13, or a null happens to lie behind it. */
  lemma RebuiltIff(name: Name, entries: seq<Entry>, s: seq<Byte>, target: seq<Byte>)
    requires NameOk(s) && IsRun(entries, s, Runs(s)) && IsCString(target, s)
    ensures forall e :: e in entries ==> 1 <= Order(e)
    ensures Ends(target, WriteAll(name, entries), 0)
    ensures Compare(target, WriteAll(name, entries), 0) == 0 <==> |s| % PER_ENTRY != 0 || name[|s|] == 0
  {
    WriteAllCells(name, entries, s, Runs(s), 0);
    var r := WriteAll(name, entries);
    forall i | 0 <= i < |s| ensures r[i] == s[i] {
      WriteAllCells(name, entries, s, Runs(s), i);
    }
    WriteAllCells(name, entries, s, Runs(s), |s|);
    RunsCover(s);
    assert r[..|s|] == s;
    forall c | c in s ensures c != 0 {
    }
    CompareZeroIff(target, s, r, 0);
  }

  /** The one entry of the name "aaaaaaaaaaaaa". */
  const THIRTEEN: Entry := [
    0x41, 97, 0, 97, 0, 97, 0, 97, 0, 97, 0, 0x0f, 0, 0,
    97, 0, 97, 0, 97, 0, 97, 0, 97, 0, 97, 0, 0, 0, 97, 0, 97, 0]

  lemma ThirteenEncodes(s: seq<Byte>)
    requires |s| == PER_ENTRY && forall i :: 0 <= i < PER_ENTRY ==> s[i] == 97
    ensures IsRun([THIRTEEN], s, 1)
  {
    var e := THIRTEEN;
    forall k {:trigger OFFSETS[k]} | 0 <= k < 13 ensures e[OFFSETS[k]] as int + 0x100 * e[OFFSETS[k] + 1] as int == 97 {
    }
    assert Encodes(e, s, 1);
  }

  /** A name of 13 characters over a buffer left full of b's does not compare equal to itself. */
  lemma RebuiltFails(s: seq<Byte>, name: Name, target: Name)
    requires |s| == PER_ENTRY && forall i :: 0 <= i < PER_ENTRY ==> s[i] == 97
    requires (forall i :: 0 <= i < NAME_SIZE ==> name[i] == 98) && IsCString(target, s)
    ensures Order(THIRTEEN) == 1 && IsRun([THIRTEEN], s, Runs(s))
    ensures Ends(target, WriteAll(name, [THIRTEEN]), 0) && Compare(target, WriteAll(name, [THIRTEEN]), 0) != 0
  {
    ThirteenEncodes(s);
    RebuiltIff(name, [THIRTEEN], s, target);
  }

  lemma RunsCover(s: seq<Byte>)
    ensures |s| <= Runs(s) * PER_ENTRY
    ensures |s| < Runs(s) * PER_ENTRY <==> |s| % PER_ENTRY != 0
  {
  }
}
