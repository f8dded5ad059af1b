/** Looking a name up in a one-sector directory (locate_file_dirent in src/b32_filesystem.cpp). */
module DirectoryLookup {
  import opened Words
  import opened Fat32
  import opened LongNames

  const ENTRIES := 16     // 512 / 32
  const SLASH := 47

  datatype Found = File(cluster: nat, size: nat) | Directory(cluster: nat) | NotFound

  /** Cluster and size fields of a short entry; attribute bit 0x10 marks a directory. */
  function Decode(e: Entry): Found {
    var cluster := Le16(e, 20) * 0x1_0000 + Le16(e, 26);
    if e[11] as int / 16 % 2 == 0 then File(cluster, Le32(e, 28)) else Directory(cluster)
  }

  predicate Placeable(entries: seq<Entry>) {
    forall e :: e in entries && IsLfn(e) ==> 1 <= Order(e)
  }

  /** The loop over the directory; `NotFound` is the panic. */
  function Scan(entries: seq<Entry>, name: Name, target: Name): Found
    requires Placeable(entries) && 0 in target
    decreases |entries|
  {
    if entries == [] then NotFound
    else if IsLfn(entries[0]) then Scan(entries[1..], WriteEntry(name, entries[0]), target)
    else if Matches(target, name) then Decode(entries[0])
    else Scan(entries[1..], name, target)
  }

  predicate Matches(target: Name, name: Name)
    requires 0 in target
  {
    assert Ends(target, name, 0) by {
      var j :| 0 <= j < |target| && target[j] == 0;
    }
    Compare(target, name, 0) == 0
  }

  // ---------------------------------------------------------------- reference: a list of files

  datatype Item = Item(name: seq<Byte>, cluster: nat, size: nat, directory: bool)

  function Result(item: Item): Found {
    if item.directory then Directory(item.cluster) else File(item.cluster, item.size)
  }

  /** A short entry with the item's first cluster, in two halves, its size, and the directory bit. */
  predicate Carries(e: Entry, item: Item) {
    && e[11] != 0x0f
    && item.cluster == Number(e[26..28] + e[20..22])
    && item.size == Number(e[28..32])
    && (item.directory <==> e[11] as int % 0x20 >= 0x10)
  }

  lemma CarriesDecodes(e: Entry, item: Item)
    requires Carries(e, item)
    ensures !IsLfn(e) && Decode(e) == Result(item)
  {
    DirectoryBit(e[11]);
    ClusterHalves(e);
    NumberOfFour(e, 28);
  }

  lemma DirectoryBit(attributes: Byte)
    ensures attributes as int % 0x20 >= 0x10 <==> attributes as int / 16 % 2 != 0
  {
  }

  lemma ClusterHalves(e: Entry)
    ensures Number(e[26..28] + e[20..22]) == Le16(e, 20) * 0x1_0000 + Le16(e, 26)
  {
    var c := e[26..28] + e[20..22];
    NumberOfFour(c, 0);
    assert c[0..4] == c && c[0] == e[26] && c[1] == e[27] && c[2] == e[20] && c[3] == e[21];
  }

  /** Every item is its long-name run followed by its short entry; unused entries come last. */
  ghost predicate Listing(entries: seq<Entry>, items: seq<Item>)
    decreases |items|
  {
    if items == [] then forall e :: e in entries ==> e[11] != 0x0f
    else
      var n := Runs(items[0].name);
      && n < |entries|
      && IsRun(entries[..n], items[0].name, n)
      && Carries(entries[n], items[0])
      && Listing(entries[n + 1..], items[1..])
  }

  /** A C string: the bytes before the first null. */
  function UpToNull(b: seq<Byte>): seq<Byte> {
    if b == [] || b[0] == 0 then [] else [b[0]] + UpToNull(b[1..])
  }

  /** The name the buffer shows after an item's run. A run of whole entries has no null of its own, so
      what the buffer held behind it shows too. */
  function Shown(name: Name, s: seq<Byte>): seq<Byte>
    requires |s| <= NAME_SIZE
  {
    if |s| % PER_ENTRY != 0 then s else s + UpToNull(name[|s|..])
  }

  /** The buffer after an item's run. */
  function Rewritten(name: Name, s: seq<Byte>): Name {
    seq(NAME_SIZE, i requires 0 <= i < NAME_SIZE => CellAfter(name, s, Runs(s), i))
  }

  /** The first item that shows the wanted name, starting from this buffer. */
  function FirstShown(items: seq<Item>, name: Name, wanted: seq<Byte>): Found
    requires forall item :: item in items ==> NameOk(item.name)
  {
    if items == [] then NotFound
    else
      assert items[0] in items && NameOk(items[0].name);
      if Shown(name, items[0].name) == wanted then Result(items[0])
      else FirstShown(items[1..], Rewritten(name, items[0].name), wanted)
  }

  /** The first item of the wanted name. */
  function First(items: seq<Item>, wanted: seq<Byte>): Found {
    if items == [] then NotFound
    else if items[0].name == wanted then Result(items[0])
    else First(items[1..], wanted)
  }

  // ---------------------------------------------------------------- the loop finds the first match

  lemma {:induction false} ListingPlaceable(entries: seq<Entry>, items: seq<Item>)
    requires Listing(entries, items)
    ensures Placeable(entries)
    decreases |items|
  {
    if items != [] {
      var n := Runs(items[0].name);
      ListingPlaceable(entries[n + 1..], items[1..]);
      forall e | e in entries && IsLfn(e) ensures 1 <= Order(e) {
        var j :| 0 <= j < |entries| && entries[j] == e;
        if j < n {
          EncodesReads(entries[..n][j], items[0].name, n - j);
        } else {
          assert j != n;
          assert entries[n + 1..][j - n - 1] == e;
        }
      }
    }
  }

  lemma {:induction false} ScanRun(entries: seq<Entry>, n: nat, name: Name, target: Name)
    requires n <= |entries| && Placeable(entries) && 0 in target
    requires forall e :: e in entries[..n] ==> IsLfn(e)
    ensures forall e :: e in entries[..n] ==> 1 <= Order(e)
    ensures Placeable(entries[n..])
    ensures Scan(entries, name, target) == Scan(entries[n..], WriteAll(name, entries[..n]), target)
    decreases n
  {
    forall e | e in entries[..n] ensures 1 <= Order(e) {
      assert e in entries;
    }
    if n == 0 {
      assert entries[0..] == entries;
    } else {
      assert entries[..n][0] == entries[0] && entries[..n][1..] == entries[1..][..n - 1];
      assert entries[1..][n - 1..] == entries[n..];
      ScanRun(entries[1..], n - 1, WriteEntry(name, entries[0]), target);
    }
  }

  lemma {:induction false} ScanUnused(entries: seq<Entry>, name: Name, target: Name)
    requires (forall e :: e in entries ==> !IsLfn(e)) && 0 in target
    requires entries != [] ==> !Matches(target, name)
    ensures Placeable(entries) && Scan(entries, name, target) == NotFound
    decreases |entries|
  {
    if entries != [] {
      ScanUnused(entries[1..], name, target);
    }
  }

  lemma RunIsLong(entries: seq<Entry>, s: seq<Byte>, n: nat)
    requires IsRun(entries, s, n)
    ensures forall e :: e in entries ==> IsLfn(e)
  {
    forall e | e in entries ensures IsLfn(e) {
      var j :| 0 <= j < n && entries[j] == e;
      EncodesReads(entries[j], s, n - j);
    }
  }

  lemma {:induction false} CStringIs(b: seq<Byte>, s: seq<Byte>)
    requires |s| < |b| && 0 !in s
    ensures IsCString(b, s) <==> UpToNull(b) == s
  {
    if b[0] == 0 {
      if s != [] {
        assert s[0] in s && b[..|s|][0] == b[0];
      }
    } else if s != [] {
      assert b[1..][..|s| - 1] == b[..|s|][1..];
      CStringIs(b[1..], s[1..]);
      assert b[..|s|] == [b[0]] + b[1..][..|s| - 1];
      assert s == [s[0]] + s[1..];
    }
  }

  lemma {:induction false} UpToNullConcat(s: seq<Byte>, t: seq<Byte>)
    requires 0 !in s
    ensures UpToNull(s + t) == s + UpToNull(t)
  {
    if s == [] {
      assert s + t == t;
    } else {
      assert s[0] in s && (s + t)[1..] == s[1..] + t;
      UpToNullConcat(s[1..], t);
    }
  }

  lemma RunRewrites(name: Name, run: seq<Entry>, s: seq<Byte>)
    requires NameOk(s) && IsRun(run, s, Runs(s))
    ensures forall e :: e in run ==> 1 <= Order(e)
    ensures WriteAll(name, run) == Rewritten(name, s)
  {
    WriteAllCells(name, run, s, Runs(s), 0);
    forall i | 0 <= i < NAME_SIZE ensures WriteAll(name, run)[i] == Rewritten(name, s)[i] {
      WriteAllCells(name, run, s, Runs(s), i);
    }
  }

  /** The rewritten buffer, as a C string, is what the item shows. */
  lemma RewrittenShows(name: Name, s: seq<Byte>)
    requires NameOk(s)
    ensures UpToNull(Rewritten(name, s)) == Shown(name, s)
  {
    var b := Rewritten(name, s);
    RunsCover(s);
    assert b[..|s|] == s && 0 !in s;
    assert b == s + b[|s|..];
    UpToNullConcat(s, b[|s|..]);
    if |s| % PER_ENTRY == 0 {
      assert b[|s|..] == name[|s|..];
    } else {
      assert b[|s|..][0] == 0;
    }
  }

  /** After an item's run the buffer compares equal to the wanted name exactly when it shows it. */
  lemma RunMatches(name: Name, run: seq<Entry>, s: seq<Byte>, target: Name, wanted: seq<Byte>)
    requires NameOk(s) && IsRun(run, s, Runs(s)) && IsCString(target, wanted)
    ensures forall e :: e in run ==> 1 <= Order(e)
    ensures WriteAll(name, run) == Rewritten(name, s)
    ensures 0 in target && (Matches(target, WriteAll(name, run)) <==> Shown(name, s) == wanted)
  {
    assert target[|wanted|] == 0;
    RunRewrites(name, run, s);
    var b := Rewritten(name, s);
    CompareZeroIff(target, wanted, b, 0);
    CStringIs(b, wanted);
    RewrittenShows(name, s);
  }

  /** Lookup returns the first item that shows the wanted name in the buffer as the items before it left
      it, and nothing when none does. */
  lemma {:induction false} ScanFindsFirst(entries: seq<Entry>, items: seq<Item>, name: Name, target: Name, wanted: seq<Byte>)
    requires Listing(entries, items) && IsCString(target, wanted) && 0 in target
    requires forall item :: item in items ==> NameOk(item.name)
    requires items == [] && entries != [] ==> !Matches(target, name)
    ensures Placeable(entries) && Scan(entries, name, target) == FirstShown(items, name, wanted)
    decreases |items|
  {
    ListingPlaceable(entries, items);
    if items == [] {
      ScanUnused(entries, name, target);
    } else {
      var item := items[0];
      var n := Runs(item.name);
      var run := entries[..n];
      RunIsLong(run, item.name, n);
      ScanRun(entries, n, name, target);
      RunMatches(name, run, item.name, target, wanted);
      CarriesDecodes(entries[n], item);
      assert entries[n..][0] == entries[n] && entries[n..][1..] == entries[n + 1..];
      if Shown(name, item.name) != wanted {
        ScanFindsFirst(entries[n + 1..], items[1..], Rewritten(name, item.name), target, wanted);
      }
    }
  }

  /** Without names of whole entries that is the first item of the wanted name, whatever the buffer
      held. */
  lemma {:induction false} ShownIsFirst(items: seq<Item>, name: Name, wanted: seq<Byte>)
    requires forall item :: item in items ==> NameOk(item.name) && |item.name| % PER_ENTRY != 0
    ensures FirstShown(items, name, wanted) == First(items, wanted)
  {
    if items != [] {
      ShownIsFirst(items[1..], Rewritten(name, items[0].name), wanted);
    }
  }

  // ---------------------------------------------------------------- a file by its name

  function EntryAt(sector: Sector, i: nat): Entry
    requires i < ENTRIES
  {
    sector[32 * i..32 * i + 32]
  }

  function EntriesFrom(sector: Sector, i: nat): (r: seq<Entry>)
    requires i <= ENTRIES
    ensures |r| == ENTRIES - i
    decreases ENTRIES - i, sector    // with `sector`, so that the 16 entries are not unrolled
  {
    if i == ENTRIES then [] else [EntryAt(sector, i)] + EntriesFrom(sector, i + 1)
  }

  /** `root` is the directory in a sector: 16 entries of 32 bytes, one behind the other. */
  ghost predicate IsDirectory(sector: Sector, root: seq<Entry>) {
    |root| == 16 && forall i, j :: 0 <= i < 16 && 0 <= j < 32 ==> root[i][j] == sector[32 * i + j]
  }

  lemma {:induction false} EntriesAre(sector: Sector, root: seq<Entry>, i: nat)
    requires IsDirectory(sector, root) && i <= ENTRIES
    ensures EntriesFrom(sector, i) == root[i..]
    decreases ENTRIES - i
  {
    if i < ENTRIES {
      EntriesAre(sector, root, i + 1);
      forall j | 0 <= j < 32 ensures EntryAt(sector, i)[j] == root[i][j] {
      }
      assert EntryAt(sector, i) == root[i];
    }
  }

  /** From a name in the root directory to the file's bytes, on the disk as it is: the partition and its
      boot record, the directory in cluster 2 behind the FATs, the item that shows the wanted name, and
      every byte of that item's chain. */
  lemma ReadByName(disk: Disk, start: nat, p: Pbr, root: seq<Entry>, items: seq<Item>, item: Item,
                   name: Name, target: Name, wanted: seq<Byte>, i: nat)
    requires IsPartitionStart(disk(0), start) && IsBootRecord(disk(start), p) && VolumeOk(p, start)
    requires IsDirectory(disk(start + BehindFats(p, p.fats)), root) && Listing(root, items) && items != []
    requires forall item :: item in items ==> NameOk(item.name)
    requires IsCString(target, wanted) && 0 in target
    requires FirstShown(items, name, wanted) == Result(item) && !item.directory
    requires ChainOk(disk, start, p, item.cluster, item.size) && i < item.size
    ensures PartitionStart(disk) == start && LoadPbr(disk) == p
    ensures Addressable(p, 2) && EntriesFrom(disk(ClusterSector(p, 2)), 0) == root
    ensures Placeable(root) && Scan(root, name, target) == File(item.cluster, item.size)
    ensures Readable(disk, p, item.cluster, item.size) && |ReadFile(disk, p, item.cluster, item.size)| == item.size
    ensures Chain(disk, start, p, item.cluster, i / SECTOR) >= 2
    ensures ReadFile(disk, p, item.cluster, item.size)[i] == FileByte(disk, start, p, item.cluster, i)
  {
    RootOnDisk(disk, start, p, root);
    ScanFindsFirst(root, items, name, target, wanted);
    ReadFileByte(disk, p, start, item.cluster, item.size, i);
  }

  /** The code finds the root directory where the layout has it. */
  lemma RootOnDisk(disk: Disk, start: nat, p: Pbr, root: seq<Entry>)
    requires IsPartitionStart(disk(0), start) && IsBootRecord(disk(start), p) && VolumeOk(p, start)
    requires IsDirectory(disk(start + BehindFats(p, p.fats)), root)
    ensures PartitionStart(disk) == start && LoadPbr(disk) == p
    ensures Addressable(p, 2) && EntriesFrom(disk(ClusterSector(p, 2)), 0) == root
  {
    BootRecordRead(disk, start, p);
    RootSector(p, start);
    EntriesAre(disk(start + BehindFats(p, p.fats)), root, 0);
  }

  lemma RootSector(p: Pbr, start: nat)
    requires VolumeOk(p, start)
    ensures Addressable(p, 2) && ClusterSector(p, 2) == start + BehindFats(p, p.fats)
  {
    BehindFatsIs(p, p.fats);
  }

  // ---------------------------------------------------------------- the lookup as it runs

  /** Copy the 13 characters of a long-name entry to their place, skipping the padding. */
  method PutEntry(name: array<Byte>, e: Entry)
    requires name.Length == NAME_SIZE && 1 <= Order(e)
    modifies name
    ensures name[..] == WriteEntry(old(name[..]), e)
  {
    ghost var goal := WriteEntry(name[..], e);
    var cs, offset := LfnChars(e), (Order(e) - 1) * PER_ENTRY;
    assert cs[0..] == cs;
    for i := 0 to PER_ENTRY
      invariant 0 <= offset && offset + PER_ENTRY - i <= NAME_SIZE
      invariant WriteChars(name[..], cs[i..], offset) == goal
    {
      assert cs[i..][1..] == cs[i + 1..];
      if cs[i] != 0xffff {
        ghost var before := name[..];
        name[offset] := cs[i] % 256;
        assert name[..] == before[offset := cs[i] % 256];
        offset := offset + 1;
      }
    }
  }

  method Locate(table: seq<Entry>, target: Name, name: array<Byte>) returns (found: Found)
    requires name.Length == NAME_SIZE && 0 in target && Placeable(table)
    modifies name
    ensures found == Scan(table, old(name[..]), target)
  {
    ghost var goal := Scan(table, name[..], target);
    assert table[0..] == table;
    for i := 0 to |table|
      invariant Placeable(table[i..])
      invariant Scan(table[i..], name[..], target) == goal
    {
      assert table[i..][1..] == table[i + 1..];
      if IsLfn(table[i]) {
        PutEntry(name, table[i]);
      } else if Matches(target, name[..]) {
        return Decode(table[i]);
      }
    }
    return NotFound;
  }

  /** read_cluster, then the loop over its 16 entries. */
  method LocateInCluster(disk: Disk, p: Pbr, cluster: nat, target: Name, name: array<Byte>) returns (found: Found)
    requires Addressable(p, cluster) && name.Length == NAME_SIZE && 0 in target
    requires Placeable(EntriesFrom(disk(ClusterSector(p, cluster)), 0))
    modifies name
    ensures found == Scan(EntriesFrom(disk(ClusterSector(p, cluster)), 0), old(name[..]), target)
  {
    var buffer := new Byte[SECTOR](_ => 0);
    ReadCluster(disk, p, cluster, buffer, 0);
    var sector := buffer[..];
    assert sector == disk(ClusterSector(p, cluster));
    found := Locate(EntriesFrom(sector, 0), target, name);
  }

  /** `part` is the path up to its first slash, ended by a null, and `rest` the index behind the slash;
      or its first 256 bytes when there is no slash among them, and `rest` is 0. */
  ghost predicate IsSplit(path: seq<Byte>, part: Name, rest: nat)
    requires |path| >= 256
  {
    if 0 < rest < 257 then
      && path[rest - 1] == 0x2f && 0x2f !in path[..rest - 1]
      && part[..rest - 1] == path[..rest - 1] && part[rest - 1] == 0
    else
      && rest == 0 && 0x2f !in path[..256]
      && part[..256] == path[..256]
  }

  /** The first loop: the path up to its first slash, or its first 256 bytes, goes to `part`. */
  method SplitPath(path: seq<Byte>, part: array<Byte>) returns (rest: nat)
    requires |path| >= NAME_SIZE - 1 && part.Length == NAME_SIZE
    modifies part
    ensures IsSplit(path, part[..], rest)
  {
    for i := 0 to NAME_SIZE - 1
      invariant part[..i] == path[..i] && SLASH !in path[..i]
    {
      if path[i] == SLASH {
        part[i] := 0;
        return i + 1;
      }
      part[i] := path[i];
      assert path[..i + 1] == path[..i] + [path[i]];
    }
    return 0;
  }

  /** A path component shorter than 256 bytes, ended by a slash or a null, becomes the C string that
      is looked up. */
  lemma SplitIsName(path: seq<Byte>, part: Name, rest: nat, s: seq<Byte>)
    requires |s| < 256 <= |path| && path[..|s|] == s && 0 !in s && 0x2f !in s
    requires path[|s|] == 0 || path[|s|] == 0x2f
    requires IsSplit(path, part, rest)
    ensures IsCString(part, s)
    ensures path[|s|] == 0x2f ==> rest == |s| + 1
  {
    var n := if rest > 0 then rest - 1 else NAME_SIZE - 1;
    forall i | 0 <= i < |s| ensures path[i] != SLASH {
      assert path[i] == s[i] && s[i] in s;
    }
    forall i | 0 <= i < n ensures path[i] != SLASH {
      assert path[i] in path[..n];
    }
    assert part[..|s|] == part[..n][..|s|] == path[..n][..|s|] == path[..|s|];
    assert |s| < n ==> part[|s|] == part[..n][|s|] == path[..n][|s|];
  }
}
