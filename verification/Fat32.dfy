/** Cluster arithmetic, FAT chains and file reading (src/b32_filesystem.cpp), against the layout of
    the Microsoft FAT32 File System Specification 1.03, section "FAT Data Structure". */
module Fat32 {
  import opened Words

  const SECTOR := 512
  const TWO_28 := 0x1000_0000
  const TWO_31 := 0x8000_0000

  type Sector = s: seq<Byte> | |s| == SECTOR witness seq(SECTOR, _ => 0)

  /** read_disk_sector with count 1: every sector can be read. */
  type Disk = nat -> Sector

  function Little(b0: int, b1: int, b2: int, b3: int): int {
    b0 + 0x100 * b1 + 0x1_0000 * b2 + 0x100_0000 * b3
  }

  function Le16(s: seq<Byte>, at: nat): nat
    requires at + 2 <= |s|
  {
    Little(s[at], s[at + 1], 0, 0)
  }

  function Le32(s: seq<Byte>, at: nat): nat
    requires at + 4 <= |s|
  {
    Little(s[at], s[at + 1], s[at + 2], s[at + 3])
  }

  /** The fields of the partition boot record that the reader uses. */
  datatype Pbr = Pbr(bytesPerSector: nat, sectorsPerCluster: nat, reservedSectors: nat, fats: nat,
                     sectorsPerFat16: nat, hiddenSectors: nat, sectorsPerFat32: nat)

  /** load_PBR: the first MBR partition entry names the boot record's sector. */
  function PartitionStart(disk: Disk): nat { Le32(disk(0), 0x1be + 8) }

  function LoadPbr(disk: Disk): Pbr {
    var b := disk(PartitionStart(disk));
    Pbr(Le16(b, 11), b[13], Le16(b, 14), b[16], Le16(b, 22), Le32(b, 28), Le32(b, 36))
  }

  function FatSize(p: Pbr): nat { if p.sectorsPerFat16 == 0 then p.sectorsPerFat32 else p.sectorsPerFat16 }

  function FirstDataSector(p: Pbr): nat { p.reservedSectors + p.fats * FatSize(p) }

  /** read_cluster's `int` product is a cluster's offset and does not overflow. */
  predicate Addressable(p: Pbr, cluster: nat) {
    cluster >= 2 && (cluster - 2) * p.sectorsPerCluster < TWO_31
  }

  /** The sector read_cluster reads. */
  function ClusterSector(p: Pbr, cluster: nat): nat
    requires Addressable(p, cluster)
  {
    (cluster - 2) * p.sectorsPerCluster + FirstDataSector(p) + p.hiddenSectors
  }

  /** next_cluster; the sector number is computed in 32 bits. */
  function NextCluster(disk: Disk, p: Pbr, cluster: nat): nat {
    var sector := p.reservedSectors + cluster / 128 + p.hiddenSectors;
    Le32(disk(if sector < WORD then sector else sector % WORD), 4 * (cluster % 128))
  }

  /** Every cluster the loop of fat32_read comes to can be addressed. */
  ghost predicate Readable(disk: Disk, p: Pbr, cluster: nat, size: nat)
    decreases size
  {
    size > 0 ==>
      && Addressable(p, cluster)
      && (size >= SECTOR ==> Readable(disk, p, NextCluster(disk, p, cluster), size - SECTOR))
  }

  /** The loop of fat32_read as a function of where it stands. */
  function ReadFile(disk: Disk, p: Pbr, cluster: nat, size: nat): seq<Byte>
    requires Readable(disk, p, cluster, size)
    decreases size
  {
    if size == 0 then []
    else
      var data := disk(ClusterSector(p, cluster));
      if size < SECTOR then data[..size]
      else data + ReadFile(disk, p, NextCluster(disk, p, cluster), size - SECTOR)
  }

  // ---------------------------------------------------------------- reference: the volume as bytes

  /** Byte `at` of the volume that starts at sector `start`. */
  function VolumeByte(disk: Disk, start: nat, at: nat): Byte { disk(start + at / SECTOR)[at % SECTOR] }

  /** The number that bytes hold, the least significant first. */
  function Number(bytes: seq<Byte>): nat {
    if bytes == [] then 0 else bytes[0] as int + 0x100 * Number(bytes[1..])
  }

  lemma NumberOfTwo(s: seq<Byte>, at: nat)
    requires at + 2 <= |s|
    ensures Number(s[at..at + 2]) == Le16(s, at)
  {
    var b := s[at..at + 2];
    assert b[1..][1..] == [] && b[1..][0] == b[1];
    assert Number([]) == 0 && Number(b[1..]) == b[1] as int;
  }

  lemma NumberOfFour(s: seq<Byte>, at: nat)
    requires at + 4 <= |s|
    ensures Number(s[at..at + 4]) == Le32(s, at)
  {
    var b := s[at..at + 4];
    assert b[1..][0] == b[1] && b[2..][0] == b[2] && b[3..][0] == b[3];
    assert b[1..][1..] == b[2..] && b[2..][1..] == b[3..] && b[3..][1..] == [];
    assert Number([]) == 0 && Number(b[3..]) == b[3] as int;
    assert Number(b[2..]) == b[2] as int + 0x100 * Number(b[3..]);
    assert Number(b[1..]) == b[1] as int + 0x100 * Number(b[2..]);
  }

  function VolumeWord(disk: Disk, start: nat, at: nat): nat {
    Number([VolumeByte(disk, start, at), VolumeByte(disk, start, at + 1),
            VolumeByte(disk, start, at + 2), VolumeByte(disk, start, at + 3)])
  }

  /** The boot record's fields, at their offsets. */
  predicate IsBootRecord(b: Sector, p: Pbr) {
    && p.bytesPerSector == Number(b[11..13])
    && p.sectorsPerCluster == b[13]
    && p.reservedSectors == Number(b[14..16])
    && p.fats == b[16]
    && p.sectorsPerFat16 == Number(b[22..24])
    && p.hiddenSectors == Number(b[28..32])
    && p.sectorsPerFat32 == Number(b[36..40])
  }

  /** The first partition of the master boot record begins at sector `start`. */
  predicate IsPartitionStart(b: Sector, start: nat) { start == Number(b[454..458]) }

  /** Sectors of one FAT: a FAT32 volume leaves the 16-bit field 0. */
  function SectorsPerFat(p: Pbr): nat { if p.sectorsPerFat16 == 0 then p.sectorsPerFat32 else p.sectorsPerFat16 }

  /** The volume's sector behind the reserved ones and `copies` FATs, which follow each other. */
  function BehindFats(p: Pbr, copies: nat): nat {
    if copies == 0 then p.reservedSectors else BehindFats(p, copies - 1) + SectorsPerFat(p)
  }

  /** The word at 4n of the first FAT, which follows the reserved sectors. */
  function FatWord(disk: Disk, start: nat, p: Pbr, n: nat): nat {
    VolumeWord(disk, start, p.reservedSectors * SECTOR + 4 * n)
  }

  /** FAT entry `n`: the low 28 bits of its word; the top four are reserved. */
  function FatEntry(disk: Disk, start: nat, p: Pbr, n: nat): nat { FatWord(disk, start, p, n) % TWO_28 }

  /** Not free, reserved, bad or an end-of-chain mark. */
  predicate DataCluster(n: nat) { 2 <= n < 0x0fff_fff7 }

  /** Byte `i` of data cluster `n`: the data region follows all FATs and begins with cluster 2. */
  function ClusterByte(disk: Disk, start: nat, p: Pbr, n: nat, i: nat): Byte
    requires n >= 2
  {
    VolumeByte(disk, start, (BehindFats(p, p.fats) + (n - 2) * p.sectorsPerCluster) * SECTOR + i)
  }

  /** The k-th cluster of the chain from `cluster`. */
  function Chain(disk: Disk, start: nat, p: Pbr, cluster: nat, k: nat): nat
    decreases k
  {
    if k == 0 then cluster else Chain(disk, start, p, FatEntry(disk, start, p, cluster), k - 1)
  }

  /** Byte `i` of the file whose chain begins at `cluster`. */
  ghost function FileByte(disk: Disk, start: nat, p: Pbr, cluster: nat, i: nat): Byte
    requires Chain(disk, start, p, cluster, i / SECTOR) >= 2
  {
    ClusterByte(disk, start, p, Chain(disk, start, p, cluster, i / SECTOR), i % SECTOR)
  }

  /** A volume the reader is meant for: 512-byte sectors, one to a cluster, `hidden_sectors` at the
      partition's start, the FAT below 2^32 sectors. */
  ghost predicate VolumeOk(p: Pbr, start: nat) {
    && p.bytesPerSector == SECTOR && p.sectorsPerCluster == 1 && p.hiddenSectors == start
    && p.reservedSectors + TWO_28 / 128 + start < WORD
  }

  /** The file's clusters are data clusters, and the FAT words that link them have clear top bits. */
  ghost predicate ChainOk(disk: Disk, start: nat, p: Pbr, cluster: nat, size: nat) {
    && (forall k: nat {:trigger Chain(disk, start, p, cluster, k)} :: k * SECTOR < size ==>
          DataCluster(Chain(disk, start, p, cluster, k)))
    && (forall k: nat {:trigger Chain(disk, start, p, cluster, k)} :: (k + 1) * SECTOR < size ==>
          FatWord(disk, start, p, Chain(disk, start, p, cluster, k)) < TWO_28)
  }

  // ---------------------------------------------------------------- the code follows the layout

  /** load_PBR reads the partition's start and the boot record's fields where they are. */
  lemma BootRecordRead(disk: Disk, start: nat, p: Pbr)
    requires IsPartitionStart(disk(0), start) && IsBootRecord(disk(start), p)
    ensures PartitionStart(disk) == start && LoadPbr(disk) == p
  {
    var b := disk(start);
    NumberOfFour(disk(0), 454);
    NumberOfTwo(b, 11);
    NumberOfTwo(b, 14);
    NumberOfTwo(b, 22);
    NumberOfFour(b, 28);
    NumberOfFour(b, 36);
  }

  lemma {:induction false} BehindFatsIs(p: Pbr, copies: nat)
    ensures BehindFats(p, copies) == p.reservedSectors + copies * FatSize(p)
  {
    if copies > 0 {
      BehindFatsIs(p, copies - 1);
      assert copies * FatSize(p) == (copies - 1) * FatSize(p) + FatSize(p);
    }
  }

  lemma {:induction false} BehindFatsGrows(p: Pbr, a: nat, b: nat)
    requires a <= b
    ensures BehindFats(p, a) <= BehindFats(p, b)
  {
    if a < b {
      BehindFatsGrows(p, a, b - 1);
    }
  }

  /** A cluster's sector lies behind every sector of every FAT, cluster 2 comes first, and different
      clusters have different sectors. */
  lemma ClustersApart(p: Pbr, start: nat, n: nat, copy: nat, k: nat, other: nat)
    requires VolumeOk(p, start) && DataCluster(n) && DataCluster(other)
    requires copy < p.fats && k < SectorsPerFat(p)
    ensures Addressable(p, n) && ClusterSector(p, n) > start + BehindFats(p, copy) + k
    ensures n == 2 ==> ClusterSector(p, n) == start + BehindFats(p, p.fats)
    ensures Addressable(p, other) && (ClusterSector(p, n) == ClusterSector(p, other) <==> n == other)
  {
    BehindFatsIs(p, p.fats);
    BehindFatsGrows(p, copy + 1, p.fats);
    assert (n - 2) * p.sectorsPerCluster == n - 2 && (other - 2) * p.sectorsPerCluster == other - 2;
  }

  lemma SplitOffset(sector: nat, i: nat)
    requires i < SECTOR
    ensures (sector * SECTOR + i) / SECTOR == sector && (sector * SECTOR + i) % SECTOR == i
  {
  }

  lemma FatOffset(reserved: nat, n: nat)
    ensures reserved * SECTOR + 4 * n == (reserved + n / 128) * SECTOR + 4 * (n % 128)
    ensures 4 * (n % 128) + 3 < SECTOR
  {
  }

  lemma SectorByte(disk: Disk, start: nat, sector: nat, i: nat)
    requires i < SECTOR
    ensures VolumeByte(disk, start, sector * SECTOR + i) == disk(start + sector)[i]
  {
    SplitOffset(sector, i);
  }

  lemma WordReads(disk: Disk, start: nat, sector: nat, i: nat)
    requires i + 4 <= SECTOR
    ensures VolumeWord(disk, start, sector * SECTOR + i) == Le32(disk(start + sector), i)
  {
    var b := disk(start + sector);
    SectorByte(disk, start, sector, i);
    SectorByte(disk, start, sector, i + 1);
    SectorByte(disk, start, sector, i + 2);
    SectorByte(disk, start, sector, i + 3);
    assert [b[i], b[i + 1], b[i + 2], b[i + 3]] == b[i..i + 4];
    NumberOfFour(b, i);
  }

  lemma NextClusterReads(disk: Disk, p: Pbr, start: nat, n: nat)
    requires VolumeOk(p, start) && n < TWO_28
    ensures NextCluster(disk, p, n) == Le32(disk(start + p.reservedSectors + n / 128), 4 * (n % 128))
  {
    assert p.reservedSectors + n / 128 + p.hiddenSectors == start + p.reservedSectors + n / 128;
  }

  lemma FatWordReads(disk: Disk, p: Pbr, start: nat, n: nat)
    ensures FatWord(disk, start, p, n) == Le32(disk(start + p.reservedSectors + n / 128), 4 * (n % 128))
  {
    FatOffset(p.reservedSectors, n);
    WordReads(disk, start, p.reservedSectors + n / 128, 4 * (n % 128));
  }

  lemma LowBits(x: nat)
    ensures x % TWO_28 == x <==> x < TWO_28
  {
  }

  lemma NextClusterWord(disk: Disk, p: Pbr, start: nat, n: nat)
    requires VolumeOk(p, start) && n < TWO_28
    ensures NextCluster(disk, p, n) == FatWord(disk, start, p, n)
  {
    NextClusterReads(disk, p, start, n);
    FatWordReads(disk, p, start, n);
  }

  /** next_cluster returns the word on disk, which is the entry of the specification exactly when the
      word's four reserved bits are clear. */
  lemma NextClusterIff(disk: Disk, p: Pbr, start: nat, n: nat)
    requires VolumeOk(p, start) && n < TWO_28
    ensures NextCluster(disk, p, n) == FatWord(disk, start, p, n)
    ensures NextCluster(disk, p, n) == FatEntry(disk, start, p, n)
            <==> VolumeWord(disk, start, p.reservedSectors * SECTOR + 4 * n) < TWO_28
  {
    NextClusterWord(disk, p, start, n);
    LowBits(FatWord(disk, start, p, n));
  }

  /** On a FAT sector of all ones next_cluster and the specification differ. */
  lemma ReservedBitsMisread(disk: Disk, p: Pbr, start: nat, n: nat)
    requires VolumeOk(p, start) && n < TWO_28
    requires disk(start + p.reservedSectors + n / 128) == seq(SECTOR, _ => 255)
    ensures NextCluster(disk, p, n) != FatEntry(disk, start, p, n)
  {
    FatWordReads(disk, p, start, n);
    NextClusterIff(disk, p, start, n);
  }

  /** read_cluster reads the whole cluster the layout names. */
  lemma ClusterSectorBytes(disk: Disk, p: Pbr, start: nat, n: nat, i: nat)
    requires VolumeOk(p, start) && DataCluster(n) && i < SECTOR
    ensures Addressable(p, n)
    ensures disk(ClusterSector(p, n))[i] == ClusterByte(disk, start, p, n, i)
  {
    var sector := BehindFats(p, p.fats) + (n - 2) * p.sectorsPerCluster;
    BehindFatsIs(p, p.fats);
    assert ClusterSector(p, n) == start + sector;
    SplitOffset(sector, i);
    assert ClusterByte(disk, start, p, n, i) == VolumeByte(disk, start, sector * SECTOR + i);
  }

  lemma {:induction false} ReadFileLength(disk: Disk, p: Pbr, cluster: nat, size: nat)
    requires Readable(disk, p, cluster, size)
    ensures |ReadFile(disk, p, cluster, size)| == size
    decreases size
  {
    if size >= SECTOR {
      ReadFileLength(disk, p, NextCluster(disk, p, cluster), size - SECTOR);
    }
  }

  lemma ChainStep(disk: Disk, p: Pbr, start: nat, cluster: nat, k: nat)
    ensures Chain(disk, start, p, cluster, k + 1) == Chain(disk, start, p, FatEntry(disk, start, p, cluster), k)
  {
  }

  /** A sound chain stays sound one link on, and the code takes that link. */
  lemma ChainRest(disk: Disk, p: Pbr, start: nat, cluster: nat, size: nat)
    requires VolumeOk(p, start) && size > SECTOR && ChainOk(disk, start, p, cluster, size)
    ensures NextCluster(disk, p, cluster) == FatEntry(disk, start, p, cluster)
    ensures ChainOk(disk, start, p, NextCluster(disk, p, cluster), size - SECTOR)
  {
    assert Chain(disk, start, p, cluster, 0) == cluster;
    NextClusterIff(disk, p, start, cluster);
    var next := FatEntry(disk, start, p, cluster);
    forall k: nat
      ensures k * SECTOR < size - SECTOR ==> DataCluster(Chain(disk, start, p, next, k))
      ensures (k + 1) * SECTOR < size - SECTOR ==> FatWord(disk, start, p, Chain(disk, start, p, next, k)) < TWO_28
    {
      ChainStep(disk, p, start, cluster, k);
    }
  }

  lemma {:induction false} ChainReadable(disk: Disk, p: Pbr, start: nat, cluster: nat, size: nat)
    requires VolumeOk(p, start) && ChainOk(disk, start, p, cluster, size)
    ensures Readable(disk, p, cluster, size)
    decreases size
  {
    if size > 0 {
      assert DataCluster(Chain(disk, start, p, cluster, 0));
    }
    if size > SECTOR {
      ChainRest(disk, p, start, cluster, size);
      ChainReadable(disk, p, start, NextCluster(disk, p, cluster), size - SECTOR);
    }
  }

  lemma ReadFileFirst(disk: Disk, p: Pbr, cluster: nat, size: nat, i: nat)
    requires Readable(disk, p, cluster, size) && i < size && i < SECTOR
    ensures |ReadFile(disk, p, cluster, size)| == size && i / SECTOR == 0 && i % SECTOR == i
    ensures ReadFile(disk, p, cluster, size)[i] == disk(ClusterSector(p, cluster))[i]
  {
    ReadFileLength(disk, p, cluster, size);
  }

  /** Byte `i` behind the first sector is byte `i - 512` of what is read from the next cluster on. */
  lemma ReadFileNext(disk: Disk, p: Pbr, cluster: nat, size: nat, i: nat)
    requires Readable(disk, p, cluster, size) && SECTOR <= i < size
    ensures var next := NextCluster(disk, p, cluster);
            && Readable(disk, p, next, size - SECTOR)
            && |ReadFile(disk, p, cluster, size)| == size && |ReadFile(disk, p, next, size - SECTOR)| == size - SECTOR
            && ReadFile(disk, p, cluster, size)[i] == ReadFile(disk, p, next, size - SECTOR)[i - SECTOR]
  {
    ReadFileLength(disk, p, cluster, size);
    ReadFileLength(disk, p, NextCluster(disk, p, cluster), size - SECTOR);
  }

  /** The cluster the loop reads k-th. */
  function Visited(disk: Disk, p: Pbr, cluster: nat, k: nat): nat
    decreases k
  {
    if k == 0 then cluster else Visited(disk, p, NextCluster(disk, p, cluster), k - 1)
  }

  /** Byte `o` behind k whole sectors comes from the k-th cluster visited. */
  lemma {:induction false} ReadFileAt(disk: Disk, p: Pbr, cluster: nat, size: nat, k: nat, o: nat)
    requires Readable(disk, p, cluster, size) && o < SECTOR && SECTOR * k + o < size
    ensures Addressable(p, Visited(disk, p, cluster, k)) && |ReadFile(disk, p, cluster, size)| == size
    ensures ReadFile(disk, p, cluster, size)[SECTOR * k + o] == disk(ClusterSector(p, Visited(disk, p, cluster, k)))[o]
    decreases k
  {
    if k == 0 {
      ReadFileFirst(disk, p, cluster, size, o);
    } else {
      ReadFileAt(disk, p, NextCluster(disk, p, cluster), size - SECTOR, k - 1, o);
      ReadFileNext(disk, p, cluster, size, SECTOR * k + o);
    }
  }

  /** On a sound chain the loop visits the chain's clusters. */
  lemma {:induction false} VisitsChain(disk: Disk, p: Pbr, start: nat, cluster: nat, size: nat, k: nat)
    requires VolumeOk(p, start) && ChainOk(disk, start, p, cluster, size) && SECTOR * k < size
    ensures Visited(disk, p, cluster, k) == Chain(disk, start, p, cluster, k)
    ensures DataCluster(Chain(disk, start, p, cluster, k))
    decreases k
  {
    if k > 0 {
      ChainRest(disk, p, start, cluster, size);
      ChainStep(disk, p, start, cluster, k - 1);
      VisitsChain(disk, p, start, NextCluster(disk, p, cluster), size - SECTOR, k - 1);
    }
  }

  /** fat32_read yields exactly `size` bytes, each the file's: byte i lies in the (i / 512)-th cluster
      of the chain, at i mod 512. This covers sizes that are multiples of 512 too. */
  lemma ReadFileByte(disk: Disk, p: Pbr, start: nat, cluster: nat, size: nat, i: nat)
    requires VolumeOk(p, start) && ChainOk(disk, start, p, cluster, size) && i < size
    ensures Readable(disk, p, cluster, size) && |ReadFile(disk, p, cluster, size)| == size
    ensures Chain(disk, start, p, cluster, i / SECTOR) >= 2
    ensures ReadFile(disk, p, cluster, size)[i] == FileByte(disk, start, p, cluster, i)
  {
    var n := Chain(disk, start, p, cluster, i / SECTOR);
    ChainReadable(disk, p, start, cluster, size);
    ReadFileAt(disk, p, cluster, size, i / SECTOR, i % SECTOR);
    VisitsChain(disk, p, start, cluster, size, i / SECTOR);
    ClusterSectorBytes(disk, p, start, n, i % SECTOR);
  }

  // ---------------------------------------------------------------- the reader as it runs

  method ReadCluster(disk: Disk, p: Pbr, cluster: nat, dest: array<Byte>, at: nat)
    requires Addressable(p, cluster) && at + SECTOR <= dest.Length
    modifies dest
    ensures dest[..] == old(dest[..at]) + disk(ClusterSector(p, cluster)) + old(dest[at + SECTOR..])
  {
    var data := disk(ClusterSector(p, cluster));
    forall i | 0 <= i < SECTOR {
      dest[at + i] := data[i];
    }
  }

  method CopyBytes(tmp: array<Byte>, count: nat, dest: array<Byte>, at: nat)
    requires tmp != dest && count <= tmp.Length && at + count <= dest.Length
    modifies dest
    ensures dest[..] == old(dest[..at]) + tmp[..count] + old(dest[at + count..])
  {
    for i := 0 to count
      invariant dest[..at] == old(dest[..at]) && dest[at..at + i] == tmp[..i]
      invariant dest[at + count..] == old(dest[at + count..])
    {
      dest[at + i] := tmp[i];
      assert dest[at..at + i + 1] == dest[at..at + i] + [tmp[i]];
    }
    assert dest[..] == dest[..at] + dest[at..at + count] + dest[at + count..];
  }

  /** The last, partial sector goes through a buffer of its own. */
  method ReadTail(disk: Disk, p: Pbr, cluster: nat, left: nat, dest: array<Byte>, at: nat)
    requires p.bytesPerSector == SECTOR && Addressable(p, cluster) && left < SECTOR && at + left <= dest.Length
    modifies dest
    ensures dest[..] == old(dest[..at]) + disk(ClusterSector(p, cluster))[..left] + old(dest[at + left..])
  {
    var tmp := new Byte[SECTOR](_ => 0);
    ReadCluster(disk, p, cluster, tmp, 0);
    assert tmp[..] == disk(ClusterSector(p, cluster));
    assert tmp[..left] == tmp[..][..left];
    CopyBytes(tmp, left, dest, at);
  }

  /** fat32_read once the directory entry is known: exactly `size` bytes of `dest` are written. */
  method Fat32Read(disk: Disk, p: Pbr, first: nat, size: nat, dest: array<Byte>)
    requires p.bytesPerSector == SECTOR && size <= dest.Length && Readable(disk, p, first, size)
    modifies dest
    ensures dest[..] == ReadFile(disk, p, first, size) + old(dest[size..])
  {
    ReadFileLength(disk, p, first, size);
    ghost var original := dest[..];
    var cluster, left, at := first, size, 0;
    while left > 0
      invariant 0 <= left && at + left == size && Readable(disk, p, cluster, left)
      invariant ReadFile(disk, p, first, size) == dest[..at] + ReadFile(disk, p, cluster, left)
      invariant dest[at..] == original[at..]
      decreases left
    {
      ReadFileLength(disk, p, cluster, left);
      ghost var before := dest[..];
      if left < p.bytesPerSector {
        ReadTail(disk, p, cluster, left, dest, at);
        assert before[at + left..] == original[size..] by {
          assert before[at..][left..] == before[at + left..];
          assert original[at..][left..] == original[at + left..];
        }
        return;
      }
      ReadCluster(disk, p, cluster, dest, at);
      FullSector(before, dest[..], disk(ClusterSector(p, cluster)), original, at);
      cluster := NextCluster(disk, p, cluster);
      left := left - SECTOR;
      at := at + SECTOR;
    }
    assert dest[..] == dest[..size] + dest[size..];
  }

  lemma FullSector(before: seq<Byte>, after: seq<Byte>, data: seq<Byte>, original: seq<Byte>, at: nat)
    requires |data| == SECTOR && at + SECTOR <= |before| == |original|
    requires after == before[..at] + data + before[at + SECTOR..] && before[at..] == original[at..]
    ensures after[..at + SECTOR] == before[..at] + data && after[at + SECTOR..] == original[at + SECTOR..]
  {
    assert before[at + SECTOR..] == before[at..][SECTOR..];
    assert original[at + SECTOR..] == original[at..][SECTOR..];
  }
}
