/** Two-level page tables (src/paging.cpp, src/stdlib.cpp), as section 5.2 of the Intel 80386
    Programmer's Reference Manual walks them. Pages and frames are numbered: address / 4096. */
module PagingModel {
  import opened Seqs

  const ENTRIES := 1024
  const TWO_20 := 0x10_0000
  const PAGE_START := 0x7_8405   // free_memory_page_start / 4096
  const PAGE_END := 0x7_E805     // 25600 pages later

  datatype Pte = Pte(present: bool, rw: bool, user: bool, address: nat)

  type Page = s: seq<Pte> | |s| == ENTRIES witness seq(ENTRIES, _ => Pte(false, false, false, 0))

  const NO_ENTRY := Pte(false, false, false, 0)

  function ZeroPage(): (page: Page)
    ensures forall i :: 0 <= i < ENTRIES ==> page[i] == NO_ENTRY
  {
    seq(ENTRIES, _ => NO_ENTRY)
  }

  /** The pages handed out so far, with their contents as entries, and the next page to hand out. */
  datatype Memory = Memory(pages: map<nat, Page>, next: nat)

  type PageNumber = p: nat | p < TWO_20

  /** The entry's 20-bit address field. */
  function Address(frame: nat): nat { if frame < TWO_20 then frame else frame % TWO_20 }

  // ---------------------------------------------------------------- operations

  /** alloc_page: page `m.next`, zeroed. */
  function Alloc(m: Memory): Memory {
    Memory(m.pages[m.next := ZeroPage()], m.next + 1)
  }

  function PageAt(m: Memory, frame: nat): Page { if frame in m.pages then m.pages[frame] else ZeroPage() }

  function SetEntry(m: Memory, frame: nat, index: nat, e: Pte): Memory
    requires index < ENTRIES
  {
    m.(pages := m.pages[frame := PageAt(m, frame)[index := e]])
  }

  /** The directory entry for slot `i`, with a new zeroed table if there was none. */
  function Populate(m: Memory, dir: nat, i: nat, user: bool): Memory
    requires i < ENTRIES
  {
    if PageAt(m, dir)[i].present then m
    else SetEntry(Alloc(m), dir, i, Pte(true, true, user, Address(m.next)))
  }

  /** add_memory_mapping on aligned addresses. */
  function Map(m: Memory, dir: nat, p: PageNumber, frame: nat, user: bool): Memory {
    var m' := Populate(m, dir, p / ENTRIES, user);
    SetEntry(m', PageAt(m', dir)[p / ENTRIES].address, p % ENTRIES, Pte(true, true, user, Address(frame)))
  }

  /** The hardware walk of page `p`, as check_address_mapping performs it. */
  function Walk(m: Memory, dir: nat, p: PageNumber): Option<nat> {
    var d := PageAt(m, dir)[p / ENTRIES];
    if !d.present then None
    else
      var e := PageAt(m, d.address)[p % ENTRIES];
      if e.present then Some(e.address) else None
  }

  /** The translation of a 32-bit address. */
  function Translate(m: Memory, dir: nat, address: nat): Option<nat>
    requires address < 0x1_0000_0000
  {
    match Walk(m, dir, address / 4096)
    case None => None
    case Some(frame) => Some(frame * 4096 + address % 4096)
  }

  /** Identity mappings of pages start .. start + n - 1, in ascending order. */
  function MapRange(m: Memory, dir: nat, start: nat, n: nat, user: bool): Memory
    requires start + n <= TWO_20
    decreases n, dir    // with `dir`, so that the constant ranges are not unrolled
  {
    if n == 0 then m
    else Map(MapRange(m, dir, start, n - 1, user), dir, start + n - 1, start + n - 1, user)
  }

  /** Kernel_maps, in pages. */
  const KERNEL_MAPS: seq<(nat, nat)> := [
    (0, 1024), (0x4_0005, 0xc800), (0x4_c805, 0x6400), (0x5_2c05, 0x6400), (0x5_9005, 0x1_f400), (0x7_8405, 0x6400)]

  function MapRanges(m: Memory, dir: nat, k: nat, user: bool): Memory
    requires k <= 6
    decreases k, dir
  {
    if k == 0 then m
    else MapRange(MapRanges(m, dir, k - 1, user), dir, KERNEL_MAPS[k - 1].0, KERNEL_MAPS[k - 1].1, user)
  }

  /** add_kernel_mappings */
  function MapKernel(m: Memory, dir: nat, user: bool): Memory { MapRanges(m, dir, 6, user) }

  /** copy_process_mapping, when `count` is at most 4 MB: one directory entry. */
  function CopySlot(m: Memory, kernel: nat, process: nat, slot: nat): Memory
    requires slot < ENTRIES
  {
    SetEntry(m, kernel, slot, PageAt(m, process)[slot])
  }

  // ---------------------------------------------------------------- one directory

  /** Pages handed out are those before `next`; the 100 MB are not exhausted. */
  ghost predicate MemoryOk(m: Memory) {
    && PAGE_START <= m.next <= PAGE_END
    && (forall f :: f in m.pages <==> PAGE_START <= f < m.next)
  }

  function Slot(m: Memory, dir: nat, i: nat): Pte
    requires i < ENTRIES
  {
    PageAt(m, dir)[i]
  }

  /** The directory's tables are pages of their own, one per populated slot. */
  ghost predicate DirOk(m: Memory, dir: nat) {
    && dir in m.pages
    && (forall i :: 0 <= i < ENTRIES && Slot(m, dir, i).present ==>
          Slot(m, dir, i).address in m.pages && Slot(m, dir, i).address != dir)
    && (forall i, j :: 0 <= i < j < ENTRIES && Slot(m, dir, i).present && Slot(m, dir, j).present ==>
          Slot(m, dir, i).address != Slot(m, dir, j).address)
  }

  lemma PopulateEffect(m: Memory, dir: nat, i: nat, user: bool)
    requires MemoryOk(m) && dir in m.pages && i < ENTRIES && Populate(m, dir, i, user).next <= PAGE_END
    ensures var m' := Populate(m, dir, i, user);
            && MemoryOk(m') && dir in m'.pages && Slot(m', dir, i).present
            && (Slot(m, dir, i).present ==> m' == m)
            && (!Slot(m, dir, i).present ==>
                  && m'.next == m.next + 1
                  && Slot(m', dir, i) == Pte(true, true, user, m.next)
                  && m.next in m'.pages && PageAt(m', m.next) == ZeroPage())
            && (forall j :: 0 <= j < ENTRIES && j != i ==> Slot(m', dir, j) == Slot(m, dir, j))
            && (forall f :: f in m.pages && f != dir ==> f in m'.pages && PageAt(m', f) == PageAt(m, f))
  {
    var m' := Populate(m, dir, i, user);
    if !Slot(m, dir, i).present {
      assert m' == Memory(m.pages[m.next := ZeroPage()][dir := m.pages[dir][i := Pte(true, true, user, m.next)]], m.next + 1);
    }
  }

  lemma PopulateDirOk(m: Memory, dir: nat, i: nat, user: bool)
    requires MemoryOk(m) && DirOk(m, dir) && i < ENTRIES && Populate(m, dir, i, user).next <= PAGE_END
    ensures DirOk(Populate(m, dir, i, user), dir)
  {
    var m' := Populate(m, dir, i, user);
    PopulateEffect(m, dir, i, user);
    forall j | 0 <= j < ENTRIES && Slot(m', dir, j).present
      ensures Slot(m', dir, j).address in m'.pages && Slot(m', dir, j).address != dir
    {
      assert j != i ==> Slot(m, dir, j).present && Slot(m, dir, j).address in m.pages;
    }
    forall j, k | 0 <= j < k < ENTRIES && Slot(m', dir, j).present && Slot(m', dir, k).present
      ensures Slot(m', dir, j).address != Slot(m', dir, k).address
    {
      assert j != i ==> Slot(m, dir, j).present && Slot(m, dir, j).address in m.pages;
      assert k != i ==> Slot(m, dir, k).present && Slot(m, dir, k).address in m.pages;
    }
  }

  /** Populating a slot with an empty table changes no translation. */
  lemma PopulateWalk(m: Memory, dir: nat, i: nat, user: bool, p: PageNumber)
    requires MemoryOk(m) && DirOk(m, dir) && i < ENTRIES && Populate(m, dir, i, user).next <= PAGE_END
    ensures Walk(Populate(m, dir, i, user), dir, p) == Walk(m, dir, p)
  {
    PopulateEffect(m, dir, i, user);
    var j := p / ENTRIES;
    if j != i && Slot(m, dir, j).present {
      assert Slot(m, dir, j).address in m.pages && Slot(m, dir, j).address != dir;
    }
  }

  /** Writing one entry of a populated table. */
  lemma SetEntryEffect(m: Memory, table: nat, index: nat, e: Pte)
    requires MemoryOk(m) && table in m.pages && index < ENTRIES
    ensures var m' := SetEntry(m, table, index, e);
            && MemoryOk(m') && m'.next == m.next
            && PageAt(m', table) == PageAt(m, table)[index := e]
            && (forall f :: f in m.pages <==> f in m'.pages)
            && (forall f :: f != table ==> PageAt(m', f) == PageAt(m, f))
  {
  }

  lemma PageSplit(p: PageNumber, q: PageNumber)
    ensures p / ENTRIES < ENTRIES
    ensures p / ENTRIES == q / ENTRIES && p % ENTRIES == q % ENTRIES ==> p == q
  {
  }

  lemma SetEntryWalk(m: Memory, dir: nat, p: PageNumber, e: Pte, q: PageNumber)
    requires MemoryOk(m) && DirOk(m, dir) && Slot(m, dir, p / ENTRIES).present && e.present
    ensures var m' := SetEntry(m, Slot(m, dir, p / ENTRIES).address, p % ENTRIES, e);
            Walk(m', dir, q) == if q == p then Some(e.address) else Walk(m, dir, q)
  {
    var table := Slot(m, dir, p / ENTRIES).address;
    SetEntryEffect(m, table, p % ENTRIES, e);
    PageSplit(p, q);
    if q / ENTRIES != p / ENTRIES && Slot(m, dir, q / ENTRIES).present {
      assert Slot(m, dir, q / ENTRIES).address != table;
    }
  }

  /** The page table entry a walk of page `p` ends in. */
  function EntryOf(m: Memory, dir: nat, p: PageNumber): Pte { PageAt(m, Slot(m, dir, p / ENTRIES).address)[p % ENTRIES] }

  /** What one add_memory_mapping does, for the directory it is given. */
  ghost predicate Mapped(m: Memory, m': Memory, dir: nat, p: PageNumber, frame: nat) {
    && MemoryOk(m') && DirOk(m', dir)
    && (forall q: PageNumber :: Walk(m', dir, q) == if q == p then Some(frame) else Walk(m, dir, q))
    && m'.next == m.next + (if Slot(m, dir, p / ENTRIES).present then 0 else 1)
    && (forall i :: 0 <= i < ENTRIES && i != p / ENTRIES ==> Slot(m', dir, i) == Slot(m, dir, i))
    && Slot(m', dir, p / ENTRIES).present
    && (Slot(m, dir, p / ENTRIES).present ==> Slot(m', dir, p / ENTRIES) == Slot(m, dir, p / ENTRIES))
    && (!Slot(m, dir, p / ENTRIES).present ==> Slot(m', dir, p / ENTRIES).address == m.next)
  }

  /** add_memory_mapping on one directory: the page translates to the new frame, every other page as
      before, a table page is handed out exactly when the slot was empty, and the entry is writable and
      open to user code exactly as asked. */
  lemma MapWalk(m: Memory, dir: nat, p: PageNumber, frame: PageNumber, user: bool)
    requires MemoryOk(m) && DirOk(m, dir) && Map(m, dir, p, frame, user).next <= PAGE_END
    ensures Mapped(m, Map(m, dir, p, frame, user), dir, p, frame)
    ensures EntryOf(Map(m, dir, p, frame, user), dir, p) == Pte(true, true, user, frame)
    ensures !Slot(m, dir, p / ENTRIES).present ==>
              Slot(Map(m, dir, p, frame, user), dir, p / ENTRIES) == Pte(true, true, user, m.next)
  {
    var i := p / ENTRIES;
    var m1, m' := Populate(m, dir, i, user), Map(m, dir, p, frame, user);
    var e := Pte(true, true, user, frame);
    PopulateEffect(m, dir, i, user);
    PopulateDirOk(m, dir, i, user);
    var table := Slot(m1, dir, i).address;
    SetEntryEffect(m1, table, p % ENTRIES, e);
    assert forall j :: 0 <= j < ENTRIES ==> Slot(m', dir, j) == Slot(m1, dir, j);
    forall q: PageNumber ensures Walk(m', dir, q) == if q == p then Some(frame) else Walk(m, dir, q) {
      PopulateWalk(m, dir, i, user, q);
      SetEntryWalk(m1, dir, p, e, q);
    }
  }

  /** No other entry is written. */
  lemma MapOtherEntry(m: Memory, dir: nat, p: PageNumber, frame: PageNumber, user: bool, q: PageNumber)
    requires MemoryOk(m) && DirOk(m, dir) && Map(m, dir, p, frame, user).next <= PAGE_END
    requires q != p && Slot(m, dir, q / ENTRIES).present
    ensures EntryOf(Map(m, dir, p, frame, user), dir, q) == EntryOf(m, dir, q)
  {
    var i := p / ENTRIES;
    var m1 := Populate(m, dir, i, user);
    PopulateEffect(m, dir, i, user);
    PopulateDirOk(m, dir, i, user);
    SetEntryEffect(m1, Slot(m1, dir, i).address, p % ENTRIES, Pte(true, true, user, frame));
    MapWalk(m, dir, p, frame, user);
    PageSplit(p, q);
    assert Slot(m, dir, q / ENTRIES).address in m.pages && Slot(m, dir, q / ENTRIES).address != dir;
    assert q / ENTRIES != i ==> Slot(m1, dir, q / ENTRIES).address != Slot(m1, dir, i).address;
  }

  // ---------------------------------------------------------------- any sequence of mappings

  datatype Mapping = Mapping(page: PageNumber, frame: PageNumber, user: bool)

  function MapAll(m: Memory, dir: nat, maps: seq<Mapping>): Memory
    decreases |maps|
  {
    if maps == [] then m
    else MapAll(Map(m, dir, maps[0].page, maps[0].frame, maps[0].user), dir, maps[1..])
  }

  /** Reference: the last mapping made for a page. */
  function LastFrame(maps: seq<Mapping>, p: PageNumber): Option<nat>
  {
    if maps == [] then None
    else match LastFrame(maps[1..], p)
      case Some(f) => Some(f)
      case None => if maps[0].page == p then Some(maps[0].frame) else None
  }

  lemma {:induction false} MapAllNext(m: Memory, dir: nat, maps: seq<Mapping>)
    ensures m.next <= MapAll(m, dir, maps).next
    decreases |maps|
  {
    if maps != [] {
      MapAllNext(Map(m, dir, maps[0].page, maps[0].frame, maps[0].user), dir, maps[1..]);
    }
  }

  lemma {:induction false} MapAllWalk(m: Memory, dir: nat, maps: seq<Mapping>, p: PageNumber)
    requires MemoryOk(m) && DirOk(m, dir) && MapAll(m, dir, maps).next <= PAGE_END
    ensures var m' := MapAll(m, dir, maps);
            && MemoryOk(m') && DirOk(m', dir)
            && Walk(m', dir, p) == match LastFrame(maps, p)
                                   case Some(f) => Some(f)
                                   case None => Walk(m, dir, p)
    decreases |maps|
  {
    if maps != [] {
      MapAllNext(Map(m, dir, maps[0].page, maps[0].frame, maps[0].user), dir, maps[1..]);
      MapWalk(m, dir, maps[0].page, maps[0].frame, maps[0].user);
      MapAllWalk(Map(m, dir, maps[0].page, maps[0].frame, maps[0].user), dir, maps[1..], p);
    }
  }

  /** Reference: bits 22 to 31 of an address choose a directory entry, bits 12 to 21 an entry of its
      table, and that entry's frame replaces them. */
  function Hardware(m: Memory, dir: nat, address: nat): Option<nat>
    requires address < 0x1_0000_0000
  {
    var d := PageAt(m, dir)[address / 0x40_0000];
    if !d.present then None
    else
      var e := PageAt(m, d.address)[address % 0x40_0000 / 0x1000];
      if e.present then Some(e.address * 0x1000 + address % 0x1000) else None
  }

  lemma TranslateIsHardware(m: Memory, dir: nat, address: nat)
    requires address < 0x1_0000_0000
    ensures Translate(m, dir, address) == Hardware(m, dir, address)
  {
    var p := address / 4096;
    assert p / ENTRIES == address / 0x40_0000;
    assert p % ENTRIES == address % 0x40_0000 / 0x1000;
  }

  /** A fresh directory after any sequence of aligned mappings translates every 32-bit address to the
      last frame mapped for its page plus its low 12 bits, and nothing else is present. */
  lemma FreshDirectoryTranslates(m: Memory, maps: seq<Mapping>, address: nat)
    requires MemoryOk(m) && MapAll(Alloc(m), m.next, maps).next <= PAGE_END && address < 0x1_0000_0000
    ensures var m0, dir := Alloc(m), m.next;
            Hardware(MapAll(m0, dir, maps), dir, address)
            == match LastFrame(maps, address / 4096)
               case Some(f) => Some(f * 4096 + address % 4096)
               case None => None
  {
    var m0, dir := Alloc(m), m.next;
    MapAllNext(m0, dir, maps);
    assert DirOk(m0, dir);
    MapAllWalk(m0, dir, maps, address / 4096);
    TranslateIsHardware(MapAll(m0, dir, maps), dir, address);
  }
}
