/** add_kernel_mappings: what it maps and how many page tables it takes (src/paging.cpp, src/kernel.h). */
module PagingKernel {
  import opened Seqs
  import opened PagingModel

  /** Present entries among the first `k` of a page. */
  function CountPresent(page: Page, k: nat): nat
    requires k <= ENTRIES
  {
    if k == 0 then 0 else CountPresent(page, k - 1) + if page[k - 1].present then 1 else 0
  }

  function Populated(m: Memory, dir: nat): nat { CountPresent(PageAt(m, dir), ENTRIES) }

  lemma {:induction false} CountUpdate(before: Page, after: Page, i: nat, k: nat)
    requires k <= ENTRIES && i < ENTRIES && after[i].present
    requires forall j :: 0 <= j < ENTRIES && j != i ==> after[j] == before[j]
    ensures CountPresent(after, k) == CountPresent(before, k) + (if i < k && !before[i].present then 1 else 0)
  {
    if k > 0 {
      CountUpdate(before, after, i, k - 1);
    }
  }

  /** Each mapping hands out as many pages as it populates slots. */
  lemma MapCount(m: Memory, dir: nat, p: PageNumber, frame: PageNumber, user: bool)
    requires MemoryOk(m) && DirOk(m, dir) && Map(m, dir, p, frame, user).next <= PAGE_END
    ensures var m' := Map(m, dir, p, frame, user);
            && Mapped(m, m', dir, p, frame)
            && m'.next - m.next == Populated(m', dir) - Populated(m, dir)
  {
    MapWalk(m, dir, p, frame, user);
    var m' := Map(m, dir, p, frame, user);
    assert forall j :: 0 <= j < ENTRIES && j != p / ENTRIES ==> Slot(m', dir, j) == Slot(m, dir, j);
    CountUpdate(PageAt(m, dir), PageAt(m', dir), p / ENTRIES, ENTRIES);
  }

  /** Over any sequence of mappings, the pages handed out are the slots newly populated. */
  lemma {:induction false} MapAllCount(m: Memory, dir: nat, maps: seq<Mapping>)
    requires MemoryOk(m) && DirOk(m, dir) && MapAll(m, dir, maps).next <= PAGE_END
    ensures MapAll(m, dir, maps).next - m.next == Populated(MapAll(m, dir, maps), dir) - Populated(m, dir)
    decreases |maps|
  {
    if maps != [] {
      var next := Map(m, dir, maps[0].page, maps[0].frame, maps[0].user);
      MapAllNext(next, dir, maps[1..]);
      MapCount(m, dir, maps[0].page, maps[0].frame, maps[0].user);
      MapAllCount(next, dir, maps[1..]);
    }
  }

  /** Well-formed as before, with one page handed out per slot populated. */
  ghost predicate Grown(m: Memory, m': Memory, dir: nat) {
    && MemoryOk(m') && DirOk(m', dir)
    && m'.next - m.next == Populated(m', dir) - Populated(m, dir)
  }

  predicate SlotOf(start: nat, n: nat, i: nat) { n > 0 && start / ENTRIES <= i <= (start + n - 1) / ENTRIES }

  lemma {:induction false} RangeNext(m: Memory, dir: nat, start: nat, n: nat, user: bool)
    requires start + n <= TWO_20
    ensures m.next <= MapRange(m, dir, start, n, user).next
    decreases n
  {
    if n > 0 {
      RangeNext(m, dir, start, n - 1, user);
    }
  }

  lemma {:induction false} RangesNext(m: Memory, dir: nat, k: nat, user: bool)
    requires k <= 6
    ensures m.next <= MapRanges(m, dir, k, user).next
    decreases k
  {
    if k > 0 {
      RangesNext(m, dir, k - 1, user);
      RangeNext(MapRanges(m, dir, k - 1, user), dir, KERNEL_MAPS[k - 1].0, KERNEL_MAPS[k - 1].1, user);
    }
  }

  /** `m'` is `m` with the pages start .. start + n - 1 mapped onto themselves. */
  ghost predicate RangeMapped(m: Memory, m': Memory, dir: nat, start: nat, n: nat) {
    && Grown(m, m', dir)
    && (forall q: PageNumber :: Walk(m', dir, q) == if start <= q < start + n then Some(q) else Walk(m, dir, q))
    && (forall i :: 0 <= i < ENTRIES ==>
          (Slot(m', dir, i).present <==> Slot(m, dir, i).present || SlotOf(start, n, i)))
  }

  lemma RangeStep(m: Memory, mid: Memory, dir: nat, start: nat, n: nat, user: bool)
    requires n > 0 && start + n <= TWO_20 && RangeMapped(m, mid, dir, start, n - 1)
    requires Map(mid, dir, start + n - 1, start + n - 1, user).next <= PAGE_END
    ensures RangeMapped(m, Map(mid, dir, start + n - 1, start + n - 1, user), dir, start, n)
  {
    MapCount(mid, dir, start + n - 1, start + n - 1, user);
    SlotStep(start, n);
  }

  lemma {:induction false} RangeIdentity(m: Memory, dir: nat, start: nat, n: nat, user: bool)
    requires MemoryOk(m) && DirOk(m, dir) && start + n <= TWO_20
    requires MapRange(m, dir, start, n, user).next <= PAGE_END
    ensures RangeMapped(m, MapRange(m, dir, start, n, user), dir, start, n)
    decreases n
  {
    if n > 0 {
      var mid := MapRange(m, dir, start, n - 1, user);
      RangeIdentity(m, dir, start, n - 1, user);
      RangeStep(m, mid, dir, start, n, user);
    }
  }

  lemma SlotStep(start: nat, n: nat)
    requires n > 0
    ensures forall i :: SlotOf(start, n, i) <==> SlotOf(start, n - 1, i) || i == (start + n - 1) / ENTRIES
  {
  }

  /** The first 4 MB, and 0x40005000 to 0x7E805000. */
  predicate KernelPage(q: nat) { q < 1024 || 0x4_0005 <= q < 0x7_E805 }

  /** Pages of the first `k` kernel ranges; after the first they follow each other without a gap. */
  predicate InRanges(k: nat, q: nat) {
    k > 0 && (q < 1024 || (0x4_0005 <= q < RangeEnd(k)))
  }

  function RangeEnd(k: nat): nat {
    if k <= 1 then 0x4_0005 else if k == 2 then 0x4_c805 else if k == 3 then 0x5_2c05
    else if k == 4 then 0x5_9005 else if k == 5 then 0x7_8405 else PAGE_END
  }

  lemma RangesFollow(k: nat)
    requires 0 < k < 6
    ensures KERNEL_MAPS[k].0 == RangeEnd(k) && RangeEnd(k) + KERNEL_MAPS[k].1 == RangeEnd(k + 1)
  {
  }

  lemma {:induction false} RangesIdentity(m: Memory, dir: nat, k: nat, user: bool)
    requires MemoryOk(m) && DirOk(m, dir) && k <= 6
    requires MapRanges(m, dir, k, user).next <= PAGE_END
    ensures Grown(m, MapRanges(m, dir, k, user), dir)
    ensures forall q: PageNumber :: Walk(MapRanges(m, dir, k, user), dir, q)
                                    == if InRanges(k, q) then Some(q) else Walk(m, dir, q)
    ensures forall i :: 0 <= i < ENTRIES ==>
              (Slot(MapRanges(m, dir, k, user), dir, i).present
               <==> Slot(m, dir, i).present || InSlots(k, i))
    decreases k
  {
    if k > 0 {
      RangeNext(MapRanges(m, dir, k - 1, user), dir, KERNEL_MAPS[k - 1].0, KERNEL_MAPS[k - 1].1, user);
      RangesIdentity(m, dir, k - 1, user);
      var mid := MapRanges(m, dir, k - 1, user);
      var start, n := KERNEL_MAPS[k - 1].0, KERNEL_MAPS[k - 1].1;
      if k > 1 {
        RangesFollow(k - 1);
      }
      RangeIdentity(mid, dir, start, n, user);
      SlotsFollow(k);
    }
  }

  predicate InSlots(k: nat, i: nat) {
    k > 0 && (i == 0 || (k > 1 && 256 <= i <= (RangeEnd(k) - 1) / ENTRIES))
  }

  lemma SlotsFollow(k: nat)
    requires 0 < k <= 6
    ensures forall i :: InSlots(k, i)
                        <==> InSlots(k - 1, i) || SlotOf(KERNEL_MAPS[k - 1].0, KERNEL_MAPS[k - 1].1, i)
  {
    assert k == 1 || k == 2 || k == 3 || k == 4 || k == 5 || k == 6;
  }

  // ---------------------------------------------------------------- privileges

  /** Old slots are kept; new ones are writable and open to user code as asked. */
  ghost predicate SlotsGranted(m: Memory, m': Memory, dir: nat, user: bool) {
    forall i :: 0 <= i < ENTRIES ==>
      if Slot(m, dir, i).present then Slot(m', dir, i) == Slot(m, dir, i)
      else Slot(m', dir, i).present ==> Slot(m', dir, i).rw && Slot(m', dir, i).user == user
  }

  ghost predicate RangeGranted(m: Memory, m': Memory, dir: nat, start: nat, n: nat, user: bool) {
    && SlotsGranted(m, m', dir, user)
    && (forall q: PageNumber :: start <= q < start + n ==> EntryOf(m', dir, q) == Pte(true, true, user, q))
    && (forall q: PageNumber :: !(start <= q < start + n) && Slot(m, dir, q / ENTRIES).present ==>
          EntryOf(m', dir, q) == EntryOf(m, dir, q))
  }

  /** Granting one range and then the next, while the first one's tables stay in their slots. */
  lemma GrantBoth(m: Memory, mid: Memory, m': Memory, dir: nat, start: nat, a: nat, b: nat, user: bool)
    requires RangeGranted(m, mid, dir, start, a, user) && RangeGranted(mid, m', dir, start + a, b, user)
    requires forall q: PageNumber :: start <= q < start + a ==> Slot(mid, dir, q / ENTRIES).present
    ensures RangeGranted(m, m', dir, start, a + b, user)
  {
    forall q: PageNumber | !(start <= q < start + a + b) && Slot(m, dir, q / ENTRIES).present
      ensures EntryOf(m', dir, q) == EntryOf(m, dir, q)
    {
      assert Slot(mid, dir, q / ENTRIES) == Slot(m, dir, q / ENTRIES);
    }
    forall i | 0 <= i < ENTRIES && Slot(mid, dir, i).present ensures Slot(m', dir, i) == Slot(mid, dir, i) {
    }
  }

  lemma RangePresent(m: Memory, mid: Memory, dir: nat, start: nat, n: nat)
    requires RangeMapped(m, mid, dir, start, n)
    ensures forall q: PageNumber :: start <= q < start + n ==> Slot(mid, dir, q / ENTRIES).present
  {
    forall q: PageNumber | start <= q < start + n ensures Slot(mid, dir, q / ENTRIES).present {
      assert SlotOf(start, n, q / ENTRIES);
    }
  }

  lemma MapEntries(m: Memory, m': Memory, dir: nat, p: PageNumber, user: bool)
    requires MemoryOk(m) && DirOk(m, dir) && m' == Map(m, dir, p, p, user) && m'.next <= PAGE_END
    ensures RangeGranted(m, m', dir, p, 1, user)
  {
    MapWalk(m, dir, p, p, user);
    forall q: PageNumber | q != p && Slot(m, dir, q / ENTRIES).present
      ensures EntryOf(m', dir, q) == EntryOf(m, dir, q)
    {
      MapOtherEntry(m, dir, p, p, user, q);
    }
  }

  lemma GrantLast(m: Memory, mid: Memory, m': Memory, dir: nat, start: nat, n: nat, user: bool)
    requires n > 0 && start + n <= TWO_20
    requires RangeMapped(m, mid, dir, start, n - 1) && RangeGranted(m, mid, dir, start, n - 1, user)
    requires m' == Map(mid, dir, start + n - 1, start + n - 1, user) && m'.next <= PAGE_END
    ensures RangeGranted(m, m', dir, start, n, user)
  {
    RangePresent(m, mid, dir, start, n - 1);
    MapEntries(mid, m', dir, start + n - 1, user);
    GrantBoth(m, mid, m', dir, start, n - 1, 1, user);
  }

  lemma {:induction false} RangeGrants(m: Memory, dir: nat, start: nat, n: nat, user: bool)
    requires MemoryOk(m) && DirOk(m, dir) && start + n <= TWO_20
    requires MapRange(m, dir, start, n, user).next <= PAGE_END
    ensures RangeGranted(m, MapRange(m, dir, start, n, user), dir, start, n, user)
    decreases n
  {
    if n > 0 {
      var mid, m' := MapRange(m, dir, start, n - 1, user), MapRange(m, dir, start, n, user);
      RangeIdentity(m, dir, start, n - 1, user);
      RangeGrants(m, dir, start, n - 1, user);
      GrantLast(m, mid, m', dir, start, n, user);
    }
  }

  ghost predicate RangesGranted(m: Memory, m': Memory, dir: nat, k: nat, user: bool) {
    && SlotsGranted(m, m', dir, user)
    && (forall q: PageNumber :: InRanges(k, q) ==> EntryOf(m', dir, q) == Pte(true, true, user, q))
    && (forall q: PageNumber :: !InRanges(k, q) && Slot(m, dir, q / ENTRIES).present ==>
          EntryOf(m', dir, q) == EntryOf(m, dir, q))
  }

  /** Pages of the kernel ranges lie in their slots. */
  lemma RangesSlots(k: nat, q: PageNumber)
    requires k <= 6 && InRanges(k, q)
    ensures InSlots(k, q / ENTRIES)
  {
    assert k == 1 || k == 2 || k == 3 || k == 4 || k == 5 || k == 6;
  }

  lemma RangesGrantStep(m: Memory, mid: Memory, m': Memory, dir: nat, k: nat, user: bool)
    requires 0 < k <= 6 && RangesGranted(m, mid, dir, k - 1, user)
    requires RangeGranted(mid, m', dir, KERNEL_MAPS[k - 1].0, KERNEL_MAPS[k - 1].1, user)
    requires forall i :: 0 <= i < ENTRIES && (Slot(m, dir, i).present || InSlots(k - 1, i)) ==> Slot(mid, dir, i).present
    ensures RangesGranted(m, m', dir, k, user)
  {
    var start, n := KERNEL_MAPS[k - 1].0, KERNEL_MAPS[k - 1].1;
    if k > 1 {
      RangesFollow(k - 1);
    }
    forall q: PageNumber | InRanges(k - 1, q) ensures Slot(mid, dir, q / ENTRIES).present {
      RangesSlots(k - 1, q);
    }
    forall q: PageNumber ensures InRanges(k, q) <==> InRanges(k - 1, q) || start <= q < start + n {
    }
  }

  lemma {:induction false} RangesGrant(m: Memory, dir: nat, k: nat, user: bool)
    requires MemoryOk(m) && DirOk(m, dir) && k <= 6
    requires MapRanges(m, dir, k, user).next <= PAGE_END
    ensures RangesGranted(m, MapRanges(m, dir, k, user), dir, k, user)
    decreases k
  {
    if k > 0 {
      var start, n := KERNEL_MAPS[k - 1].0, KERNEL_MAPS[k - 1].1;
      RangeInSpace(k);
      RangeNext(MapRanges(m, dir, k - 1, user), dir, start, n, user);
      RangesGrant(m, dir, k - 1, user);
      RangesGrantNext(m, MapRanges(m, dir, k - 1, user), dir, k, start, n, user);
    }
  }

  lemma RangesGrantNext(m: Memory, mid: Memory, dir: nat, k: nat, start: nat, n: nat, user: bool)
    requires 0 < k <= 6 && start == KERNEL_MAPS[k - 1].0 && n == KERNEL_MAPS[k - 1].1 && start + n <= TWO_20
    requires MemoryOk(m) && DirOk(m, dir) && mid == MapRanges(m, dir, k - 1, user) && mid.next <= PAGE_END
    requires RangesGranted(m, mid, dir, k - 1, user) && MapRange(mid, dir, start, n, user).next <= PAGE_END
    ensures RangesGranted(m, MapRange(mid, dir, start, n, user), dir, k, user)
  {
    RangesIdentity(m, dir, k - 1, user);
    RangeGrants(mid, dir, start, n, user);
    RangesGrantStep(m, mid, MapRange(mid, dir, start, n, user), dir, k, user);
  }

  lemma RangeInSpace(k: nat)
    requires 0 < k <= 6
    ensures KERNEL_MAPS[k - 1].0 + KERNEL_MAPS[k - 1].1 <= TWO_20
  {
    if k > 1 {
      RangesFollow(k - 1);
    }
  }

  /** add_kernel_mappings: the identity on all six kernel ranges, every other translation unchanged,
      and one page table per newly populated slot; each entry written, in a table or in the directory,
      is writable and open to user code exactly as asked, and no other entry changes. */
  lemma KernelIdentity(m: Memory, dir: nat, user: bool)
    requires MemoryOk(m) && DirOk(m, dir) && MapKernel(m, dir, user).next <= PAGE_END
    ensures Grown(m, MapKernel(m, dir, user), dir)
    ensures forall q: PageNumber :: Walk(MapKernel(m, dir, user), dir, q)
                                    == if KernelPage(q) then Some(q) else Walk(m, dir, q)
    ensures forall i :: 0 <= i < ENTRIES ==>
              (Slot(MapKernel(m, dir, user), dir, i).present
               <==> Slot(m, dir, i).present || i == 0 || 256 <= i <= 506)
    ensures SlotsGranted(m, MapKernel(m, dir, user), dir, user)
    ensures forall q: PageNumber :: KernelPage(q) ==>
              EntryOf(MapKernel(m, dir, user), dir, q) == Pte(true, true, user, q)
    ensures forall q: PageNumber :: !KernelPage(q) && Slot(m, dir, q / ENTRIES).present ==>
              EntryOf(MapKernel(m, dir, user), dir, q) == EntryOf(m, dir, q)
  {
    RangesIdentity(m, dir, 6, user);
    RangesGrant(m, dir, 6, user);
    assert forall q :: KernelPage(q) <==> InRanges(6, q);
  }

  lemma {:induction false} CountBound(page: Page, k: nat)
    requires k <= ENTRIES
    ensures CountPresent(page, k) <= k
    ensures forall i :: 0 <= i < k && !page[i].present ==> CountPresent(page, k) < k
  {
    if k > 0 {
      CountBound(page, k - 1);
    }
  }

  /** With a page left for every empty slot, no range can exhaust the pages. */
  ghost predicate TablesFit(m: Memory, dir: nat) { m.next + ENTRIES - Populated(m, dir) <= PAGE_END }

  lemma {:induction false} RangeFits(m: Memory, dir: nat, start: nat, n: nat, user: bool)
    requires MemoryOk(m) && DirOk(m, dir) && start + n <= TWO_20 && TablesFit(m, dir)
    ensures MapRange(m, dir, start, n, user).next <= PAGE_END
    decreases n
  {
    if n > 0 {
      RangeFits(m, dir, start, n - 1, user);
      RangeIdentity(m, dir, start, n - 1, user);
      CountBound(PageAt(MapRange(m, dir, start, n - 1, user), dir), ENTRIES);
    }
  }

  lemma {:induction false} RangesFit(m: Memory, dir: nat, k: nat, user: bool)
    requires MemoryOk(m) && DirOk(m, dir) && k <= 6 && TablesFit(m, dir)
    ensures MapRanges(m, dir, k, user).next <= PAGE_END
    decreases k
  {
    if k > 0 {
      RangesFit(m, dir, k - 1, user);
      RangesIdentity(m, dir, k - 1, user);
      if k > 1 {
        RangesFollow(k - 1);
      }
      RangeFits(MapRanges(m, dir, k - 1, user), dir, KERNEL_MAPS[k - 1].0, KERNEL_MAPS[k - 1].1, user);
    }
  }

  lemma {:induction false} CountKernelSlots(page: Page, k: nat)
    requires k <= ENTRIES
    requires forall i :: 0 <= i < ENTRIES ==> (page[i].present <==> i == 0 || 256 <= i <= 506)
    ensures CountPresent(page, k) == if k == 0 then 0 else if k <= 256 then 1 else if k <= 507 then k - 255 else 252
  {
    if k > 0 {
      CountKernelSlots(page, k - 1);
    }
  }

  lemma {:induction false} CountNone(page: Page, k: nat)
    requires k <= ENTRIES && forall i :: 0 <= i < ENTRIES ==> !page[i].present
    ensures CountPresent(page, k) == 0
  {
    if k > 0 {
      CountNone(page, k - 1);
    }
  }

  /** On an empty directory that is 252 page tables. */
  lemma KernelTakes252(m: Memory, user: bool)
    requires MemoryOk(m) && MapKernel(Alloc(m), m.next, user).next <= PAGE_END
    ensures MapKernel(Alloc(m), m.next, user).next == m.next + 1 + 252
  {
    var m0, dir := Alloc(m), m.next;
    var m' := MapKernel(m0, dir, user);
    RangesNext(m0, dir, 6, user);
    assert DirOk(m0, dir);
    CountNone(PageAt(m0, dir), ENTRIES);
    KernelIdentity(m0, dir, user);
    forall i | 0 <= i < ENTRIES ensures PageAt(m', dir)[i].present <==> i == 0 || 256 <= i <= 506 {
      assert Slot(m', dir, i).present <==> Slot(m0, dir, i).present || i == 0 || 256 <= i <= 506;
    }
    CountKernelSlots(PageAt(m', dir), ENTRIES);
  }
}
