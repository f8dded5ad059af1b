/** All page directories together: process creation, mappings and copied slots (src/paging.cpp,
    src/process.cpp). Processes never share a table or a user frame; the kernel sees a process
    through a copied slot. */
module PagingSystem {
  import opened Seqs
  import opened PagingModel
  import opened PagingKernel

  datatype System = System(m: Memory, kernel: nat, procs: set<nat>)

  ghost function Dirs(s: System): set<nat> { s.procs + {s.kernel} }

  /** 4 MB to 0x40005000: the part of the address space that is the process's own. */
  predicate UserPage(p: nat) { 1024 <= p < 0x4_0005 }

  ghost predicate DirsOk(s: System) {
    && s.kernel !in s.procs
    && (forall d :: d in Dirs(s) ==> DirOk(s.m, d))
    && (forall d, i :: d in Dirs(s) && 0 <= i < ENTRIES && Slot(s.m, d, i).present ==>
          Slot(s.m, d, i).address !in Dirs(s))
  }

  ghost predicate NoSharedTable(s: System) {
    forall d, e, i, j ::
      (d in s.procs && e in s.procs && d != e && 0 <= i < ENTRIES && 0 <= j < ENTRIES
       && Slot(s.m, d, i).present && Slot(s.m, e, j).present)
      ==> Slot(s.m, d, i).address != Slot(s.m, e, j).address
  }

  /** The kernel may use a process's table, but only in the same slot. */
  ghost predicate KernelShares(s: System) {
    forall d, i, j ::
      (d in s.procs && 0 <= i < ENTRIES && 0 <= j < ENTRIES && i != j
       && Slot(s.m, s.kernel, i).present && Slot(s.m, d, j).present)
      ==> Slot(s.m, s.kernel, i).address != Slot(s.m, d, j).address
  }

  ghost predicate IsTable(s: System, f: nat) {
    exists d, i :: d in Dirs(s) && 0 <= i < ENTRIES && Slot(s.m, d, i).present && Slot(s.m, d, i).address == f
  }

  ghost predicate Backs(s: System, d: nat, p: PageNumber, f: nat) {
    d in s.procs && UserPage(p) && Walk(s.m, d, p) == Some(f)
  }

  /** A user frame is a page handed out for data: never a directory or a page table. */
  ghost predicate FramesOk(s: System) {
    forall d, p: PageNumber, f :: Backs(s, d, p, f) ==> f in s.m.pages && f !in Dirs(s) && !IsTable(s, f)
  }

  /** No frame backs two user pages, of one process or of two. */
  ghost predicate NoAlias(s: System) {
    forall d, p: PageNumber, e, q: PageNumber, f :: Backs(s, d, p, f) && Backs(s, e, q, f) ==> d == e && p == q
  }

  ghost predicate SystemOk(s: System) {
    MemoryOk(s.m) && DirsOk(s) && NoSharedTable(s) && KernelShares(s) && FramesOk(s) && NoAlias(s)
  }

  // ---------------------------------------------------------------- one mapping

  /** A frame that nothing uses yet. */
  ghost predicate Unused(s: System, f: nat) {
    f in s.m.pages && f !in Dirs(s) && !IsTable(s, f) && forall d, p: PageNumber :: !Backs(s, d, p, f)
  }

  ghost predicate MapEffect(s: System, t: System, d: nat, p: PageNumber, frame: nat) {
    && t.kernel == s.kernel && t.procs == s.procs && MemoryOk(t.m)
    && (forall e :: e in Dirs(s) ==> DirOk(t.m, e))
    && (forall e, i :: e in Dirs(s) && 0 <= i < ENTRIES && !(e == d && i == p / ENTRIES) ==>
          Slot(t.m, e, i) == Slot(s.m, e, i))
    && Slot(t.m, d, p / ENTRIES).present
    && Slot(t.m, d, p / ENTRIES).address
       == (if Slot(s.m, d, p / ENTRIES).present then Slot(s.m, d, p / ENTRIES).address else s.m.next)
    && (forall e, q: PageNumber :: e in s.procs ==>
          Walk(t.m, e, q) == if e == d && q == p then Some(frame) else Walk(s.m, e, q))
    && (forall f :: f in s.m.pages ==> f in t.m.pages)
  }

  function MapIn(s: System, d: nat, p: PageNumber, frame: nat, user: bool): System {
    s.(m := Map(s.m, d, p, frame, user))
  }

  /** The page written by a mapping is the table of slot p / 1024, nothing else but the directory. */
  lemma MapPages(m: Memory, d: nat, p: PageNumber, frame: PageNumber, user: bool)
    requires MemoryOk(m) && DirOk(m, d) && Map(m, d, p, frame, user).next <= PAGE_END
    ensures var t := Map(m, d, p, frame, user);
            var table := if Slot(m, d, p / ENTRIES).present then Slot(m, d, p / ENTRIES).address else m.next;
            && (forall f :: f in m.pages && f != d && f != table ==> f in t.pages && PageAt(t, f) == PageAt(m, f))
            && d in t.pages && (forall f :: f in m.pages ==> f in t.pages)
  {
    PopulateEffect(m, d, p / ENTRIES, user);
  }

  lemma OtherDirectory(s: System, d: nat, p: PageNumber, frame: PageNumber, user: bool, e: nat)
    requires MemoryOk(s.m) && DirsOk(s) && NoSharedTable(s) && Map(s.m, d, p, frame, user).next <= PAGE_END
    requires d in s.procs && e in Dirs(s) && e != d
    ensures var t := Map(s.m, d, p, frame, user);
            && DirOk(t, e)
            && (forall i :: 0 <= i < ENTRIES ==> Slot(t, e, i) == Slot(s.m, e, i))
            && (e in s.procs ==> forall q: PageNumber :: Walk(t, e, q) == Walk(s.m, e, q))
  {
    var t := Map(s.m, d, p, frame, user);
    MapPages(s.m, d, p, frame, user);
    assert DirOk(s.m, e) && DirOk(s.m, d);
    assert PageAt(t, e) == PageAt(s.m, e);
    assert forall i :: 0 <= i < ENTRIES ==> Slot(t, e, i) == Slot(s.m, e, i);
    forall i | 0 <= i < ENTRIES && Slot(t, e, i).present
      ensures Slot(t, e, i).address in t.pages && Slot(t, e, i).address != e
    {
      assert Slot(s.m, e, i).address in s.m.pages;
    }
    forall i, j | 0 <= i < j < ENTRIES && Slot(t, e, i).present && Slot(t, e, j).present
      ensures Slot(t, e, i).address != Slot(t, e, j).address
    {
      assert Slot(s.m, e, i).present && Slot(s.m, e, j).present;
    }
    if e in s.procs {
      forall q: PageNumber ensures Walk(t, e, q) == Walk(s.m, e, q) {
        if Slot(s.m, e, q / ENTRIES).present {
          var table := Slot(s.m, e, q / ENTRIES).address;
          assert table in s.m.pages && table !in Dirs(s);
          assert PageAt(t, table) == PageAt(s.m, table);
        }
      }
    }
  }

  lemma MapHasEffect(s: System, d: nat, p: PageNumber, frame: PageNumber, user: bool)
    requires SystemOk(s) && d in s.procs && Map(s.m, d, p, frame, user).next <= PAGE_END
    ensures MapEffect(s, MapIn(s, d, p, frame, user), d, p, frame)
  {
    var t := MapIn(s, d, p, frame, user);
    assert DirOk(s.m, d);
    MapWalk(s.m, d, p, frame, user);
    MapPages(s.m, d, p, frame, user);
    forall e | e in Dirs(s) && e != d
      ensures DirOk(t.m, e) && (forall i :: 0 <= i < ENTRIES ==> Slot(t.m, e, i) == Slot(s.m, e, i))
      ensures e in s.procs ==> forall q: PageNumber :: Walk(t.m, e, q) == Walk(s.m, e, q)
    {
      OtherDirectory(s, d, p, frame, user, e);
    }
  }

  /** A present slot after a mapping is an old one, or the new table in the mapped slot. */
  lemma SlotAfter(s: System, t: System, d: nat, p: PageNumber, frame: nat, e: nat, i: nat)
    requires MemoryOk(s.m) && DirsOk(s) && MapEffect(s, t, d, p, frame) && d in s.procs
    requires e in Dirs(s) && i < ENTRIES && Slot(t.m, e, i).present
    ensures (Slot(s.m, e, i).present && Slot(t.m, e, i).address == Slot(s.m, e, i).address
             && Slot(s.m, e, i).address in s.m.pages && Slot(s.m, e, i).address !in Dirs(s))
            || (e == d && i == p / ENTRIES && Slot(t.m, e, i).address == s.m.next)
  {
    if !(e == d && i == p / ENTRIES && !Slot(s.m, e, i).present) {
      assert Slot(t.m, e, i).address == Slot(s.m, e, i).address && Slot(s.m, e, i).present;
      assert DirOk(s.m, e);
    }
  }

  lemma MapKeepsTables(s: System, t: System, d: nat, p: PageNumber, frame: nat)
    requires SystemOk(s) && d in s.procs && MapEffect(s, t, d, p, frame)
    ensures DirsOk(t) && NoSharedTable(t) && KernelShares(t)
  {
    assert s.m.next !in s.m.pages;
    forall e | e in Dirs(s) ensures e in s.m.pages {
      assert DirOk(s.m, e);
    }
    forall e, i | e in Dirs(s) && 0 <= i < ENTRIES && Slot(t.m, e, i).present
      ensures Slot(t.m, e, i).address !in Dirs(s)
    {
      SlotAfter(s, t, d, p, frame, e, i);
    }
    forall e, g, i, j | e in s.procs && g in s.procs && e != g && 0 <= i < ENTRIES && 0 <= j < ENTRIES
      && Slot(t.m, e, i).present && Slot(t.m, g, j).present
      ensures Slot(t.m, e, i).address != Slot(t.m, g, j).address
    {
      SlotAfter(s, t, d, p, frame, e, i);
      SlotAfter(s, t, d, p, frame, g, j);
    }
    forall g, i, j | g in s.procs && 0 <= i < ENTRIES && 0 <= j < ENTRIES && i != j
      && Slot(t.m, s.kernel, i).present && Slot(t.m, g, j).present
      ensures Slot(t.m, s.kernel, i).address != Slot(t.m, g, j).address
    {
      SlotAfter(s, t, d, p, frame, s.kernel, i);
      SlotAfter(s, t, d, p, frame, g, j);
    }
  }

  lemma TableAfter(s: System, t: System, d: nat, p: PageNumber, frame: nat, f: nat)
    requires SystemOk(s) && d in s.procs && MapEffect(s, t, d, p, frame)
    ensures IsTable(t, f) ==> IsTable(s, f) || f == s.m.next
  {
    if IsTable(t, f) {
      var e, i :| e in Dirs(t) && 0 <= i < ENTRIES && Slot(t.m, e, i).present && Slot(t.m, e, i).address == f;
      SlotAfter(s, t, d, p, frame, e, i);
    }
  }

  lemma MapKeepsFrames(s: System, t: System, d: nat, p: PageNumber, frame: nat)
    requires SystemOk(s) && d in s.procs && MapEffect(s, t, d, p, frame)
    requires UserPage(p) ==> Unused(s, frame)
    ensures FramesOk(t) && NoAlias(t)
  {
    assert s.m.next !in s.m.pages;
    forall e, q: PageNumber, f | Backs(t, e, q, f)
      ensures f in t.m.pages && f !in Dirs(t) && !IsTable(t, f)
      ensures (e == d && q == p && f == frame && Unused(s, f)) || Backs(s, e, q, f)
    {
      TableAfter(s, t, d, p, frame, f);
      assert (e == d && q == p && f == frame) || Backs(s, e, q, f);
    }
  }

  lemma MapSystemOk(s: System, d: nat, p: PageNumber, frame: PageNumber, user: bool)
    requires SystemOk(s) && d in s.procs && Map(s.m, d, p, frame, user).next <= PAGE_END
    requires UserPage(p) ==> Unused(s, frame)
    ensures SystemOk(MapIn(s, d, p, frame, user)) && MapEffect(s, MapIn(s, d, p, frame, user), d, p, frame)
  {
    var t := MapIn(s, d, p, frame, user);
    MapHasEffect(s, d, p, frame, user);
    MapKeepsTables(s, t, d, p, frame);
    MapKeepsFrames(s, t, d, p, frame);
  }

  // ---------------------------------------------------------------- pages handed out

  lemma AllocWalk(m: Memory, d: nat)
    requires MemoryOk(m) && DirOk(m, d) && m.next < PAGE_END
    ensures var t := Alloc(m);
            && MemoryOk(t) && DirOk(t, d) && m.next in t.pages && (forall f :: f in m.pages ==> f in t.pages)
            && (forall i :: 0 <= i < ENTRIES ==> Slot(t, d, i) == Slot(m, d, i))
            && (forall q: PageNumber :: Walk(t, d, q) == Walk(m, d, q))
  {
    var t := Alloc(m);
    forall i | 0 <= i < ENTRIES ensures Slot(t, d, i) == Slot(m, d, i) {
    }
    forall i | 0 <= i < ENTRIES && Slot(t, d, i).present
      ensures Slot(t, d, i).address in t.pages && Slot(t, d, i).address != d
    {
      assert Slot(m, d, i).address in m.pages;
    }
    forall i, j | 0 <= i < j < ENTRIES && Slot(t, d, i).present && Slot(t, d, j).present
      ensures Slot(t, d, i).address != Slot(t, d, j).address
    {
      assert Slot(m, d, i).present && Slot(m, d, j).present;
    }
    forall q: PageNumber ensures Walk(t, d, q) == Walk(m, d, q) {
      if Slot(m, d, q / ENTRIES).present {
        assert Slot(m, d, q / ENTRIES).address in m.pages;
      }
    }
  }

  function AllocIn(s: System): System { s.(m := Alloc(s.m)) }

  /** A page just handed out is used by nothing. */
  lemma AllocSystemOk(s: System)
    requires SystemOk(s) && s.m.next < PAGE_END
    ensures SystemOk(AllocIn(s)) && Unused(AllocIn(s), s.m.next)
    ensures forall d, p: PageNumber :: d in Dirs(s) ==> Walk(AllocIn(s).m, d, p) == Walk(s.m, d, p)
    ensures forall d, i :: d in Dirs(s) && 0 <= i < ENTRIES ==> Slot(AllocIn(s).m, d, i) == Slot(s.m, d, i)
  {
    var t := AllocIn(s);
    forall d | d in Dirs(s)
      ensures d in s.m.pages && DirOk(t.m, d)
      ensures forall i :: 0 <= i < ENTRIES ==> Slot(t.m, d, i) == Slot(s.m, d, i)
      ensures forall p: PageNumber :: Walk(t.m, d, p) == Walk(s.m, d, p)
    {
      assert DirOk(s.m, d);
      AllocWalk(s.m, d);
    }
    AllocTables(s);
    assert forall d, p: PageNumber, f :: Backs(t, d, p, f) <==> Backs(s, d, p, f);
  }

  lemma AllocTables(s: System)
    requires SystemOk(s) && s.m.next < PAGE_END
    requires forall d, i :: d in Dirs(s) && 0 <= i < ENTRIES ==> Slot(AllocIn(s).m, d, i) == Slot(s.m, d, i)
    ensures forall f :: IsTable(AllocIn(s), f) <==> IsTable(s, f)
    ensures !IsTable(s, s.m.next) && NoSharedTable(AllocIn(s)) && KernelShares(AllocIn(s))
  {
    var t := AllocIn(s);
    forall f ensures IsTable(t, f) <==> IsTable(s, f) {
      if IsTable(t, f) {
        var d, i :| d in Dirs(t) && 0 <= i < ENTRIES && Slot(t.m, d, i).present && Slot(t.m, d, i).address == f;
        assert Slot(s.m, d, i) == Slot(t.m, d, i);
      }
    }
    forall d, i | d in Dirs(s) && 0 <= i < ENTRIES && Slot(s.m, d, i).present
      ensures Slot(s.m, d, i).address != s.m.next
    {
      assert DirOk(s.m, d);
    }
  }

  // ---------------------------------------------------------------- the operations of the kernel

  datatype Op =
    | NewProcess                        // alloc_page for a directory
    | MapUser(dir: nat, page: PageNumber)   // alloc_page, then add_memory_mapping
    | MapKernelInto(dir: nat)           // add_kernel_mappings
    | Copy(dir: nat, slot: nat)         // copy_process_mapping while `dir`'s process is current

  function Apply(s: System, op: Op): System {
    match op
    case NewProcess => System(Alloc(s.m), s.kernel, s.procs + {s.m.next})
    case MapUser(d, p) => if d in s.procs then MapIn(AllocIn(s), d, p, s.m.next, true) else s
    case MapKernelInto(d) => if d in s.procs then s.(m := MapKernel(s.m, d, true)) else s
    case Copy(d, slot) => if d in s.procs && slot < ENTRIES then s.(m := CopySlot(s.m, s.kernel, d, slot)) else s
  }

  function Run(s: System, ops: seq<Op>): System
    decreases |ops|
  {
    if ops == [] then s else Run(Apply(s, ops[0]), ops[1..])
  }

  lemma NewProcessOk(s: System)
    requires SystemOk(s) && s.m.next < PAGE_END
    ensures SystemOk(Apply(s, NewProcess))
  {
    var a, t := AllocIn(s), Apply(s, NewProcess);
    var d := s.m.next;
    AllocSystemOk(s);
    assert forall i :: 0 <= i < ENTRIES ==> !Slot(t.m, d, i).present;
    assert DirOk(t.m, d);
    forall e, i | e in Dirs(t) && 0 <= i < ENTRIES && Slot(t.m, e, i).present
      ensures e in Dirs(s) && Slot(t.m, e, i).address !in Dirs(t)
    {
      assert e in Dirs(s);
      assert !IsTable(a, d);
    }
    forall f ensures IsTable(t, f) ==> IsTable(a, f) {
      if IsTable(t, f) {
        var e, i :| e in Dirs(t) && 0 <= i < ENTRIES && Slot(t.m, e, i).present && Slot(t.m, e, i).address == f;
        assert Slot(a.m, e, i).present && e in Dirs(a);
      }
    }
    forall e, p: PageNumber, f | Backs(t, e, p, f) ensures Backs(a, e, p, f) && f != d {
      assert e != d;
      assert Backs(a, e, p, f);
    }
  }

  /** copy_process_mapping: on the 4 MB slot the kernel now translates as the process does; every
      other slot, and every process, translates as before. */
  lemma CopyEffect(s: System, d: nat, slot: nat)
    requires SystemOk(s) && d in s.procs && slot < ENTRIES
    ensures var t := Apply(s, Copy(d, slot));
            && SystemOk(t)
            && (forall p: PageNumber :: Walk(t.m, s.kernel, p)
                  == if p / ENTRIES == slot then Walk(s.m, d, p) else Walk(s.m, s.kernel, p))
            && (forall e, p: PageNumber :: e in s.procs ==> Walk(t.m, e, p) == Walk(s.m, e, p))
  {
    var t := Apply(s, Copy(d, slot));
    assert DirOk(s.m, s.kernel) && DirOk(s.m, d);
    SetEntryEffect(s.m, s.kernel, slot, Slot(s.m, d, slot));
    forall e, i | e in Dirs(s) && 0 <= i < ENTRIES
      ensures Slot(t.m, e, i) == if e == s.kernel && i == slot then Slot(s.m, d, slot) else Slot(s.m, e, i)
    {
      assert DirOk(s.m, e);
    }
    CopyWalks(s, d, slot);
    CopyDirs(s, d, slot);
    forall f ensures IsTable(t, f) ==> IsTable(s, f) {
      if IsTable(t, f) {
        var e, i :| e in Dirs(t) && 0 <= i < ENTRIES && Slot(t.m, e, i).present && Slot(t.m, e, i).address == f;
        assert Slot(s.m, if e == s.kernel && i == slot then d else e, i).address == f;
      }
    }
    assert forall e, p: PageNumber, f :: Backs(t, e, p, f) ==> Backs(s, e, p, f);
  }

  ghost predicate CopiedSlots(s: System, t: System, d: nat, slot: nat) {
    forall e, i :: e in Dirs(s) && 0 <= i < ENTRIES ==>
      Slot(t.m, e, i) == if e == s.kernel && i == slot then Slot(s.m, d, slot) else Slot(s.m, e, i)
  }

  lemma CopyDirs(s: System, d: nat, slot: nat)
    requires SystemOk(s) && d in s.procs && slot < ENTRIES
    requires CopiedSlots(s, Apply(s, Copy(d, slot)), d, slot)
    ensures var t := Apply(s, Copy(d, slot));
            DirsOk(t) && NoSharedTable(t) && KernelShares(t)
  {
    var t := Apply(s, Copy(d, slot));
    assert DirOk(s.m, s.kernel) && DirOk(s.m, d);
    forall e | e in s.procs ensures DirOk(t.m, e) {
      assert DirOk(s.m, e);
      assert forall i :: 0 <= i < ENTRIES ==> Slot(t.m, e, i) == Slot(s.m, e, i);
      SameSlotsDirOk(s.m, t.m, e);
    }
    forall i | 0 <= i < ENTRIES && Slot(t.m, s.kernel, i).present
      ensures Slot(t.m, s.kernel, i).address in t.m.pages && Slot(t.m, s.kernel, i).address !in Dirs(s)
    {
      assert Slot(t.m, s.kernel, i) == if i == slot then Slot(s.m, d, slot) else Slot(s.m, s.kernel, i);
    }
    forall i, j | 0 <= i < j < ENTRIES && Slot(t.m, s.kernel, i).present && Slot(t.m, s.kernel, j).present
      ensures Slot(t.m, s.kernel, i).address != Slot(t.m, s.kernel, j).address
    {
      assert Slot(t.m, s.kernel, i) == if i == slot then Slot(s.m, d, slot) else Slot(s.m, s.kernel, i);
      assert Slot(t.m, s.kernel, j) == if j == slot then Slot(s.m, d, slot) else Slot(s.m, s.kernel, j);
    }
    assert DirOk(t.m, s.kernel);
    forall e, i, j | e in s.procs && 0 <= i < ENTRIES && 0 <= j < ENTRIES && i != j
      && Slot(t.m, s.kernel, i).present && Slot(t.m, e, j).present
      ensures Slot(t.m, s.kernel, i).address != Slot(t.m, e, j).address
    {
      assert Slot(t.m, s.kernel, i) == if i == slot then Slot(s.m, d, slot) else Slot(s.m, s.kernel, i);
      assert Slot(t.m, e, j) == Slot(s.m, e, j);
      assert DirOk(s.m, e);
    }
  }

  lemma SameSlotsDirOk(m: Memory, t: Memory, e: nat)
    requires DirOk(m, e) && (forall f :: f in m.pages ==> f in t.pages)
    requires forall i :: 0 <= i < ENTRIES ==> Slot(t, e, i) == Slot(m, e, i)
    ensures DirOk(t, e)
  {
    forall i | 0 <= i < ENTRIES && Slot(t, e, i).present
      ensures Slot(t, e, i).address in t.pages && Slot(t, e, i).address != e
    {
      assert Slot(m, e, i).address in m.pages;
    }
    forall i, j | 0 <= i < j < ENTRIES && Slot(t, e, i).present && Slot(t, e, j).present
      ensures Slot(t, e, i).address != Slot(t, e, j).address
    {
      assert Slot(m, e, i).present && Slot(m, e, j).present;
    }
  }

  lemma CopyWalks(s: System, d: nat, slot: nat)
    requires SystemOk(s) && d in s.procs && slot < ENTRIES
    requires CopiedSlots(s, Apply(s, Copy(d, slot)), d, slot)
    ensures var t := Apply(s, Copy(d, slot));
            && (forall p: PageNumber :: Walk(t.m, s.kernel, p)
                  == if p / ENTRIES == slot then Walk(s.m, d, p) else Walk(s.m, s.kernel, p))
            && (forall e, p: PageNumber :: e in s.procs ==> Walk(t.m, e, p) == Walk(s.m, e, p))
  {
    var t := Apply(s, Copy(d, slot));
    assert DirOk(s.m, s.kernel) && DirOk(s.m, d);
    SetEntryEffect(s.m, s.kernel, slot, Slot(s.m, d, slot));
    forall p: PageNumber
      ensures Walk(t.m, s.kernel, p) == if p / ENTRIES == slot then Walk(s.m, d, p) else Walk(s.m, s.kernel, p)
    {
      var e := if p / ENTRIES == slot then d else s.kernel;
      assert Slot(t.m, s.kernel, p / ENTRIES) == Slot(s.m, e, p / ENTRIES);
      assert Slot(s.m, e, p / ENTRIES).present ==> Slot(s.m, e, p / ENTRIES).address !in Dirs(s);
    }
    forall e, p: PageNumber | e in s.procs ensures Walk(t.m, e, p) == Walk(s.m, e, p) {
      assert Slot(t.m, e, p / ENTRIES) == Slot(s.m, e, p / ENTRIES);
      assert Slot(s.m, e, p / ENTRIES).present ==> Slot(s.m, e, p / ENTRIES).address !in Dirs(s);
    }
  }

  /** A populated slot, once copied, stays shared: what the process maps there later the kernel sees
      too. */
  lemma CopiedSlotFollows(s: System, d: nat, slot: nat, p: PageNumber, frame: PageNumber, user: bool)
    requires SystemOk(s) && d in s.procs && slot < ENTRIES && Map(s.m, d, p, frame, user).next <= PAGE_END
    requires Slot(s.m, d, slot).present && Slot(s.m, s.kernel, slot) == Slot(s.m, d, slot)
    ensures forall q: PageNumber :: q / ENTRIES == slot ==>
              Walk(MapIn(s, d, p, frame, user).m, s.kernel, q)
              == if q == p then Some(frame) else Walk(s.m, s.kernel, q)
  {
    var t := MapIn(s, d, p, frame, user);
    MapHasEffect(s, d, p, frame, user);
    assert Slot(t.m, s.kernel, slot) == Slot(s.m, s.kernel, slot);
    forall q: PageNumber | q / ENTRIES == slot
      ensures Walk(t.m, s.kernel, q) == if q == p then Some(frame) else Walk(s.m, s.kernel, q)
    {
      assert Walk(t.m, d, q) == if q == p then Some(frame) else Walk(s.m, d, q);
      assert Slot(t.m, d, slot).address == Slot(s.m, d, slot).address;
    }
  }

  /** Kernel mappings never touch a user page, so they need no fresh frames. */
  lemma {:induction false} RangeSystemOk(s: System, d: nat, start: nat, n: nat)
    requires SystemOk(s) && d in s.procs && start + n <= TWO_20
    requires forall p :: start <= p < start + n ==> !UserPage(p)
    requires MapRange(s.m, d, start, n, true).next <= PAGE_END
    ensures SystemOk(s.(m := MapRange(s.m, d, start, n, true)))
    decreases n
  {
    if n > 0 {
      var last := start + n - 1;
      var mid := s.(m := MapRange(s.m, d, start, n - 1, true));
      assert MapRange(s.m, d, start, n, true) == Map(mid.m, d, last, last, true);
      RangeSystemOk(s, d, start, n - 1);
      MapSystemOk(mid, d, last, last, true);
    }
  }

  lemma {:induction false} RangesSystemOk(s: System, d: nat, k: nat)
    requires SystemOk(s) && d in s.procs && k <= 6
    requires MapRanges(s.m, d, k, true).next <= PAGE_END
    ensures SystemOk(s.(m := MapRanges(s.m, d, k, true)))
    decreases k
  {
    if k > 0 {
      var start, n := KERNEL_MAPS[k - 1].0, KERNEL_MAPS[k - 1].1;
      RangeNext(MapRanges(s.m, d, k - 1, true), d, start, n, true);
      RangesSystemOk(s, d, k - 1);
      if k > 1 {
        RangesFollow(k - 1);
      }
      RangeSystemOk(s.(m := MapRanges(s.m, d, k - 1, true)), d, start, n);
    }
  }

  lemma ApplyOk(s: System, op: Op)
    requires SystemOk(s) && Apply(s, op).m.next <= PAGE_END
    ensures SystemOk(Apply(s, op))
  {
    match op
    case NewProcess => NewProcessOk(s);
    case MapUser(d, p) =>
      if d in s.procs {
        AllocSystemOk(s);
        MapSystemOk(AllocIn(s), d, p, s.m.next, true);
      }
    case MapKernelInto(d) =>
      if d in s.procs {
        RangesSystemOk(s, d, 6);
      }
    case Copy(d, slot) =>
      if d in s.procs && slot < ENTRIES {
        CopyEffect(s, d, slot);
      }
  }

  lemma {:induction false} RunNext(s: System, ops: seq<Op>)
    ensures s.m.next <= Run(s, ops).m.next
    decreases |ops|
  {
    if ops != [] {
      if ops[0].MapKernelInto? {
        RangesNext(s.m, ops[0].dir, 6, true);
      }
      RunNext(Apply(s, ops[0]), ops[1..]);
    }
  }

  /** Through any mix of process creations, user and kernel mappings and copied slots, while the
      100 MB of pages last: no two processes share a page table, no frame backs two user pages, and
      no user page is a directory or a table. */
  lemma {:induction false} HistoryOk(s: System, ops: seq<Op>)
    requires SystemOk(s) && Run(s, ops).m.next <= PAGE_END
    ensures SystemOk(Run(s, ops))
    decreases |ops|
  {
    if ops != [] {
      RunNext(Apply(s, ops[0]), ops[1..]);
      ApplyOk(s, ops[0]);
      HistoryOk(Apply(s, ops[0]), ops[1..]);
    }
  }

  /** A kernel directory with no process beside it. */
  lemma KernelOnlyOk(m: Memory, kernel: nat)
    requires MemoryOk(m) && DirOk(m, kernel)
    ensures SystemOk(System(m, kernel, {}))
  {
  }

  /** prepare_kernel_paging: the first page handed out becomes the kernel directory. */
  const BOOT := System(MapKernel(Alloc(Memory(map[], PAGE_START)), PAGE_START, false), PAGE_START, {})

  lemma BootOk()
    ensures SystemOk(BOOT)
  {
    var m := Alloc(Memory(map[], PAGE_START));
    assert forall i :: 0 <= i < ENTRIES ==> !Slot(m, PAGE_START, i).present;
    assert DirOk(m, PAGE_START);
    CountNone(PageAt(m, PAGE_START), ENTRIES);
    RangesFit(m, PAGE_START, 6, false);
    KernelIdentity(m, PAGE_START, false);
    KernelOnlyOk(MapKernel(m, PAGE_START, false), PAGE_START);
  }

  // ---------------------------------------------------------------- privileges

  /** A process's kernel mappings, like its own pages, are open to user code. */
  lemma ProcessPrivileges(s: System, d: nat, op: Op)
    requires SystemOk(s) && d in s.procs && Apply(s, op).m.next <= PAGE_END
    ensures op == MapKernelInto(d) ==>
              && SlotsGranted(s.m, Apply(s, op).m, d, true)
              && forall q: PageNumber :: KernelPage(q) ==> EntryOf(Apply(s, op).m, d, q) == Pte(true, true, true, q)
    ensures op.MapUser? && op.dir == d ==>
              && SlotsGranted(s.m, Apply(s, op).m, d, true)
              && EntryOf(Apply(s, op).m, d, op.page) == Pte(true, true, true, s.m.next)
  {
    if op == MapKernelInto(d) {
      KernelIdentity(s.m, d, true);
    } else if op.MapUser? && op.dir == d {
      AllocSystemOk(s);
      MapWalk(AllocIn(s).m, d, op.page, s.m.next, true);
    }
  }

  /** The kernel's own directory is the first page handed out, and none of its entries is open to user
      code. */
  lemma BootPrivileges()
    ensures BOOT.kernel == 0x7_8405 && BOOT.m.next == 0x7_8405 + 253 && BOOT.procs == {}
    ensures forall q: PageNumber :: KernelPage(q) ==> EntryOf(BOOT.m, BOOT.kernel, q) == Pte(true, true, false, q)
    ensures forall i :: 0 <= i < ENTRIES && Slot(BOOT.m, BOOT.kernel, i).present ==>
              Slot(BOOT.m, BOOT.kernel, i).rw && !Slot(BOOT.m, BOOT.kernel, i).user
  {
    var m0 := Memory(map[], PAGE_START);
    var m := Alloc(m0);
    assert forall i :: 0 <= i < ENTRIES ==> !Slot(m, PAGE_START, i).present;
    assert DirOk(m, PAGE_START);
    CountNone(PageAt(m, PAGE_START), ENTRIES);
    RangesFit(m, PAGE_START, 6, false);
    KernelIdentity(m, PAGE_START, false);
    KernelTakes252(m0, false);
  }
}
