/** The paging code as it runs (src/paging.cpp, src/stdlib.cpp): page tables written in memory. */
module Paging {
  import opened Words
  import opened Seqs
  import opened PagingModel


  const PAGE_SIZE := 4096

  class Mmu {
    var pages: map<nat, Page>      // by page number
    var freePage: nat              // free_memory_page, an address
    var kernelDirectory: nat       // page number of kernel_paging_directory

    /** The next page to hand out is the first boundary at or above `freePage`. */
    ghost function View(): Memory
      reads this
    {
      Memory(pages, (freePage + PAGE_SIZE - 1) / PAGE_SIZE)
    }

    function Content(page: nat): Page
      reads this
    {
      if page in pages then pages[page] else ZeroPage()
    }

    /** alloc_page */
    method AllocPage() returns (page: nat)
      modifies this`pages, this`freePage
      ensures View() == Alloc(old(View())) && page == old(View()).next
    {
      while freePage % PAGE_SIZE != 0
        invariant View() == old(View())
        decreases (freePage + PAGE_SIZE - 1) / PAGE_SIZE * PAGE_SIZE - freePage
      {
        freePage := freePage + 1;
      }
      page := freePage / PAGE_SIZE;
      freePage := freePage + PAGE_SIZE;
      pages := pages[page := ZeroPage()];
    }

    method WriteEntry(page: nat, index: nat, e: Pte)
      requires index < ENTRIES
      modifies this`pages
      ensures View() == SetEntry(old(View()), page, index, e)
    {
      pages := pages[page := Content(page)[index := e]];
    }

    /** add_memory_mapping; `ok == false` is the panic on an unaligned address. */
    method AddMapping(linear: U32, physical: U32, dir: nat, user: bool) returns (ok: bool)
      modifies this`pages, this`freePage
      ensures ok == (linear % PAGE_SIZE == 0 && physical % PAGE_SIZE == 0)
      ensures View() == if ok then Map(old(View()), dir, linear / PAGE_SIZE, physical / PAGE_SIZE, user) else old(View())
    {
      if linear % PAGE_SIZE != 0 || physical % PAGE_SIZE != 0 {
        return false;
      }
      var slot, index := linear / 0x40_0000, linear / PAGE_SIZE % ENTRIES;
      assert slot == linear / PAGE_SIZE / ENTRIES;
      if !Content(dir)[slot].present {
        var table := AllocPage();
        WriteEntry(dir, slot, Pte(true, true, user, Address(table)));
      }
      var table := Content(dir)[slot].address;
      WriteEntry(table, index, Pte(true, true, user, Address(physical / PAGE_SIZE)));
      return true;
    }

    /** The identity mapping of one page. */
    method MapPage(page: nat, dir: nat, user: bool)
      requires page < TWO_20
      modifies this`pages, this`freePage
      ensures View() == Map(old(View()), dir, page, page, user)
    {
      var address := page * PAGE_SIZE;
      assert address / PAGE_SIZE == page;
      var ok := AddMapping(address, address, dir, user);
    }

    /** add_kernel_mappings */
    method AddKernelMappings(dir: nat)
      modifies this`pages, this`freePage
      ensures View() == MapKernel(old(View()), dir, dir != kernelDirectory)
    {
      var user := dir != kernelDirectory;
      var index := 0;
      while index < 6
        invariant index <= 6
        invariant View() == MapRanges(old(View()), dir, index, user)
      {
        var start, count := KERNEL_MAPS[index].0, KERNEL_MAPS[index].1;
        ghost var before := View();
        var offset := 0;
        while offset < count
          invariant offset <= count
          invariant View() == MapRange(before, dir, start, offset, user)
        {
          MapPage(start + offset, dir, user);
          offset := offset + 1;
        }
        index := index + 1;
      }
    }

    /** copy_process_mapping; `ok == false` is the fatal on a count above 4 MB, raised after the copy. */
    method CopyProcessMapping(start: U32, count: U32, process: nat) returns (ok: bool)
      modifies this`pages
      ensures ok == (count <= 4 * 1024 * 1024)
      ensures View() == CopySlot(old(View()), kernelDirectory, process, start / 0x40_0000)
    {
      var slot := start / 0x40_0000;
      var entry := Content(process)[slot];
      WriteEntry(kernelDirectory, slot, entry);
      return count <= 4 * 1024 * 1024;
    }

    /** The walk of check_address_mapping, with the address it reports. */
    method CheckMapping(address: U32, dir: nat) returns (physical: Option<nat>)
      ensures physical == Translate(View(), dir, address)
    {
      var d := Content(dir)[address / 0x40_0000];
      assert address / 0x40_0000 == address / PAGE_SIZE / ENTRIES;
      if !d.present {
        return None;
      }
      var e := Content(d.address)[address / PAGE_SIZE % ENTRIES];
      if !e.present {
        return None;
      }
      return Some(e.address * PAGE_SIZE + address % PAGE_SIZE);
    }
  }
}
