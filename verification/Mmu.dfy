/** src/impl/kernel/mmu.c over physical memory: the page allocator, CR3, and the
    mapping calls, each proved against the functions of Mapping. */
module Mmu {
  import opened Memory
  import opened Paging
  import Mapping

  class Mmu {
    const ram: array<byte>
    var nextFreePage: uint64
    var cr3: uint64

    ghost function State(): Machine
      reads this, ram
    {
      Machine(ram[..], nextFreePage)
    }

    ghost predicate Valid()
      reads this, ram
    {
      ram.Length < TWO_64 && Tree(ram[..], cr3, nextFreePage)
    }

    /** Take over memory whose tables the boot code has built. */
    constructor (ram: array<byte>, cr3: uint64)
      ensures this.ram == ram && this.cr3 == cr3 && nextFreePage == LOW_LIMIT
    {
      this.ram := ram;
      this.cr3 := cr3;
      nextFreePage := LOW_LIMIT;
    }

    method AllocPage() returns (page: uint64)
      requires nextFreePage + PAGE_SIZE <= ram.Length < TWO_64
      modifies this`nextFreePage, ram
      ensures page == old(nextFreePage)
      ensures State() == Paging.AllocPage(old(State()))
    {
      page := nextFreePage;
      nextFreePage := (nextFreePage + PAGE_SIZE) % TWO_64;
      MemSet(ram, page, 0, PAGE_SIZE);
      assert ram[..] == ZeroFill(old(ram[..]), page);
    }

    method LoadEntry(table: nat, i: nat) returns (e: uint64)
      ensures e == Entry(ram[..], table, i)
    {
      var a := table + 8 * i;
      if a + 8 > ram.Length {
        return 0;
      }
      e := Load64(ram, a);
    }

    method StoreEntry(table: nat, i: nat, e: uint64)
      modifies ram
      ensures ram[..] == SetEntry(old(ram[..]), table, i, e)
    {
      if table + 8 * i + 8 <= ram.Length {
        Store(ram, table + 8 * i, e, 8);
      }
    }

    /** The three "ensure it exists" blocks of mmu_map_page. */
    method EnsureTable(table: nat, i: nat, flags: uint64)
      requires nextFreePage + PAGE_SIZE <= ram.Length < TWO_64
      modifies this`nextFreePage, ram
      ensures State() == Mapping.EnsureTable(old(State()), table, i, flags)
      ensures nextFreePage <= old(nextFreePage) + PAGE_SIZE
    {
      var e := LoadEntry(table, i);
      if !Present(e) {
        var page := AllocPage();
        MemSet(ram, page, 0, PAGE_SIZE);
        assert ram[..] == ZeroFill(old(ram[..]), page);
        StoreEntry(table, i, MakeEntry(page, flags));
      }
    }

    method MapPage(phys: uint64, virt: uint64, flags: uint64)
      requires nextFreePage + 3 * PAGE_SIZE <= ram.Length < TWO_64
      modifies this`nextFreePage, ram
      ensures State() == Mapping.MapPage(old(State()), cr3, phys, virt, flags)
    {
      if virt < LOW_LIMIT {
        return;
      }
      ghost var s0 := State();
      EnsureTable(cr3, Index4(virt), flags);
      ghost var s1 := State();
      var e4 := LoadEntry(cr3, Index4(virt));
      var pdp := Frame(e4);
      EnsureTable(pdp, Index3(virt), flags);
      ghost var s2 := State();
      var e3 := LoadEntry(pdp, Index3(virt));
      var pd := Frame(e3);
      var e2 := LoadEntry(pd, Index2(virt));
      assert Mapping.DirectoryOf(s0, cr3, virt, flags) == (s2, pd);
      if Huge(e2) {
        return;
      }
      EnsureTable(pd, Index2(virt), flags);
      e2 := LoadEntry(pd, Index2(virt));
      var pt := Frame(e2);
      StoreEntry(pt, Index1(virt), MakeEntry(phys, flags));
    }

    method IsMapped(virt: uint64) returns (mapped: bool)
      requires Valid()
      ensures mapped <==> Walk(ram[..], cr3, virt) != NotMapped
      ensures mapped == Mapping.IsMapped(ram[..], cr3, virt)
    {
      Mapping.IsMappedIsWalk(ram[..], cr3, nextFreePage, virt);
      var e4 := LoadEntry(cr3, Index4(virt));
      if !Present(e4) {
        return false;
      }
      var e3 := LoadEntry(Frame(e4), Index3(virt));
      if !Present(e3) {
        return false;
      }
      var e2 := LoadEntry(Frame(e3), Index2(virt));
      if Huge(e2) {
        return true;
      }
      if !Present(e2) {
        return false;
      }
      var e1 := LoadEntry(Frame(e2), Index1(virt));
      return Present(e1);
    }

    method UnmapPage(virt: uint64)
      modifies ram
      ensures ram[..] == Mapping.UnmapPage(old(ram[..]), virt)
    {
      var e4 := LoadEntry(Mapping.UNMAP_ROOT, Index4(virt));
      if !Present(e4) {
        return;
      }
      var e3 := LoadEntry(Frame(e4), Index3(virt));
      if !Present(e3) {
        return;
      }
      var e2 := LoadEntry(Frame(e3), Index2(virt));
      if !Present(e2) {
        return;
      }
      StoreEntry(Frame(e2), Index1(virt), 0);
    }
  }
}
