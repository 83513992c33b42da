/** What the operations of src/impl/kernel/mmu.c do to physical memory, and what every
    run of them means: a map from 36-bit page numbers to leaf entries. */
module Mapping {
  import opened Memory
  import opened Wrappers
  import opened Paging

  // ----- mmu_map_page -----

  /** One "ensure the table exists" block. */
  function EnsureTable(s: Machine, t: nat, i: nat, flags: uint64): Machine {
    if Present(Entry(s.mem, t, i)) then s
    else
      var a := AllocPage(s);
      a.(mem := SetEntry(a.mem, t, i, MakeEntry(s.next, flags)))
  }

  /** The upper two blocks: the state they leave and the page directory they reach. */
  function DirectoryOf(s: Machine, root: nat, v: uint64, flags: uint64): (Machine, nat) {
    var s1 := EnsureTable(s, root, Index4(v), flags);
    var pdp := Frame(Entry(s1.mem, root, Index4(v)));
    var s2 := EnsureTable(s1, pdp, Index3(v), flags);
    (s2, Frame(Entry(s2.mem, pdp, Index3(v))))
  }

  function MapPage(s: Machine, root: nat, phys: uint64, v: uint64, flags: uint64): Machine {
    if v < LOW_LIMIT then s else
    var (s2, pd) := DirectoryOf(s, root, v, flags);
    if Huge(Entry(s2.mem, pd, Index2(v))) then s2 else
    var s3 := EnsureTable(s2, pd, Index2(v), flags);
    var pt := Frame(Entry(s3.mem, pd, Index2(v)));
    s3.(mem := SetEntry(s3.mem, pt, Index1(v), MakeEntry(phys, flags)))
  }

  /** n more pages can be handed out. */
  predicate Room(s: Machine, n: nat) {
    s.next + n * PAGE_SIZE <= |s.mem| < TWO_64
  }

  /** The part of a step that building tables keeps: what was a table still is. */
  ghost predicate Grows(s: Machine, s': Machine, root: nat) {
    && |s'.mem| == |s.mem| && s.next <= s'.next
    && Tree(s'.mem, root, s'.next)
    && SameWalks(s.mem, s'.mem, root)
    && (forall q {:trigger TableAt(s'.mem, root, q)} :: TablePath(q) && TableAt(s.mem, root, q).Some?
          ==> TableAt(s'.mem, root, q) == TableAt(s.mem, root, q))
  }

  lemma EnsureTableGrows(s: Machine, root: nat, p: Path, i: nat, flags: uint64)
    requires Tree(s.mem, root, s.next) && Room(s, 1) && PageFlags(flags)
    requires TablePath(p) && Depth(p) <= 2 && i < 512 && TableAt(s.mem, root, p).Some?
    requires Present(Entry(s.mem, TableAt(s.mem, root, p).value, i)) ==> !Huge(Entry(s.mem, TableAt(s.mem, root, p).value, i))
    ensures var t := TableAt(s.mem, root, p).value;
            var r := EnsureTable(s, t, i, flags);
            && Grows(s, r, root)
            && r.next == s.next + (if TableAt(s.mem, root, Child(p, i)).Some? then 0 else PAGE_SIZE)
            && TableAt(r.mem, root, Child(p, i)) == Some(Frame(Entry(r.mem, t, i)))
            && (TableAt(s.mem, root, Child(p, i)).None? ==> TableAt(r.mem, root, Child(p, i)) == Some(s.next))
  {
    var t := TableAt(s.mem, root, p).value;
    var r := EnsureTable(s, t, i, flags);
    if !Present(Entry(s.mem, t, i)) {
      var a := AllocPage(s);
      var e := MakeEntry(s.next, flags);
      AllocKeepsTree(s, root);
      EntryOfTable(s.next, flags);
      EntryOfZeroFill(s.mem, s.next, t, i);
      assert CanLink(a.mem, root, a.next, p, i, s.next, e);
      LinkKeepsTree(a.mem, root, a.next, p, i, s.next, e);
      EntryOfSet(a.mem, t, i, e, t, i);
      NewTableKeepsWalks(s, root, p, i, e);
      NewTableKeepsOld(s, root, p, i, e);
    }
  }

  lemma NewTableKeepsWalks(s: Machine, root: nat, p: Path, i: nat, e: uint64)
    requires Tree(s.mem, root, s.next) && Room(s, 1)
    requires CanLink(AllocPage(s).mem, root, AllocPage(s).next, p, i, s.next, e)
    requires TableAt(AllocPage(s).mem, root, p) == TableAt(s.mem, root, p)
    ensures SameWalks(s.mem, SetEntry(AllocPage(s).mem, TableAt(s.mem, root, p).value, i, e), root)
  {
    var a := AllocPage(s);
    forall w
      ensures Walk(SetEntry(a.mem, TableAt(s.mem, root, p).value, i, e), root, w) == Walk(s.mem, root, w)
    {
      AllocKeepsTree(s, root);
      assert Walk(a.mem, root, w) == Walk(s.mem, root, w);
      LinkKeepsWalk(a.mem, root, a.next, p, i, s.next, e, w);
    }
  }

  lemma NewTableKeepsOld(s: Machine, root: nat, p: Path, i: nat, e: uint64)
    requires Tree(s.mem, root, s.next) && Room(s, 1)
    requires CanLink(AllocPage(s).mem, root, AllocPage(s).next, p, i, s.next, e)
    requires TableAt(AllocPage(s).mem, root, p) == TableAt(s.mem, root, p)
    ensures var mem' := SetEntry(AllocPage(s).mem, TableAt(s.mem, root, p).value, i, e);
            forall q {:trigger TableAt(mem', root, q)} :: TablePath(q) && TableAt(s.mem, root, q).Some?
              ==> TableAt(mem', root, q) == TableAt(s.mem, root, q)
  {
    var a := AllocPage(s);
    var mem' := SetEntry(a.mem, TableAt(s.mem, root, p).value, i, e);
    forall q | TablePath(q) && TableAt(s.mem, root, q).Some?
      ensures TableAt(mem', root, q) == TableAt(s.mem, root, q)
    {
      AllocKeepsTree(s, root);
      TablesOfLink(a.mem, root, a.next, p, i, s.next, e, q);
      NoTableUnder(a.mem, root, p, i, Child(p, i));
    }
  }

  /** The tables on the way to a page, once built. */
  ghost predicate BuiltTo(s: Machine, root: nat, v: uint64, s': Machine, depth: nat, t: nat) {
    && Grows(s, s', root)
    && s'.next <= s.next + depth * PAGE_SIZE
    && (depth >= 1 && TableAt(s.mem, root, Path1(v)).None? ==> TableAt(s'.mem, root, Path1(v)) == Some(s.next))
    && (depth == 1 ==> TableAt(s'.mem, root, Path1(v)) == Some(t))
    && (depth == 2 ==> TableAt(s'.mem, root, Path2(v)) == Some(t))
    && (depth == 3 ==> TableAt(s'.mem, root, Path3(v)) == Some(t))
  }

  lemma GrowsTransitive(a: Machine, b: Machine, c: Machine, root: nat)
    requires Grows(a, b, root) && Grows(b, c, root)
    ensures Grows(a, c, root)
  {
    forall q | TablePath(q) && TableAt(a.mem, root, q).Some?
      ensures TableAt(c.mem, root, q) == TableAt(a.mem, root, q)
    {
      assert TableAt(b.mem, root, q) == TableAt(a.mem, root, q);
    }
    forall w
      ensures Walk(c.mem, root, w) == Walk(a.mem, root, w)
    {
      assert Walk(b.mem, root, w) == Walk(a.mem, root, w);
    }
  }

  lemma TwoTablesBuilt(s: Machine, root: nat, v: uint64, flags: uint64)
    requires Tree(s.mem, root, s.next) && Room(s, 2) && PageFlags(flags)
    ensures BuiltTo(s, root, v, DirectoryOf(s, root, v, flags).0, 2, DirectoryOf(s, root, v, flags).1)
  {
    assert TableAt(s.mem, root, Root) == Some(root);
    EnsureTableGrows(s, root, Root, Index4(v), flags);
    var s1 := EnsureTable(s, root, Index4(v), flags);
    var pdp := Frame(Entry(s1.mem, root, Index4(v)));
    assert TablePath(Path1(v)) && Depth(Path1(v)) == 1;
    EnsureTableGrows(s1, root, Path1(v), Index3(v), flags);
    GrowsTransitive(s, s1, EnsureTable(s1, pdp, Index3(v), flags), root);
  }

  /** A page is under a huge mapping. */
  predicate HugeCovered(mem: seq<byte>, root: nat, v: nat) {
    Walk(mem, root, v).Large?
  }

  /** The directory entry of a page is huge exactly when the walk ends there. */
  lemma HugeEntry(mem: seq<byte>, root: nat, next: nat, v: nat)
    requires Tree(mem, root, next) && TableAt(mem, root, Path2(v)).Some?
    ensures Huge(Entry(mem, TableAt(mem, root, Path2(v)).value, Index2(v))) <==> HugeCovered(mem, root, v)
  {
    WalkByTables(mem, root, next, v);
  }

  /** Where mmu_map_page takes effect. */
  predicate Mappable(mem: seq<byte>, root: nat, v: nat) {
    v >= LOW_LIMIT && !HugeCovered(mem, root, v)
  }

  /** The tables are all there, or the page is huge and nothing was built. */
  lemma MapPageBuilds(s: Machine, root: nat, phys: uint64, v: uint64, flags: uint64)
    requires Tree(s.mem, root, s.next) && Room(s, 3) && PageFlags(flags) && v >= LOW_LIMIT
    ensures var r := MapPage(s, root, phys, v, flags);
            if HugeCovered(s.mem, root, v) then r == s
            else exists s3, pt :: BuiltTo(s, root, v, s3, 3, pt) &&
                                  r == s3.(mem := SetEntry(s3.mem, pt, Index1(v), MakeEntry(phys, flags)))
  {
    var (s2, pd) := DirectoryOf(s, root, v, flags);
    TwoTablesBuilt(s, root, v, flags);
    HugeEntry(s2.mem, root, s2.next, v);
    assert Walk(s2.mem, root, v) == Walk(s.mem, root, v);
    PathFacts(v);
    if HugeCovered(s.mem, root, v) {
      NothingBuiltWhenHuge(s, root, v, flags);
    } else {
      EnsureTableGrows(s2, root, Path2(v), Index2(v), flags);
      var s3 := EnsureTable(s2, pd, Index2(v), flags);
      GrowsTransitive(s, s2, s3, root);
      assert BuiltTo(s, root, v, s3, 3, Frame(Entry(s3.mem, pd, Index2(v))));
    }
  }

  lemma NothingBuiltWhenHuge(s: Machine, root: nat, v: uint64, flags: uint64)
    requires Tree(s.mem, root, s.next) && HugeCovered(s.mem, root, v)
    ensures DirectoryOf(s, root, v, flags).0 == s
  {
    WalkDown(s.mem, root, s.next, v);
  }

  /** Under a huge page the call does nothing, whatever the flags. */
  lemma MapOfHuge(s: Machine, root: nat, phys: uint64, v: uint64, flags: uint64)
    requires Tree(s.mem, root, s.next) && HugeCovered(s.mem, root, v)
    ensures MapPage(s, root, phys, v, flags) == s
  {
    NothingBuiltWhenHuge(s, root, v, flags);
    WalkDown(s.mem, root, s.next, v);
  }

  /** Mapping refines an abstract map: the page gets the entry `phys | flags`, every
      other page keeps its walk, and the tables stay a tree; a low or huge page makes
      the call a no-op. */
  lemma MapPageCorrect(s: Machine, root: nat, phys: uint64, v: uint64, flags: uint64)
    requires Tree(s.mem, root, s.next) && Room(s, 3) && PageFlags(flags)
    ensures var r := MapPage(s, root, phys, v, flags);
            && Tree(r.mem, root, r.next)
            && |r.mem| == |s.mem| && s.next <= r.next <= s.next + 3 * PAGE_SIZE
            && (v < 0x40_0000 || HugeCovered(s.mem, root, v) ==> r == s)
            && forall w :: Walk(r.mem, root, w) ==
                           if v >= 0x40_0000 && !HugeCovered(s.mem, root, v) && PageNumber(w) == PageNumber(v)
                           then Small(MakeEntry(phys, flags)) else Walk(s.mem, root, w)
  {
    if v >= LOW_LIMIT {
      MapPageBuilds(s, root, phys, v, flags);
      if !HugeCovered(s.mem, root, v) {
        var s3, pt :| BuiltTo(s, root, v, s3, 3, pt) &&
          MapPage(s, root, phys, v, flags) == s3.(mem := SetEntry(s3.mem, pt, Index1(v), MakeEntry(phys, flags)));
        LeafStored(s, s3, root, v, pt, MakeEntry(phys, flags));
        EntryIsPresent(phys, flags);
      }
    }
  }

  /** Through the page mapped the processor reaches the physical page, byte for byte. */
  lemma MappedAddress(s: Machine, root: nat, phys: uint64, v: uint64, flags: uint64, w: nat)
    requires Tree(s.mem, root, s.next) && Room(s, 3) && PageFlags(flags) && Mappable(s.mem, root, v)
    requires Aligned(phys) && phys < 0x10_0000_0000_0000 && PageNumber(w) == PageNumber(v)
    ensures Translate(MapPage(s, root, phys, v, flags).mem, root, w) == Some(phys + w % 4096)
  {
    MappedWalk(s, root, phys, v, flags, w);
    TranslateSmall(MapPage(s, root, phys, v, flags).mem, root, w, phys, flags);
  }

  lemma MappedWalk(s: Machine, root: nat, phys: uint64, v: uint64, flags: uint64, w: nat)
    requires Tree(s.mem, root, s.next) && Room(s, 3) && PageFlags(flags) && Mappable(s.mem, root, v)
    requires Aligned(phys) && PageNumber(w) == PageNumber(v)
    ensures Walk(MapPage(s, root, phys, v, flags).mem, root, w) == Small(phys + flags)
  {
    MapPageCorrect(s, root, phys, v, flags);
    EntryOfTable(phys, flags);
  }

  lemma TranslateSmall(mem: seq<byte>, root: nat, w: nat, phys: nat, flags: nat)
    requires Walk(mem, root, w) == Small(phys + flags)
    requires Aligned(phys) && phys < PHYSICAL_LIMIT && flags < PAGE_SIZE
    ensures Translate(mem, root, w) == Some(phys + w % 4096)
  {
    SmallAddress(phys, flags, w);
  }

  lemma SmallAddress(phys: nat, flags: nat, w: nat)
    requires Aligned(phys) && phys < PHYSICAL_LIMIT && flags < PAGE_SIZE
    ensures PhysicalAddress(phys + flags, w, 0x1000) == phys + w % 4096
  {
    SumOfAligned(phys / PAGE_SIZE, flags);
    assert phys == phys / PAGE_SIZE * PAGE_SIZE;
    LowEntry(phys + flags);
  }

  /** A call that has to make the upper table takes the next page for it. */
  lemma MapPageTakesNext(s: Machine, root: nat, phys: uint64, v: uint64, flags: uint64)
    requires Tree(s.mem, root, s.next) && Room(s, 3) && PageFlags(flags) && v >= LOW_LIMIT
    requires TableAt(s.mem, root, Path1(v)).None?
    ensures LeadsTo(Entry(MapPage(s, root, phys, v, flags).mem, root, Index4(v)), s.next)
  {
    NotHugeWithoutTable(s.mem, root, s.next, v);
    MapPageBuilds(s, root, phys, v, flags);
    var s3, pt :| BuiltTo(s, root, v, s3, 3, pt) &&
      MapPage(s, root, phys, v, flags) == s3.(mem := SetEntry(s3.mem, pt, Index1(v), MakeEntry(phys, flags)));
    FirstTableStays(s, s3, root, v, pt, MakeEntry(phys, flags));
  }

  predicate LeadsTo(e: nat, t: nat) { Present(e) && Frame(e) == t }

  lemma NotHugeWithoutTable(mem: seq<byte>, root: nat, next: nat, v: nat)
    requires Tree(mem, root, next) && TableAt(mem, root, Path1(v)).None?
    ensures !HugeCovered(mem, root, v)
  {
    WalkByTables(mem, root, next, v);
  }

  lemma FirstTableStays(s: Machine, s3: Machine, root: nat, v: uint64, pt: nat, e: uint64)
    requires BuiltTo(s, root, v, s3, 3, pt) && TableAt(s.mem, root, Path1(v)).None?
    ensures LeadsTo(Entry(SetEntry(s3.mem, pt, Index1(v), e), root, Index4(v)), s.next)
  {
    LeafWriteKeepsTree(s3.mem, root, s3.next, v, e);
    PathFacts(v);
    FirstTableLeads(SetEntry(s3.mem, pt, Index1(v), e), root, v, s.next);
  }

  lemma FirstTableLeads(mem: seq<byte>, root: nat, v: nat, t: nat)
    requires TableAt(mem, root, Path1(v)) == Some(t)
    ensures LeadsTo(Entry(mem, root, Index4(v)), t)
  {
    assert TableAt(mem, root, Root) == Some(root);
  }

  /** No call moves a table. */
  lemma MapPageKeepsTable(s: Machine, root: nat, phys: uint64, v: uint64, flags: uint64, q: Path)
    requires Tree(s.mem, root, s.next) && Room(s, 3) && PageFlags(flags)
    requires TablePath(q) && TableAt(s.mem, root, q).Some?
    ensures TableAt(MapPage(s, root, phys, v, flags).mem, root, q) == TableAt(s.mem, root, q)
  {
    if v >= LOW_LIMIT {
      MapPageBuilds(s, root, phys, v, flags);
      if !HugeCovered(s.mem, root, v) {
        var s3, pt :| BuiltTo(s, root, v, s3, 3, pt) &&
          MapPage(s, root, phys, v, flags) == s3.(mem := SetEntry(s3.mem, pt, Index1(v), MakeEntry(phys, flags)));
        LeafWriteKeepsTree(s3.mem, root, s3.next, v, MakeEntry(phys, flags));
      }
    }
  }

  lemma LeafStored(s: Machine, s3: Machine, root: nat, v: uint64, pt: nat, e: uint64)
    requires BuiltTo(s, root, v, s3, 3, pt)
    ensures var mem' := SetEntry(s3.mem, pt, Index1(v), e);
            && Tree(mem', root, s3.next)
            && forall w :: Walk(mem', root, w) ==
                           if PageNumber(w) == PageNumber(v) then LeafOf(e) else Walk(s.mem, root, w)
  {
    LeafWriteKeepsTree(s3.mem, root, s3.next, v, e);
    var mem' := SetEntry(s3.mem, pt, Index1(v), e);
    forall w
      ensures Walk(mem', root, w) == if PageNumber(w) == PageNumber(v) then LeafOf(e) else Walk(s.mem, root, w)
    {
      LeafWrite(s3.mem, root, s3.next, v, e, w);
      assert Walk(s3.mem, root, w) == Walk(s.mem, root, w);
    }
  }

  // ----- mmu_is_mapped -----

  /** The code's walk: it looks at the huge bit before the present bit, and for a
      huge bit in page directories only. */
  predicate IsMapped(mem: seq<byte>, root: nat, v: nat) {
    var e4 := Entry(mem, root, Index4(v));
    Present(e4) &&
    var e3 := Entry(mem, Frame(e4), Index3(v));
    Present(e3) &&
    var e2 := Entry(mem, Frame(e3), Index2(v));
    (Huge(e2) ||
     (Present(e2) && Present(Entry(mem, Frame(e2), Index1(v)))))
  }

  /** On a tree the code's query agrees with the processor. */
  lemma IsMappedIsWalk(mem: seq<byte>, root: nat, next: nat, v: nat)
    requires Tree(mem, root, next)
    ensures IsMapped(mem, root, v) <==> Walk(mem, root, v) != NotMapped
  {
    WalkDown(mem, root, next, v);
    if DirectoryAt(mem, root, v).Some? {
      DirectoryEntry(mem, root, next, v, DirectoryAt(mem, root, v).value);
    }
  }

  // ----- mmu_unmap_page -----

  /** The root mmu_unmap_page walks from, whatever CR3 holds. */
  const UNMAP_ROOT: nat := 0x1000

  function UnmapPage(mem: seq<byte>, v: nat): (r: seq<byte>)
    ensures |r| == |mem|
  {
    var e4 := Entry(mem, UNMAP_ROOT, Index4(v));
    if !Present(e4) then mem else
    var e3 := Entry(mem, Frame(e4), Index3(v));
    if !Present(e3) then mem else
    var e2 := Entry(mem, Frame(e3), Index2(v));
    if !Present(e2) then mem else
    SetEntry(mem, Frame(e2), Index1(v), 0)
  }

  /** When CR3 is that root and the page is not huge, the page and only it goes. */
  lemma UnmapCorrect(mem: seq<byte>, next: nat, v: nat)
    requires Tree(mem, 0x1000, next) && !HugeCovered(mem, 0x1000, v)
    ensures var mem' := UnmapPage(mem, v);
            && Tree(mem', 0x1000, next)
            && forall w :: Walk(mem', 0x1000, w) ==
                           if PageNumber(w) == PageNumber(v) then NotMapped else Walk(mem, 0x1000, w)
  {
    UnmapFindsLeafTable(mem, next, v);
    WalkByTables(mem, UNMAP_ROOT, next, v);
    var mem' := UnmapPage(mem, v);
    if TableAt(mem, UNMAP_ROOT, Path3(v)).Some? {
      LeafWriteKeepsTree(mem, UNMAP_ROOT, next, v, 0);
      forall w
        ensures Walk(mem', UNMAP_ROOT, w) ==
                if PageNumber(w) == PageNumber(v) then NotMapped else Walk(mem, UNMAP_ROOT, w)
      {
        LeafWrite(mem, UNMAP_ROOT, next, v, 0, w);
      }
    } else {
      forall w | PageNumber(w) == PageNumber(v)
        ensures Walk(mem, UNMAP_ROOT, w) == NotMapped
      {
        SamePage(v, w);
      }
    }
  }

  lemma UnmapFindsLeafTable(mem: seq<byte>, next: nat, v: nat)
    requires Tree(mem, UNMAP_ROOT, next) && !HugeCovered(mem, UNMAP_ROOT, v)
    ensures UnmapPage(mem, v) ==
            match TableAt(mem, UNMAP_ROOT, Path3(v))
            case None => mem
            case Some(pt) => SetEntry(mem, pt, Index1(v), 0)
  {
    WalkDown(mem, UNMAP_ROOT, next, v);
    match DirectoryAt(mem, UNMAP_ROOT, v) {
      case None =>
      case Some(pd) =>
        DirectoryEntry(mem, UNMAP_ROOT, next, v, pd);
        HugeEntry(mem, UNMAP_ROOT, next, v);
    }
  }

  lemma UnmapOfHuge(mem: seq<byte>, next: nat, v: nat)
    requires Tree(mem, UNMAP_ROOT, next) && HugeCovered(mem, UNMAP_ROOT, v)
    ensures UnmapPage(mem, v) == SetEntry(mem, Frame(Walk(mem, UNMAP_ROOT, v).entry), Index1(v), 0)
  {
    WalkDown(mem, UNMAP_ROOT, next, v);
  }

  // ----- the word mmu_unmap_page clears, and who reads it -----

  function WordAt(t: nat, i: nat): nat { t + 8 * i }

  /** The word a call clears, told before the call. */
  function Cleared(mem: seq<byte>, v: nat): Option<nat> {
    var e4 := Entry(mem, UNMAP_ROOT, Index4(v));
    if !Present(e4) then None else
    var e3 := Entry(mem, Frame(e4), Index3(v));
    if !Present(e3) then None else
    var e2 := Entry(mem, Frame(e3), Index2(v));
    if Present(e2) then Some(WordAt(Frame(e2), Index1(v))) else None
  }

  /** The query of w reads the word at a. */
  predicate QueryReads(mem: seq<byte>, root: nat, w: nat, a: nat) {
    a == WordAt(root, Index4(w)) ||
    var e4 := Entry(mem, root, Index4(w));
    Present(e4) &&
    (a == WordAt(Frame(e4), Index3(w)) ||
     var e3 := Entry(mem, Frame(e4), Index3(w));
     Present(e3) &&
     (a == WordAt(Frame(e3), Index2(w)) ||
      (Links(Entry(mem, Frame(e3), Index2(w))) &&
       a == WordAt(Frame(Entry(mem, Frame(e3), Index2(w))), Index1(w)))))
  }

  /** The processor's walk of w reads the word at a. */
  predicate WalkReads(mem: seq<byte>, root: nat, w: nat, a: nat) {
    a == WordAt(root, Index4(w)) ||
    var e4 := Entry(mem, root, Index4(w));
    Present(e4) &&
    (a == WordAt(TableAddress(e4), Index3(w)) ||
     var e3 := Entry(mem, TableAddress(e4), Index3(w));
     Links(e3) &&
     (a == WordAt(TableAddress(e3), Index2(w)) ||
      (Links(Entry(mem, TableAddress(e3), Index2(w))) &&
       a == WordAt(TableAddress(Entry(mem, TableAddress(e3), Index2(w))), Index1(w)))))
  }

  lemma TableIsAligned(e: nat)
    ensures Aligned(TableAddress(e))
  {
    FrameIsAligned(e % PHYSICAL_LIMIT);
  }

  /** Clearing one word makes that entry absent, in whichever table it is read, and
      leaves the others alone. */
  lemma EntryOfClear(mem: seq<byte>, t: nat, i: nat, s: nat, j: nat)
    requires Aligned(t) && Aligned(s) && i < 512 && j < 512
    ensures Entry(SetEntry(mem, t, i, 0), s, j) == if WordAt(s, j) == WordAt(t, i) then 0 else Entry(mem, s, j)
  {
    if WordAt(t, i) + 8 <= |mem| && WordAt(s, j) + 8 <= |mem| {
      if WordAt(s, j) == WordAt(t, i) {
        ReadOfWrite(mem, t + 8 * i, 0);
      } else {
        OtherEntry(t, i, s, j);
        ReadOfOtherWrite(mem, t + 8 * i, 0, s + 8 * j);
      }
    }
  }

  lemma ClearChangesQuery(mem: seq<byte>, t: nat, i: nat, root: nat, w: nat)
    requires Aligned(root) && Aligned(t) && i < 512
    ensures IsMapped(SetEntry(mem, t, i, 0), root, w) ==
            (IsMapped(mem, root, w) && !QueryReads(mem, root, w, WordAt(t, i)))
  {
    var e4 := Entry(mem, root, Index4(w));
    EntryOfClear(mem, t, i, root, Index4(w));
    if WordAt(root, Index4(w)) != WordAt(t, i) && Present(e4) {
      var e3 := Entry(mem, Frame(e4), Index3(w));
      FrameIsAligned(e4);
      EntryOfClear(mem, t, i, Frame(e4), Index3(w));
      if WordAt(Frame(e4), Index3(w)) != WordAt(t, i) && Present(e3) {
        var e2 := Entry(mem, Frame(e3), Index2(w));
        FrameIsAligned(e3);
        EntryOfClear(mem, t, i, Frame(e3), Index2(w));
        FrameIsAligned(e2);
        EntryOfClear(mem, t, i, Frame(e2), Index1(w));
      }
    }
  }

  lemma ClearChangesWalk(mem: seq<byte>, t: nat, i: nat, root: nat, w: nat)
    requires Aligned(root) && Aligned(t) && i < 512
    ensures Walk(SetEntry(mem, t, i, 0), root, w) ==
            if WalkReads(mem, root, w, WordAt(t, i)) then NotMapped else Walk(mem, root, w)
  {
    var e4 := Entry(mem, root, Index4(w));
    EntryOfClear(mem, t, i, root, Index4(w));
    if WordAt(root, Index4(w)) != WordAt(t, i) && Present(e4) {
      var e3 := Entry(mem, TableAddress(e4), Index3(w));
      TableIsAligned(e4);
      EntryOfClear(mem, t, i, TableAddress(e4), Index3(w));
      if WordAt(TableAddress(e4), Index3(w)) != WordAt(t, i) && Links(e3) {
        var e2 := Entry(mem, TableAddress(e3), Index2(w));
        TableIsAligned(e3);
        EntryOfClear(mem, t, i, TableAddress(e3), Index2(w));
        TableIsAligned(e2);
        EntryOfClear(mem, t, i, TableAddress(e2), Index1(w));
      }
    }
  }

  /** The words read on the way to a huge page. */
  lemma HugeReads(mem: seq<byte>, root: nat, next: nat, w: nat, pdp: nat, pd: nat, a: nat)
    requires Tree(mem, root, next) && HugeCovered(mem, root, w)
    requires TableAt(mem, root, Path1(w)) == Some(pdp) && TableAt(mem, root, Path2(w)) == Some(pd)
    ensures QueryReads(mem, root, w, a) ==
            (a == WordAt(root, Index4(w)) || a == WordAt(pdp, Index3(w)) || a == WordAt(pd, Index2(w)))
  {
    FirstTableLeads(mem, root, w, pdp);
    WalkDown(mem, root, next, w);
    HugeEntry(mem, root, next, w);
  }

  lemma UnmapClears(mem: seq<byte>, v: nat)
    ensures match Cleared(mem, v)
            case None => UnmapPage(mem, v) == mem
            case Some(a) => exists t, i :: Aligned(t) && i < 512 && a == WordAt(t, i)
                                           && UnmapPage(mem, v) == SetEntry(mem, t, i, 0)
  {
    if Cleared(mem, v).Some? {
      var e3 := Entry(mem, Frame(Entry(mem, UNMAP_ROOT, Index4(v))), Index3(v));
      var e2 := Entry(mem, Frame(e3), Index2(v));
      FrameIsAligned(e2);
      assert Cleared(mem, v) == Some(WordAt(Frame(e2), Index1(v)));
      assert UnmapPage(mem, v) == SetEntry(mem, Frame(e2), Index1(v), 0);
    }
  }

  /** Exactly what mmu_unmap_page(v) does to the query and the walk of every page w, in
      any memory and under any CR3: those that read the word it clears end there, and no
      other changes. */
  lemma UnmapExactly(mem: seq<byte>, root: nat, v: nat, w: nat)
    requires Aligned(root)
    ensures IsMapped(UnmapPage(mem, v), root, w) <==>
            IsMapped(mem, root, w)
            && !(Cleared(mem, v).Some? && QueryReads(mem, root, w, Cleared(mem, v).value))
    ensures Walk(UnmapPage(mem, v), root, w) ==
            if Cleared(mem, v).Some? && WalkReads(mem, root, w, Cleared(mem, v).value)
            then NotMapped else Walk(mem, root, w)
  {
    UnmapClears(mem, v);
    if Cleared(mem, v).Some? {
      var t, i :| Aligned(t) && i < 512 && Cleared(mem, v) == Some(WordAt(t, i))
                  && UnmapPage(mem, v) == SetEntry(mem, t, i, 0);
      ClearChangesQuery(mem, t, i, root, w);
      ClearChangesWalk(mem, t, i, root, w);
    }
  }

  /** Exactly when mmu_unmap_page does its job: on a page of the root it uses that is not
      huge always; else when the word it clears is, by accident, on the way to the page. */
  lemma UnmapWorksIff(mem: seq<byte>, root: nat, next: nat, v: nat)
    requires Tree(mem, root, next)
    ensures !IsMapped(UnmapPage(mem, v), root, v) <==>
            || !IsMapped(mem, root, v)
            || (root == UNMAP_ROOT && !HugeCovered(mem, root, v))
            || (Cleared(mem, v).Some? && QueryReads(mem, root, v, Cleared(mem, v).value))
  {
    assert TableAt(mem, root, Root) == Some(root);
    UnmapExactly(mem, root, v, v);
    IsMappedIsWalk(mem, root, next, v);
    if root == UNMAP_ROOT && !HugeCovered(mem, root, v) {
      UnmapCorrect(mem, next, v);
      IsMappedIsWalk(UnmapPage(mem, v), root, next, v);
    }
  }

  /** Exactly when a call leaves every page but its own alone. */
  lemma UnmapSparesOthersIff(mem: seq<byte>, root: nat, v: nat)
    requires Aligned(root)
    ensures (forall w :: PageNumber(w) != PageNumber(v) ==> Walk(UnmapPage(mem, v), root, w) == Walk(mem, root, w))
       <==> (Cleared(mem, v).Some? ==>
               forall w :: PageNumber(w) != PageNumber(v) && Walk(mem, root, w) != NotMapped ==>
                             !WalkReads(mem, root, w, Cleared(mem, v).value))
  {
    forall w
      ensures Walk(UnmapPage(mem, v), root, w) ==
              if Cleared(mem, v).Some? && WalkReads(mem, root, w, Cleared(mem, v).value)
              then NotMapped else Walk(mem, root, w)
    {
      UnmapExactly(mem, root, v, w);
    }
  }

  /** Under a huge page the call clears a word at the start of the huge frame. Every walk
      stays exactly when no mapped page is reached through that word; where that frame is
      no table, the tree stays as well. */
  lemma UnmapOfHugeIff(mem: seq<byte>, next: nat, v: nat)
    requires Tree(mem, UNMAP_ROOT, next) && HugeCovered(mem, UNMAP_ROOT, v)
    ensures var page := Frame(Walk(mem, UNMAP_ROOT, v).entry);
            && Cleared(mem, v) == Some(WordAt(page, Index1(v)))
            && (SameWalks(mem, UnmapPage(mem, v), UNMAP_ROOT) <==>
                forall w :: Walk(mem, UNMAP_ROOT, w) != NotMapped ==>
                              !WalkReads(mem, UNMAP_ROOT, w, WordAt(page, Index1(v))))
            && (Unused(mem, UNMAP_ROOT, page) ==>
                  SameWalks(mem, UnmapPage(mem, v), UNMAP_ROOT) && Tree(UnmapPage(mem, v), UNMAP_ROOT, next))
  {
    UnmapOfHuge(mem, next, v);
    WalkDown(mem, UNMAP_ROOT, next, v);
    var page := Frame(Walk(mem, UNMAP_ROOT, v).entry);
    FrameIsAligned(Walk(mem, UNMAP_ROOT, v).entry);
    forall w
      ensures Walk(UnmapPage(mem, v), UNMAP_ROOT, w) ==
              if WalkReads(mem, UNMAP_ROOT, w, WordAt(page, Index1(v))) then NotMapped else Walk(mem, UNMAP_ROOT, w)
    {
      ClearChangesWalk(mem, page, Index1(v), UNMAP_ROOT, w);
    }
    if Unused(mem, UNMAP_ROOT, page) {
      StoreInUnusedPage(mem, UNMAP_ROOT, next, page, Index1(v), 0);
    }
  }

  /** Map, query and unmap agree. */
  lemma MapQueryUnmap(s: Machine, root: nat, phys: uint64, v: uint64, flags: uint64, w: nat)
    requires Tree(s.mem, root, s.next) && Room(s, 3) && PageFlags(flags)
    ensures var r := MapPage(s, root, phys, v, flags);
            && (IsMapped(r.mem, root, v) <==> v >= LOW_LIMIT || IsMapped(s.mem, root, v))
            && (PageNumber(w) != PageNumber(v) ==> (IsMapped(r.mem, root, w) <==> IsMapped(s.mem, root, w)))
            && (root == UNMAP_ROOT && Mappable(s.mem, root, v) ==>
                  var u := UnmapPage(r.mem, v);
                  && !IsMapped(u, root, v)
                  && (PageNumber(w) != PageNumber(v) ==> (IsMapped(u, root, w) <==> IsMapped(s.mem, root, w))))
  {
    var r := MapPage(s, root, phys, v, flags);
    MapPageCorrect(s, root, phys, v, flags);
    IsMappedIsWalk(s.mem, root, s.next, v);
    IsMappedIsWalk(s.mem, root, s.next, w);
    IsMappedIsWalk(r.mem, root, r.next, v);
    IsMappedIsWalk(r.mem, root, r.next, w);
    if root == UNMAP_ROOT && Mappable(s.mem, root, v) {
      UnmapCorrect(r.mem, r.next, v);
      IsMappedIsWalk(UnmapPage(r.mem, v), root, r.next, v);
      IsMappedIsWalk(UnmapPage(r.mem, v), root, r.next, w);
    }
  }

  // ----- every run -----

  datatype Op =
    | Alloc
    | Map(phys: uint64, virt: uint64, flags: uint64)
    | Unmap(virt: uint64)
    | Poke(addr: nat, value: byte)

  /** One call; Poke is a store by the rest of the kernel. */
  function Exec(s: Machine, root: nat, op: Op): Machine {
    match op
    case Alloc => AllocPage(s)
    case Map(phys, v, flags) => MapPage(s, root, phys, v, flags)
    case Unmap(v) => s.(mem := UnmapPage(s.mem, v))
    case Poke(a, b) => if a < |s.mem| then s.(mem := s.mem[a := b]) else s
  }

  /** What callers owe: sensible flags, no unmapping of huge pages or under another
      root, and stores that stay out of the tables. */
  ghost predicate Legal(s: Machine, root: nat, op: Op) {
    match op
    case Alloc => true
    case Map(_, _, flags) => PageFlags(flags)
    case Unmap(v) => root == UNMAP_ROOT && !HugeCovered(s.mem, root, v)
    case Poke(a, _) => Unused(s.mem, root, Frame(a))
  }

  function Run(s: Machine, root: nat, ops: seq<Op>): Machine
    decreases |ops|
  {
    if ops == [] then s else Run(Exec(s, root, ops[0]), root, ops[1..])
  }

  ghost predicate LegalRun(s: Machine, root: nat, ops: seq<Op>)
    decreases |ops|
  {
    ops == [] || (Legal(s, root, ops[0]) && LegalRun(Exec(s, root, ops[0]), root, ops[1..]))
  }

  /** The abstract map: what one call does to the leaf of page w, memory aside. */
  function LeafAfter(leaf: Leaf, op: Op, w: nat): Leaf {
    match op
    case Map(phys, v, flags) =>
      if v >= LOW_LIMIT && PageNumber(v) == PageNumber(w) && !leaf.Large? then Small(MakeEntry(phys, flags)) else leaf
    case Unmap(v) => if PageNumber(v) == PageNumber(w) then NotMapped else leaf
    case _ => leaf
  }

  function LeafAfterAll(leaf: Leaf, ops: seq<Op>, w: nat): Leaf
    decreases |ops|
  {
    if ops == [] then leaf else LeafAfterAll(LeafAfter(leaf, ops[0], w), ops[1..], w)
  }

  lemma WalkOfSamePage(mem: seq<byte>, root: nat, v: nat, w: nat)
    requires PageNumber(v) == PageNumber(w)
    ensures Walk(mem, root, v) == Walk(mem, root, w)
  {
    SamePage(v, w);
  }

  lemma ExecRefinesMap(s: Machine, root: nat, op: Op)
    requires Tree(s.mem, root, s.next) && Room(s, 3) && Legal(s, root, op)
    ensures var r := Exec(s, root, op);
            && Tree(r.mem, root, r.next)
            && |r.mem| == |s.mem| && s.next <= r.next <= s.next + 3 * PAGE_SIZE
            && forall w :: Walk(r.mem, root, w) == LeafAfter(Walk(s.mem, root, w), op, w)
  {
    var r := Exec(s, root, op);
    match op
    case Alloc =>
      AllocKeepsTree(s, root);
    case Map(phys, v, flags) =>
      MapRefinesMap(s, root, phys, v, flags);
    case Unmap(v) =>
      UnmapCorrect(s.mem, s.next, v);
    case Poke(a, b) =>
      WriteInUnusedPage(s.mem, r.mem, root, s.next, Frame(a));
      UntouchedKeepsTree(s.mem, r.mem, root, s.next);
  }

  lemma MapRefinesMap(s: Machine, root: nat, phys: uint64, v: uint64, flags: uint64)
    requires Tree(s.mem, root, s.next) && Room(s, 3) && PageFlags(flags)
    ensures var r := MapPage(s, root, phys, v, flags);
            && Tree(r.mem, root, r.next)
            && |r.mem| == |s.mem| && s.next <= r.next <= s.next + 3 * PAGE_SIZE
            && forall w :: Walk(r.mem, root, w) == LeafAfter(Walk(s.mem, root, w), Map(phys, v, flags), w)
  {
    var r := MapPage(s, root, phys, v, flags);
    MapPageCorrect(s, root, phys, v, flags);
    forall w
      ensures Walk(r.mem, root, w) == LeafAfter(Walk(s.mem, root, w), Map(phys, v, flags), w)
    {
      if PageNumber(v) == PageNumber(w) {
        WalkOfSamePage(s.mem, root, v, w);
      }
    }
  }

  /** Every run of calls keeps the tables separate, and the walk of every page is what
      the abstract map says. */
  lemma {:induction false} RunRefinesMap(s: Machine, root: nat, ops: seq<Op>, w: nat)
    requires Tree(s.mem, root, s.next) && Room(s, 3 * |ops|) && LegalRun(s, root, ops)
    ensures var r := Run(s, root, ops);
            && Tree(r.mem, root, r.next)
            && Walk(r.mem, root, w) == LeafAfterAll(Walk(s.mem, root, w), ops, w)
    decreases |ops|
  {
    if ops != [] {
      ExecRefinesMap(s, root, ops[0]);
      RunRefinesMap(Exec(s, root, ops[0]), root, ops[1..], w);
    }
  }
}
