/** Four-level page tables as a tree in physical memory, after section 4.5 of the
    Intel 64 SDM, Volume 3A, and the table walk of src/impl/kernel/mmu.c. */
module Paging {
  import opened Memory
  import opened Wrappers

  const LOW_LIMIT: nat := 0x40_0000

  // ----- entries -----

  /** C's `a | b` on unsigned words. */
  function BitOr(a: nat, b: nat): nat {
    if a == 0 then b else if b == 0 then a
    else (if a % 2 == 1 || b % 2 == 1 then 1 else 0) + 2 * BitOr(a / 2, b / 2)
  }

  function Pow2(n: nat): (p: nat)
    ensures p >= 1
  {
    if n == 0 then 1 else 2 * Pow2(n - 1)
  }

  lemma {:induction false} BitOrBound(a: nat, b: nat, n: nat)
    requires a < Pow2(n) && b < Pow2(n)
    ensures BitOr(a, b) < Pow2(n)
  {
    if a != 0 && b != 0 {
      BitOrBound(a / 2, b / 2, n - 1);
    }
  }

  /** Below its alignment a number has room for flags. */
  lemma {:induction false} BitOrAligned(a: nat, b: nat, n: nat)
    requires b < Pow2(n)
    ensures BitOr(a * Pow2(n), b) == a * Pow2(n) + b
  {
    if n > 0 && a != 0 && b != 0 {
      var h := a * Pow2(n - 1);
      assert a * Pow2(n) == 2 * h;
      BitOrAligned(a, b / 2, n - 1);
    } else if a == 0 {
      assert a * Pow2(n) == 0;
    }
  }

  lemma Pow2By8(n: nat)
    ensures Pow2(n + 8) == 256 * Pow2(n)
  {
    assert Pow2(n + 8) == 4 * Pow2(n + 6) && Pow2(n + 6) == 4 * Pow2(n + 4);
    assert Pow2(n + 4) == 4 * Pow2(n + 2) && Pow2(n + 2) == 4 * Pow2(n);
  }

  lemma Pow2Of12And64()
    ensures Pow2(12) == PAGE_SIZE && Pow2(64) == TWO_64
  {
    assert Pow2(4) == 16;
    Pow2By8(4);
    assert Pow2(8) == 256;
    Pow2By8(8); Pow2By8(16); Pow2By8(24); Pow2By8(32); Pow2By8(40); Pow2By8(48); Pow2By8(56);
  }

  predicate Present(e: nat) { e % 2 == 1 }

  predicate Huge(e: nat) { e / 128 % 2 == 1 }

  /** `e & ~0xFFF` */
  function Frame(e: nat): nat { e - e % PAGE_SIZE }

  predicate Aligned(a: nat) { a % PAGE_SIZE == 0 }

  lemma FrameIsAligned(e: nat)
    ensures Aligned(Frame(e))
  {
  }

  /** Flags a caller passes to make a present 4 KiB mapping. */
  predicate PageFlags(flags: nat) {
    flags < PAGE_SIZE && Present(flags) && !Huge(flags)
  }

  /** `phys | flags` */
  function MakeEntry(phys: uint64, flags: uint64): (e: uint64) {
    Pow2Of12And64();
    BitOrBound(phys, flags, 64);
    BitOr(phys, flags)
  }

  lemma EntryOfTable(page: uint64, flags: uint64)
    requires Aligned(page) && flags < PAGE_SIZE
    ensures MakeEntry(page, flags) == page + flags
    ensures Frame(MakeEntry(page, flags)) == page
    ensures Present(MakeEntry(page, flags)) == (flags % 2 == 1)
    ensures Huge(MakeEntry(page, flags)) == (flags / 128 % 2 == 1)
  {
    Pow2Of12And64();
    BitOrAligned(page / PAGE_SIZE, flags, 12);
    SumOfAligned(page / PAGE_SIZE, flags);
    assert page == page / PAGE_SIZE * PAGE_SIZE;
  }

  lemma SumOfAligned(n: nat, flags: nat)
    requires flags < PAGE_SIZE
    ensures (n * PAGE_SIZE + flags) % PAGE_SIZE == flags
    ensures (n * PAGE_SIZE + flags) % 2 == flags % 2
    ensures (n * PAGE_SIZE + flags) / 128 % 2 == flags / 128 % 2
  {
    assert n * PAGE_SIZE + flags == 256 * (16 * n) + flags == n * 4096 + flags;
    SumOfMultiple(16 * n, flags);
    RemainderOfSum(n, flags);
  }

  lemma RemainderOfSum(n: nat, f: nat)
    requires f < 4096
    ensures (n * 4096 + f) % 4096 == f
    ensures (n * 4096 + f) % 2 == f % 2
  {
  }

  lemma SumOfMultiple(m: nat, f: nat)
    ensures (256 * m + f) / 128 == 2 * m + f / 128
    ensures (256 * m + f) / 128 % 2 == f / 128 % 2
  {
  }

  lemma EntryIsPresent(phys: uint64, flags: uint64)
    requires Present(flags)
    ensures Present(MakeEntry(phys, flags))
  {
  }

  /** Entry i of the table at address t; memory that is not there reads as zero. */
  function Entry(mem: seq<byte>, t: nat, i: nat): uint64 {
    if t + 8 * i + 8 <= |mem| then Read64(mem, t + 8 * i) else 0
  }

  // ----- virtual addresses -----

  function Index4(v: nat): (i: nat) ensures i < 512 { v / 0x80_0000_0000 % 512 }
  function Index3(v: nat): (i: nat) ensures i < 512 { v / 0x4000_0000 % 512 }
  function Index2(v: nat): (i: nat) ensures i < 512 { v / 0x20_0000 % 512 }
  function Index1(v: nat): (i: nat) ensures i < 512 { v / 0x1000 % 512 }

  /** The 36-bit virtual page number. */
  function PageNumber(v: nat): nat { v / PAGE_SIZE % 0x10_0000_0000 }

  lemma PageNumberDigits(v: nat)
    ensures PageNumber(v) == Index1(v) + 512 * Index2(v) + 0x4_0000 * Index3(v) + 0x800_0000 * Index4(v)
  {
    Shift21(v);
    Shift30(v);
    Shift39(v);
    var n, a, b, c := v / 0x1000, v / 0x20_0000, v / 0x4000_0000, v / 0x80_0000_0000;
    assert n == 512 * a + Index1(v) && a == 512 * b + Index2(v) && b == 512 * c + Index3(v);
    assert c == 512 * (c / 512) + Index4(v);
    var low := Index1(v) + 512 * Index2(v) + 0x4_0000 * Index3(v) + 0x800_0000 * Index4(v);
    Remainder36(n, low, c / 512);
  }

  lemma Shift21(v: nat)
    ensures v / 0x20_0000 == v / 0x1000 / 512
  {
  }

  lemma Shift30(v: nat)
    ensures v / 0x4000_0000 == v / 0x20_0000 / 512
  {
  }

  lemma Shift39(v: nat)
    ensures v / 0x80_0000_0000 == v / 0x4000_0000 / 512
  {
  }

  lemma Remainder36(n: nat, low: nat, q: nat)
    requires n == low + 0x10_0000_0000 * q && low < 0x10_0000_0000
    ensures n % 0x10_0000_0000 == low
  {
  }

  lemma DigitsAgree(a: nat, x: nat, b: nat, y: nat)
    requires a < 512 && b < 512
    ensures a + 512 * x == b + 512 * y <==> a == b && x == y
  {
  }

  lemma SamePage(v: nat, w: nat)
    ensures PageNumber(v) == PageNumber(w) <==>
            Index1(v) == Index1(w) && Index2(v) == Index2(w) && Index3(v) == Index3(w) && Index4(v) == Index4(w)
  {
    PageNumberDigits(v);
    PageNumberDigits(w);
    PageNumbersAgree(Index1(v), Index2(v), Index3(v), Index4(v), Index1(w), Index2(w), Index3(w), Index4(w));
  }

  lemma PageNumbersAgree(a1: nat, a2: nat, a3: nat, a4: nat, b1: nat, b2: nat, b3: nat, b4: nat)
    requires a1 < 512 && a2 < 512 && a3 < 512 && b1 < 512 && b2 < 512 && b3 < 512
    ensures a1 + 512 * a2 + 0x4_0000 * a3 + 0x800_0000 * a4 == b1 + 512 * b2 + 0x4_0000 * b3 + 0x800_0000 * b4
       <==> a1 == b1 && a2 == b2 && a3 == b3 && a4 == b4
  {
    DigitsAgree(a1, a2 + 512 * (a3 + 512 * a4), b1, b2 + 512 * (b3 + 512 * b4));
    DigitsAgree(a2, a3 + 512 * a4, b2, b3 + 512 * b4);
    DigitsAgree(a3, a4, b3, b4);
  }

  // ----- the processor's walk -----

  const PHYSICAL_LIMIT: nat := 0x10_0000_0000_0000

  /** The processor takes bits 51 to 12 of an entry, where the code takes bits 63 to 12. */
  function TableAddress(e: nat): nat { Frame(e % PHYSICAL_LIMIT) }

  lemma LowTable(e: nat)
    requires Frame(e) + PAGE_SIZE <= PHYSICAL_LIMIT
    ensures TableAddress(e) == Frame(e)
  {
    LowEntry(e);
  }

  lemma LowEntry(e: nat)
    requires e < PHYSICAL_LIMIT
    ensures e % PHYSICAL_LIMIT == e
  {
  }

  datatype Leaf = NotMapped | Small(entry: nat) | Large(entry: nat) | Giant(entry: nat)

  function Walk(mem: seq<byte>, root: nat, v: nat): Leaf {
    var e4 := Entry(mem, root, Index4(v));
    if !Present(e4) then NotMapped else
    var e3 := Entry(mem, TableAddress(e4), Index3(v));
    if !Present(e3) then NotMapped else
    if Huge(e3) then Giant(e3) else
    var e2 := Entry(mem, TableAddress(e3), Index2(v));
    if !Present(e2) then NotMapped else
    if Huge(e2) then Large(e2) else
    var e1 := Entry(mem, TableAddress(e2), Index1(v));
    if !Present(e1) then NotMapped else Small(e1)
  }

  /** Bits 51 down to the page size come from the leaf entry, the rest from the
      virtual address. */
  function PhysicalAddress(e: nat, v: nat, size: nat): nat
    requires size > 0
  {
    var a := e % PHYSICAL_LIMIT;
    a - a % size + v % size
  }

  function Translate(mem: seq<byte>, root: nat, v: nat): Option<nat> {
    match Walk(mem, root, v)
    case NotMapped => None
    case Small(e) => Some(PhysicalAddress(e, v, 0x1000))
    case Large(e) => Some(PhysicalAddress(e, v, 0x20_0000))
    case Giant(e) => Some(PhysicalAddress(e, v, 0x4000_0000))
  }

  // ----- tables as nodes of a tree -----

  /** The indices that lead from the root table to a table. */
  datatype Path = Root | Child(parent: Path, index: nat)

  function Depth(p: Path): nat {
    match p case Root => 0 case Child(q, _) => 1 + Depth(q)
  }

  ghost predicate TablePath(p: Path) {
    Depth(p) <= 3 && (p.Child? ==> p.index < 512 && TablePath(p.parent))
  }

  predicate Under(p: Path, top: Path) {
    p == top || (p.Child? && Under(p.parent, top))
  }

  predicate Links(e: nat) { Present(e) && !Huge(e) }

  function TableAt(mem: seq<byte>, root: nat, p: Path): Option<nat> {
    match p
    case Root => Some(root)
    case Child(q, i) =>
      match TableAt(mem, root, q)
      case None => None
      case Some(t) => if Links(Entry(mem, t, i)) then Some(Frame(Entry(mem, t, i))) else None
  }

  function Path1(v: nat): Path { Child(Root, Index4(v)) }
  function Path2(v: nat): Path { Child(Path1(v), Index3(v)) }
  function Path3(v: nat): Path { Child(Path2(v), Index2(v)) }

  lemma PathFacts(v: nat)
    ensures TablePath(Path1(v)) && TablePath(Path2(v)) && TablePath(Path3(v))
    ensures Depth(Path1(v)) == 1 && Depth(Path2(v)) == 2 && Depth(Path3(v)) == 3
  {
    assert Depth(Root) == 0 && TablePath(Root);
    assert Depth(Path1(v)) == 1;
    assert Depth(Path2(v)) == 2;
  }

  /** Separation: the present non-huge entries above the last level form a tree whose
      pages are aligned and already handed out; only page directories hold huge
      entries, and those are present. */
  ghost predicate Tree(mem: seq<byte>, root: nat, next: nat) {
    && Aligned(next) && next <= |mem| <= PHYSICAL_LIMIT
    && (forall p {:trigger TableAt(mem, root, p)} :: TablePath(p) && TableAt(mem, root, p).Some? ==>
          var t := TableAt(mem, root, p).value;
          Aligned(t) && t + PAGE_SIZE <= next)
    && (forall p, q {:trigger TableAt(mem, root, p), TableAt(mem, root, q)} ::
          TablePath(p) && TablePath(q) && TableAt(mem, root, p).Some? && TableAt(mem, root, p) == TableAt(mem, root, q)
          ==> p == q)
    && (forall p, i {:trigger Entry(mem, TableAt(mem, root, p).value, i)} ::
          TablePath(p) && Depth(p) <= 2 && TableAt(mem, root, p).Some? && i < 512 ==>
          EntryInOrder(p, Entry(mem, TableAt(mem, root, p).value, i)))
  }

  predicate EntryInOrder(p: Path, e: nat) {
    if Depth(p) <= 1 then Present(e) ==> !Huge(e) else Huge(e) ==> Present(e)
  }

  /** The walk, told by the tables of the tree. */
  function TreeWalk(mem: seq<byte>, root: nat, v: nat): Leaf {
    match TableAt(mem, root, Path2(v))
    case None => NotMapped
    case Some(pd) =>
      if Huge(Entry(mem, pd, Index2(v))) then Large(Entry(mem, pd, Index2(v)))
      else match TableAt(mem, root, Path3(v))
           case None => NotMapped
           case Some(pt) => LeafOf(Entry(mem, pt, Index1(v)))
  }

  function LeafOf(e: nat): Leaf { if Present(e) then Small(e) else NotMapped }

  /** One entry of one table of the tree, and the table it leads to. */
  lemma ChildTable(mem: seq<byte>, root: nat, next: nat, p: Path, i: nat, t: nat)
    requires Tree(mem, root, next) && TablePath(p) && Depth(p) <= 2 && i < 512 && TableAt(mem, root, p) == Some(t)
    ensures EntryInOrder(p, Entry(mem, t, i))
    ensures TableAt(mem, root, Child(p, i)) == if Links(Entry(mem, t, i)) then Some(Frame(Entry(mem, t, i))) else None
    ensures Links(Entry(mem, t, i)) ==> TableAddress(Entry(mem, t, i)) == Frame(Entry(mem, t, i))
  {
    assert EntryInOrder(p, Entry(mem, TableAt(mem, root, p).value, i));
    if Links(Entry(mem, t, i)) {
      assert TablePath(Child(p, i)) && TableAt(mem, root, Child(p, i)).Some?;
      LowTable(Entry(mem, t, i));
    }
  }

  /** The page directory the walk of v comes to, if it comes to one. */
  function DirectoryAt(mem: seq<byte>, root: nat, v: nat): Option<nat> {
    var e4 := Entry(mem, root, Index4(v));
    if !Present(e4) then None else
    var e3 := Entry(mem, Frame(e4), Index3(v));
    if Present(e3) then Some(Frame(e3)) else None
  }

  /** The walk of v goes down the tree: no huge entry on the first two levels. */
  lemma WalkDown(mem: seq<byte>, root: nat, next: nat, v: nat)
    requires Tree(mem, root, next)
    ensures TableAt(mem, root, Path2(v)) == DirectoryAt(mem, root, v)
    ensures var e4 := Entry(mem, root, Index4(v));
            Present(e4) ==>
              && TableAddress(e4) == Frame(e4)
              && var e3 := Entry(mem, Frame(e4), Index3(v));
                 Present(e3) ==> !Huge(e3) && TableAddress(e3) == Frame(e3)
  {
    PathFacts(v);
    assert TableAt(mem, root, Root) == Some(root) && Depth(Root) == 0;
    ChildTable(mem, root, next, Root, Index4(v), root);
    if Present(Entry(mem, root, Index4(v))) {
      ChildTable(mem, root, next, Path1(v), Index3(v), Frame(Entry(mem, root, Index4(v))));
    }
  }

  /** Its entry in the directory: huge entries are present, and the others lead to the page table. */
  lemma DirectoryEntry(mem: seq<byte>, root: nat, next: nat, v: nat, pd: nat)
    requires Tree(mem, root, next) && TableAt(mem, root, Path2(v)) == Some(pd)
    ensures var e2 := Entry(mem, pd, Index2(v));
            && (Huge(e2) ==> Present(e2))
            && TableAt(mem, root, Path3(v)) == (if Links(e2) then Some(Frame(e2)) else None)
            && (Links(e2) ==> TableAddress(e2) == Frame(e2))
  {
    PathFacts(v);
    ChildTable(mem, root, next, Path2(v), Index2(v), pd);
  }

  lemma WalkByTables(mem: seq<byte>, root: nat, next: nat, v: nat)
    requires Tree(mem, root, next)
    ensures Walk(mem, root, v) == TreeWalk(mem, root, v)
  {
    WalkDown(mem, root, next, v);
    if DirectoryAt(mem, root, v).Some? {
      DirectoryEntry(mem, root, next, v, DirectoryAt(mem, root, v).value);
    }
  }

  // ----- one write into one table -----

  function SetEntry(mem: seq<byte>, t: nat, i: nat, e: uint64): (r: seq<byte>)
    ensures |r| == |mem|
  {
    if t + 8 * i + 8 <= |mem| then Write64(mem, t + 8 * i, e) else mem
  }

  lemma EntryInPage(t: nat, i: nat, size: nat)
    requires i < 512 && t + PAGE_SIZE <= size
    ensures t + 8 * i + 8 <= size
  {
  }

  lemma OtherEntry(t: nat, i: nat, s: nat, j: nat)
    requires Aligned(t) && Aligned(s) && i < 512 && j < 512 && (s != t || j != i)
    ensures s + 8 * j + 8 <= t + 8 * i || t + 8 * i + 8 <= s + 8 * j
  {
    if s != t {
      assert s < t ==> s + PAGE_SIZE <= t by { AlignedApart(s, t); }
      assert t < s ==> t + PAGE_SIZE <= s by { AlignedApart(t, s); }
    }
  }

  lemma AlignedApart(a: nat, b: nat)
    requires Aligned(a) && Aligned(b)
    ensures a < b ==> a + PAGE_SIZE <= b
  {
  }

  lemma EntryOfSet(mem: seq<byte>, t: nat, i: nat, e: uint64, s: nat, j: nat)
    requires Aligned(t) && Aligned(s) && i < 512 && j < 512 && t + PAGE_SIZE <= |mem| && s + PAGE_SIZE <= |mem|
    ensures Entry(SetEntry(mem, t, i, e), s, j) == if s == t && j == i then e else Entry(mem, s, j)
  {
    EntryInPage(t, i, |mem|);
    EntryInPage(s, j, |mem|);
    if s == t && j == i {
      ReadOfWrite(mem, t + 8 * i, e);
    } else {
      OtherEntry(t, i, s, j);
      ReadOfOtherWrite(mem, t + 8 * i, e, s + 8 * j);
    }
  }

  /** A write to one entry moves only the tables reached through that entry. */
  lemma {:induction false} TablesOfSet(mem: seq<byte>, root: nat, next: nat, p: Path, i: nat, e: uint64, q: Path)
    requires Tree(mem, root, next) && TablePath(p) && i < 512 && TableAt(mem, root, p).Some?
    requires TablePath(q) && !Under(q, Child(p, i))
    ensures var t := TableAt(mem, root, p).value;
            TableAt(SetEntry(mem, t, i, e), root, q) == TableAt(mem, root, q)
  {
    if q.Child? {
      TablesOfSet(mem, root, next, p, i, e, q.parent);
      if TableAt(mem, root, q.parent).Some? {
        EntryOfSet(mem, TableAt(mem, root, p).value, i, e, TableAt(mem, root, q.parent).value, q.index);
      }
    }
  }

  /** Entries of tables elsewhere in the tree keep their value. */
  lemma EntriesOfSet(mem: seq<byte>, root: nat, next: nat, p: Path, i: nat, e: uint64, q: Path, j: nat)
    requires Tree(mem, root, next) && TablePath(p) && i < 512 && TableAt(mem, root, p).Some?
    requires TablePath(q) && j < 512 && TableAt(mem, root, q).Some?
    ensures var t := TableAt(mem, root, p).value;
            var s := TableAt(mem, root, q).value;
            Entry(SetEntry(mem, t, i, e), s, j) == if q == p && j == i then e else Entry(mem, s, j)
  {
    EntryOfSet(mem, TableAt(mem, root, p).value, i, e, TableAt(mem, root, q).value, j);
  }

  lemma {:induction false} UnderIsDeeper(p: Path, top: Path)
    requires Under(p, top)
    ensures Depth(p) >= Depth(top)
    ensures Depth(p) == Depth(top) ==> p == top
  {
    if p != top {
      UnderIsDeeper(p.parent, top);
    }
  }

  ghost predicate SameTables(mem: seq<byte>, mem': seq<byte>, root: nat) {
    |mem| == |mem'| &&
    forall q {:trigger TableAt(mem', root, q)} :: TablePath(q) ==> TableAt(mem', root, q) == TableAt(mem, root, q)
  }

  /** The tree depends on the tables and on the entries above the last level only. */
  lemma TreeOfSameTables(mem: seq<byte>, mem': seq<byte>, root: nat, next: nat)
    requires Tree(mem, root, next) && SameTables(mem, mem', root)
    requires forall q, j :: TablePath(q) && Depth(q) <= 2 && TableAt(mem, root, q).Some? && j < 512 ==>
                              Entry(mem', TableAt(mem, root, q).value, j) == Entry(mem, TableAt(mem, root, q).value, j)
    ensures Tree(mem', root, next)
  {
  }

  lemma TablesOfLeafWrite(mem: seq<byte>, root: nat, next: nat, v: nat, e: uint64, q: Path)
    requires Tree(mem, root, next) && TableAt(mem, root, Path3(v)).Some? && TablePath(q)
    ensures TableAt(SetEntry(mem, TableAt(mem, root, Path3(v)).value, Index1(v), e), root, q) == TableAt(mem, root, q)
  {
    PathFacts(v);
    if Under(q, Child(Path3(v), Index1(v))) {
      UnderIsDeeper(q, Child(Path3(v), Index1(v)));
      assert false;
    }
    TablesOfSet(mem, root, next, Path3(v), Index1(v), e, q);
  }

  lemma LeafWriteKeepsTree(mem: seq<byte>, root: nat, next: nat, v: nat, e: uint64)
    requires Tree(mem, root, next) && TableAt(mem, root, Path3(v)).Some?
    ensures var mem' := SetEntry(mem, TableAt(mem, root, Path3(v)).value, Index1(v), e);
            SameTables(mem, mem', root) && Tree(mem', root, next)
  {
    var p, i := Path3(v), Index1(v);
    var t := TableAt(mem, root, p).value;
    var mem' := SetEntry(mem, t, i, e);
    forall q | TablePath(q)
      ensures TableAt(mem', root, q) == TableAt(mem, root, q)
    {
      TablesOfLeafWrite(mem, root, next, v, e, q);
    }
    forall q, j | TablePath(q) && Depth(q) <= 2 && TableAt(mem, root, q).Some? && j < 512
      ensures Entry(mem', TableAt(mem, root, q).value, j) == Entry(mem, TableAt(mem, root, q).value, j)
    {
      EntriesOfSet(mem, root, next, p, i, e, q, j);
    }
    TreeOfSameTables(mem, mem', root, next);
  }

  /** Writing a leaf table changes the walk of that one page. */
  lemma LeafWrite(mem: seq<byte>, root: nat, next: nat, v: nat, e: uint64, w: nat)
    requires Tree(mem, root, next) && TableAt(mem, root, Path3(v)).Some?
    ensures var mem' := SetEntry(mem, TableAt(mem, root, Path3(v)).value, Index1(v), e);
            Walk(mem', root, w) ==
            if PageNumber(w) == PageNumber(v) then LeafOf(e) else Walk(mem, root, w)
  {
    var mem' := SetEntry(mem, TableAt(mem, root, Path3(v)).value, Index1(v), e);
    LeafWriteKeepsTree(mem, root, next, v, e);
    WalkByTables(mem, root, next, w);
    WalkByTables(mem', root, next, w);
    SamePage(v, w);
    LeafWriteInTree(mem, root, next, v, e, w);
  }

  lemma LeafWriteInTree(mem: seq<byte>, root: nat, next: nat, v: nat, e: uint64, w: nat)
    requires Tree(mem, root, next) && TableAt(mem, root, Path3(v)).Some?
    ensures var mem' := SetEntry(mem, TableAt(mem, root, Path3(v)).value, Index1(v), e);
            TreeWalk(mem', root, w) ==
            if Path3(w) == Path3(v) && Index1(w) == Index1(v) then LeafOf(e) else TreeWalk(mem, root, w)
  {
    var p := Path3(v);
    var mem' := SetEntry(mem, TableAt(mem, root, p).value, Index1(v), e);
    PathFacts(v);
    PathFacts(w);
    TablesOfLeafWrite(mem, root, next, v, e, Path2(w));
    TablesOfLeafWrite(mem, root, next, v, e, Path3(w));
    if TableAt(mem, root, Path2(w)).Some? {
      EntriesOfSet(mem, root, next, p, Index1(v), e, Path2(w), Index2(w));
    }
    if TableAt(mem, root, Path3(w)).Some? {
      EntriesOfSet(mem, root, next, p, Index1(v), e, Path3(w), Index1(w));
    }
    TreeWalkChanged(mem, mem', root, w, Path3(w) == p && Index1(w) == Index1(v), e);
  }

  /** How the tree walk follows a change of leaf entry. */
  lemma TreeWalkChanged(mem: seq<byte>, mem': seq<byte>, root: nat, w: nat, changed: bool, e: uint64)
    requires TableAt(mem', root, Path2(w)) == TableAt(mem, root, Path2(w))
    requires TableAt(mem', root, Path3(w)) == TableAt(mem, root, Path3(w))
    requires changed ==> TableAt(mem, root, Path3(w)).Some?
    requires TableAt(mem, root, Path2(w)).Some? ==>
               var pd := TableAt(mem, root, Path2(w)).value;
               Entry(mem', pd, Index2(w)) == Entry(mem, pd, Index2(w))
    requires TableAt(mem, root, Path3(w)).Some? ==>
               var pt := TableAt(mem, root, Path3(w)).value;
               Entry(mem', pt, Index1(w)) == if changed then e else Entry(mem, pt, Index1(w))
    ensures TreeWalk(mem', root, w) == if changed then LeafOf(e) else TreeWalk(mem, root, w)
  {
  }

  // ----- writes outside the tables -----

  ghost predicate SameWalks(mem: seq<byte>, mem': seq<byte>, root: nat) {
    forall w {:trigger Walk(mem', root, w)} :: Walk(mem', root, w) == Walk(mem, root, w)
  }

  /** No byte of a table page differs. */
  ghost predicate Untouched(mem: seq<byte>, mem': seq<byte>, root: nat) {
    |mem| == |mem'| &&
    forall q {:trigger TableAt(mem, root, q)} :: TablePath(q) && TableAt(mem, root, q).Some? ==>
      forall k :: TableAt(mem, root, q).value <= k < TableAt(mem, root, q).value + PAGE_SIZE && k < |mem|
        ==> mem'[k] == mem[k]
  }

  lemma WriteInUnusedPage(mem: seq<byte>, mem': seq<byte>, root: nat, next: nat, page: nat)
    requires Tree(mem, root, next) && |mem| == |mem'| && Aligned(page) && Unused(mem, root, page)
    requires forall k :: 0 <= k < |mem| && !(page <= k < page + PAGE_SIZE) ==> mem'[k] == mem[k]
    ensures Untouched(mem, mem', root)
  {
    forall q, k | TablePath(q) && TableAt(mem, root, q).Some? && k < |mem|
                  && TableAt(mem, root, q).value <= k < TableAt(mem, root, q).value + PAGE_SIZE
      ensures mem'[k] == mem[k]
    {
      DisjointPages(TableAt(mem, root, q).value, page, k);
    }
  }

  lemma DisjointPages(a: nat, b: nat, k: nat)
    requires Aligned(a) && Aligned(b) && a != b && a <= k < a + PAGE_SIZE
    ensures !(b <= k < b + PAGE_SIZE)
  {
  }

  lemma EntryUntouched(mem: seq<byte>, mem': seq<byte>, root: nat, q: Path, j: nat)
    requires Untouched(mem, mem', root) && TablePath(q) && TableAt(mem, root, q).Some? && j < 512
    ensures Entry(mem', TableAt(mem, root, q).value, j) == Entry(mem, TableAt(mem, root, q).value, j)
  {
    var a := TableAt(mem, root, q).value + 8 * j;
    if a + 8 <= |mem| {
      ReadUnaffected(mem, mem', a);
    }
  }

  lemma {:induction false} TableUntouched(mem: seq<byte>, mem': seq<byte>, root: nat, q: Path)
    requires Untouched(mem, mem', root) && TablePath(q)
    ensures TableAt(mem', root, q) == TableAt(mem, root, q)
  {
    if q.Child? {
      TableUntouched(mem, mem', root, q.parent);
      if TableAt(mem, root, q.parent).Some? {
        EntryUntouched(mem, mem', root, q.parent, q.index);
      }
    }
  }

  lemma UntouchedKeepsTree(mem: seq<byte>, mem': seq<byte>, root: nat, next: nat)
    requires Tree(mem, root, next) && Untouched(mem, mem', root)
    ensures SameTables(mem, mem', root) && Tree(mem', root, next) && SameWalks(mem, mem', root)
  {
    forall q | TablePath(q)
      ensures TableAt(mem', root, q) == TableAt(mem, root, q)
    {
      TableUntouched(mem, mem', root, q);
    }
    forall q, j | TablePath(q) && Depth(q) <= 2 && TableAt(mem, root, q).Some? && j < 512
      ensures Entry(mem', TableAt(mem, root, q).value, j) == Entry(mem, TableAt(mem, root, q).value, j)
    {
      EntryUntouched(mem, mem', root, q, j);
    }
    TreeOfSameTables(mem, mem', root, next);
    forall w
      ensures Walk(mem', root, w) == Walk(mem, root, w)
    {
      WalkByTables(mem, root, next, w);
      WalkByTables(mem', root, next, w);
      TreeWalkUntouched(mem, mem', root, w);
    }
  }

  lemma StoreInUnusedPage(mem: seq<byte>, root: nat, next: nat, page: nat, i: nat, e: uint64)
    requires Tree(mem, root, next) && Aligned(page) && Unused(mem, root, page) && i < 512
    ensures Tree(SetEntry(mem, page, i, e), root, next) && SameWalks(mem, SetEntry(mem, page, i, e), root)
  {
    WriteInUnusedPage(mem, SetEntry(mem, page, i, e), root, next, page);
    UntouchedKeepsTree(mem, SetEntry(mem, page, i, e), root, next);
  }

  lemma TreeWalkUntouched(mem: seq<byte>, mem': seq<byte>, root: nat, w: nat)
    requires Untouched(mem, mem', root)
    ensures TreeWalk(mem', root, w) == TreeWalk(mem, root, w)
  {
    PathFacts(w);
    TableUntouched(mem, mem', root, Path2(w));
    TableUntouched(mem, mem', root, Path3(w));
    if TableAt(mem, root, Path2(w)).Some? {
      EntryUntouched(mem, mem', root, Path2(w), Index2(w));
    }
    if TableAt(mem, root, Path3(w)).Some? {
      EntryUntouched(mem, mem', root, Path3(w), Index1(w));
    }
    TreeWalkChanged(mem, mem', root, w, false, 0);
  }

  // ----- allocating and linking a table page -----

  datatype Machine = Machine(mem: seq<byte>, next: uint64)

  function ZeroFill(mem: seq<byte>, page: nat): (r: seq<byte>)
    ensures |r| == |mem|
  {
    seq(|mem|, k requires 0 <= k < |mem| => if page <= k < page + PAGE_SIZE then 0 else mem[k])
  }

  /** mmu_alloc_page: hand out the next page, zeroed. */
  function AllocPage(s: Machine): (r: Machine) {
    Machine(ZeroFill(s.mem, s.next), (s.next + PAGE_SIZE) % TWO_64)
  }

  ghost predicate Unused(mem: seq<byte>, root: nat, page: nat) {
    forall p {:trigger TableAt(mem, root, p)} :: TablePath(p) ==> TableAt(mem, root, p) != Some(page)
  }

  lemma EntryOfZeroFill(mem: seq<byte>, page: nat, t: nat, i: nat)
    requires Aligned(page) && Aligned(t) && i < 512
    ensures Entry(ZeroFill(mem, page), t, i) == if t == page then 0 else Entry(mem, t, i)
  {
    var mem' := ZeroFill(mem, page);
    if t + 8 * i + 8 <= |mem| {
      if t == page {
        ReadOfZeros(mem', t + 8 * i);
      } else {
        ReadUnaffected(mem, mem', t + 8 * i);
      }
    }
  }

  /** A newly allocated page is zeroed, is no table, and disturbs no table. */
  lemma AllocKeepsTree(s: Machine, root: nat)
    requires Tree(s.mem, root, s.next) && s.next + PAGE_SIZE <= |s.mem| < TWO_64
    ensures var r := AllocPage(s);
            && r.next == s.next + PAGE_SIZE
            && SameTables(s.mem, r.mem, root)
            && Tree(r.mem, root, r.next)
            && Unused(r.mem, root, s.next)
            && (forall i :: 0 <= i < 512 ==> Entry(r.mem, s.next, i) == 0)
            && SameWalks(s.mem, r.mem, root)
  {
    UntouchedKeepsTree(s.mem, AllocPage(s).mem, root, s.next);
    forall i | 0 <= i < 512
      ensures Entry(AllocPage(s).mem, s.next, i) == 0
    {
      EntryOfZeroFill(s.mem, s.next, s.next, i);
    }
  }

  /** An unused zero page, about to become the table below entry i of the table at p. */
  ghost predicate CanLink(mem: seq<byte>, root: nat, next: nat, p: Path, i: nat, page: uint64, e: uint64) {
    && Tree(mem, root, next)
    && TablePath(p) && Depth(p) <= 2 && i < 512 && TableAt(mem, root, p).Some?
    && !Present(Entry(mem, TableAt(mem, root, p).value, i))
    && Aligned(page) && page + PAGE_SIZE <= next && Unused(mem, root, page)
    && (forall j :: 0 <= j < 512 ==> Entry(mem, page, j) == 0)
    && Links(e) && Frame(e) == page
  }

  lemma {:induction false} NoTableUnder(mem: seq<byte>, root: nat, p: Path, i: nat, q: Path)
    requires TableAt(mem, root, p).Some? && !Present(Entry(mem, TableAt(mem, root, p).value, i))
    requires Under(q, Child(p, i))
    ensures TableAt(mem, root, q) == None
  {
    if q != Child(p, i) {
      NoTableUnder(mem, root, p, i, q.parent);
    }
  }

  lemma {:induction false} TablesOfLink(mem: seq<byte>, root: nat, next: nat, p: Path, i: nat, page: uint64, e: uint64, q: Path)
    requires CanLink(mem, root, next, p, i, page, e) && TablePath(q)
    ensures var t := TableAt(mem, root, p).value;
            TableAt(SetEntry(mem, t, i, e), root, q) ==
            if q == Child(p, i) then Some(page) else TableAt(mem, root, q)
    decreases q
  {
    var t := TableAt(mem, root, p).value;
    var mem' := SetEntry(mem, t, i, e);
    if !Under(q, Child(p, i)) {
      TablesOfSet(mem, root, next, p, i, e, q);
    } else if q == Child(p, i) {
      NotUnderOwnChild(p, i);
      TablesOfSet(mem, root, next, p, i, e, p);
      EntryOfSet(mem, t, i, e, t, i);
    } else {
      NoTableUnder(mem, root, p, i, q);
      TablesOfLink(mem, root, next, p, i, page, e, q.parent);
      if q.parent == Child(p, i) {
        EntryOfSet(mem, t, i, e, page, q.index);
      } else {
        NoTableUnder(mem, root, p, i, q.parent);
      }
    }
  }

  lemma NotUnderOwnChild(p: Path, i: nat)
    ensures !Under(p, Child(p, i))
  {
    if Under(p, Child(p, i)) {
      UnderIsDeeper(p, Child(p, i));
      assert false;
    }
  }

  lemma LinkedEntryInOrder(mem: seq<byte>, root: nat, next: nat, p: Path, i: nat, page: uint64, e: uint64, q: Path, j: nat)
    requires CanLink(mem, root, next, p, i, page, e) && TablePath(q) && Depth(q) <= 2 && j < 512
    requires TableAt(SetEntry(mem, TableAt(mem, root, p).value, i, e), root, q).Some?
    ensures var mem' := SetEntry(mem, TableAt(mem, root, p).value, i, e);
            EntryInOrder(q, Entry(mem', TableAt(mem', root, q).value, j))
  {
    var t := TableAt(mem, root, p).value;
    TablesOfLink(mem, root, next, p, i, page, e, q);
    EntryOfSet(mem, t, i, e, TableAt(SetEntry(mem, t, i, e), root, q).value, j);
  }

  /** Linking the page grows the tree by exactly one table. */
  lemma LinkKeepsTree(mem: seq<byte>, root: nat, next: nat, p: Path, i: nat, page: uint64, e: uint64)
    requires CanLink(mem, root, next, p, i, page, e)
    ensures var mem' := SetEntry(mem, TableAt(mem, root, p).value, i, e);
            Tree(mem', root, next) && OneMoreTable(mem, mem', root, Child(p, i), page)
  {
    var t := TableAt(mem, root, p).value;
    var mem' := SetEntry(mem, t, i, e);
    forall q | TablePath(q)
      ensures TableAt(mem', root, q) == if q == Child(p, i) then Some(page) else TableAt(mem, root, q)
    {
      TablesOfLink(mem, root, next, p, i, page, e, q);
    }
    assert TablePath(Child(p, i));
    forall q, j | TablePath(q) && Depth(q) <= 2 && TableAt(mem', root, q).Some? && j < 512
      ensures EntryInOrder(q, Entry(mem', TableAt(mem', root, q).value, j))
    {
      LinkedEntryInOrder(mem, root, next, p, i, page, e, q, j);
    }
    TreeOfOneMore(mem, mem', root, next, Child(p, i), page);
  }

  ghost predicate OneMoreTable(mem: seq<byte>, mem': seq<byte>, root: nat, c: Path, page: nat) {
    |mem| == |mem'| && TablePath(c) && TableAt(mem', root, c) == Some(page) &&
    forall q {:trigger TableAt(mem', root, q)} ::
      TablePath(q) && q != c ==> TableAt(mem', root, q) == TableAt(mem, root, q)
  }

  lemma TreeOfOneMore(mem: seq<byte>, mem': seq<byte>, root: nat, next: nat, c: Path, page: nat)
    requires Tree(mem, root, next) && OneMoreTable(mem, mem', root, c, page)
    requires Aligned(page) && page + PAGE_SIZE <= next && Unused(mem, root, page)
    requires forall q, j :: TablePath(q) && Depth(q) <= 2 && TableAt(mem', root, q).Some? && j < 512
                 ==> EntryInOrder(q, Entry(mem', TableAt(mem', root, q).value, j))
    ensures Tree(mem', root, next)
  {
  }

  /** ... and changes no walk: what is below the new table is still unmapped. */
  lemma LinkKeepsWalk(mem: seq<byte>, root: nat, next: nat, p: Path, i: nat, page: uint64, e: uint64, w: nat)
    requires CanLink(mem, root, next, p, i, page, e)
    ensures Walk(SetEntry(mem, TableAt(mem, root, p).value, i, e), root, w) == Walk(mem, root, w)
  {
    LinkKeepsTree(mem, root, next, p, i, page, e);
    WalkByTables(mem, root, next, w);
    WalkByTables(SetEntry(mem, TableAt(mem, root, p).value, i, e), root, next, w);
    LinkKeepsTreeWalk(mem, root, next, p, i, page, e, w);
  }

  lemma LinkKeepsTreeWalk(mem: seq<byte>, root: nat, next: nat, p: Path, i: nat, page: uint64, e: uint64, w: nat)
    requires CanLink(mem, root, next, p, i, page, e)
    ensures TreeWalk(SetEntry(mem, TableAt(mem, root, p).value, i, e), root, w) == TreeWalk(mem, root, w)
  {
    PathFacts(w);
    if Path2(w) == Child(p, i) {
      LinkOfDirectory(mem, root, next, p, i, page, e, w);
    } else if Path3(w) == Child(p, i) {
      LinkOfPageTable(mem, root, next, p, i, page, e, w);
    } else {
      LinkElsewhere(mem, root, next, p, i, page, e, w);
    }
  }

  /** The new table is w's page directory: its entries are zero. */
  lemma LinkOfDirectory(mem: seq<byte>, root: nat, next: nat, p: Path, i: nat, page: uint64, e: uint64, w: nat)
    requires CanLink(mem, root, next, p, i, page, e) && Path2(w) == Child(p, i)
    ensures TreeWalk(SetEntry(mem, TableAt(mem, root, p).value, i, e), root, w) == TreeWalk(mem, root, w)
  {
    var t := TableAt(mem, root, p).value;
    var mem' := SetEntry(mem, t, i, e);
    PathFacts(w);
    NoTableUnder(mem, root, p, i, Path2(w));
    assert TreeWalk(mem, root, w) == NotMapped;
    TablesOfLink(mem, root, next, p, i, page, e, Path2(w));
    EntryOfSet(mem, t, i, e, page, Index2(w));
    assert !Links(Entry(mem', page, Index2(w)));
    assert TableAt(mem', root, Path3(w)) == None;
  }

  /** The new table is w's page table: its entries are zero. */
  lemma LinkOfPageTable(mem: seq<byte>, root: nat, next: nat, p: Path, i: nat, page: uint64, e: uint64, w: nat)
    requires CanLink(mem, root, next, p, i, page, e) && Path3(w) == Child(p, i)
    ensures TreeWalk(SetEntry(mem, TableAt(mem, root, p).value, i, e), root, w) == TreeWalk(mem, root, w)
  {
    var t := TableAt(mem, root, p).value;
    PathFacts(w);
    assert p == Path2(w) && i == Index2(w);
    NoTableUnder(mem, root, p, i, Path3(w));
    assert TreeWalk(mem, root, w) == NotMapped;
    NotUnderOwnChild(p, i);
    TablesOfLink(mem, root, next, p, i, page, e, p);
    TablesOfLink(mem, root, next, p, i, page, e, Path3(w));
    EntryOfSet(mem, t, i, e, t, i);
    EntryOfSet(mem, t, i, e, page, Index1(w));
  }

  lemma LinkElsewhere(mem: seq<byte>, root: nat, next: nat, p: Path, i: nat, page: uint64, e: uint64, w: nat)
    requires CanLink(mem, root, next, p, i, page, e) && Path2(w) != Child(p, i) && Path3(w) != Child(p, i)
    ensures TreeWalk(SetEntry(mem, TableAt(mem, root, p).value, i, e), root, w) == TreeWalk(mem, root, w)
  {
    var mem' := SetEntry(mem, TableAt(mem, root, p).value, i, e);
    PathFacts(w);
    TablesOfLink(mem, root, next, p, i, page, e, Path2(w));
    TablesOfLink(mem, root, next, p, i, page, e, Path3(w));
    if TableAt(mem, root, Path2(w)).Some? {
      EntriesOfSet(mem, root, next, p, i, e, Path2(w), Index2(w));
    }
    if TableAt(mem, root, Path3(w)).Some? {
      EntriesOfSet(mem, root, next, p, i, e, Path3(w), Index1(w));
    }
    TreeWalkChanged(mem, mem', root, w, false, 0);
  }
}
