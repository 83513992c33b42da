/** What mmu_map_page of src/impl/kernel/mmu.c does to every entry of the tables, and to what
    the processor lets a program do with a page: after section 4.6 of the Intel 64 SDM,
    Volume 3A, a right is given if the entry of every level gives it. */
module Rights {
  import opened Arithmetic
  import opened Memory
  import opened Wrappers
  import opened Paging
  import opened Mapping
  import opened Boot

  /** Bits 1 and 2 of an entry. */
  datatype Right = Write | User

  predicate Grants(e: nat, right: Right) {
    match right case Write => e / 2 % 2 == 1 case User => e / 4 % 2 == 1
  }

  /** Every entry on the processor's walk gives the right. */
  predicate Allowed(mem: seq<byte>, root: nat, v: nat, right: Right) {
    var e4 := Entry(mem, root, Index4(v));
    Present(e4) && Grants(e4, right) &&
    var e3 := Entry(mem, TableAddress(e4), Index3(v));
    Present(e3) && Grants(e3, right) &&
    (Huge(e3) ||
     var e2 := Entry(mem, TableAddress(e3), Index2(v));
     Present(e2) && Grants(e2, right) &&
     (Huge(e2) ||
      var e1 := Entry(mem, TableAddress(e2), Index1(v));
      Present(e1) && Grants(e1, right)))
  }

  // ----- bits -----

  /** Bit k of a number. */
  predicate Bit(a: nat, k: nat) { if k == 0 then a % 2 == 1 else Bit(a / 2, k - 1) }

  /** `a | b`, bit by bit. */
  lemma {:induction false} BitOrBits(a: nat, b: nat, k: nat)
    ensures Bit(BitOr(a, b), k) <==> Bit(a, k) || Bit(b, k)
    decreases k
  {
    BitOrHalves(a, b);
    if k > 0 {
      BitOrBits(a / 2, b / 2, k - 1);
    }
  }

  lemma BitOrHalves(a: nat, b: nat)
    ensures BitOr(a, b) / 2 == BitOr(a / 2, b / 2)
    ensures BitOr(a, b) % 2 == 1 <==> a % 2 == 1 || b % 2 == 1
  {
  }

  lemma GrantsIsBit(e: nat, right: Right)
    ensures Grants(e, right) == Bit(e, if right == Write then 1 else 2)
  {
    assert Bit(e, 1) == Bit(e / 2, 0) && Bit(e, 2) == Bit(e / 2, 1) == Bit(e / 2 / 2, 0);
    assert e / 2 / 2 == e / 4;
  }

  lemma GrantsOfOr(phys: uint64, flags: uint64, right: Right)
    ensures Grants(MakeEntry(phys, flags), right) <==> Grants(phys, right) || Grants(flags, right)
  {
    GrantsIsBit(phys, right);
    GrantsIsBit(flags, right);
    GrantsIsBit(MakeEntry(phys, flags), right);
    BitOrBits(phys, flags, if right == Write then 1 else 2);
  }

  lemma LowBits(e: nat)
    ensures e % PAGE_SIZE / 2 % 2 == e / 2 % 2 && e % PAGE_SIZE / 4 % 2 == e / 4 % 2 && e % PAGE_SIZE % 2 == e % 2
  {
    var q, r := e / 4096, e % 4096;
    assert e == 2 * (2048 * q) + r == 4 * (1024 * q) + r;
    EvenSum(2048 * q, r);
    HalfSum(2048 * q, r);
    EvenSum(1024 * q, r / 2);
    QuarterSum(1024 * q, r);
    EvenSum(512 * q, r / 4);
  }

  lemma EvenSum(m: nat, r: nat)
    ensures (2 * m + r) % 2 == r % 2
  {
  }

  lemma HalfSum(m: nat, r: nat)
    ensures (2 * m + r) / 2 == m + r / 2
  {
  }

  lemma QuarterSum(m: nat, r: nat)
    ensures (4 * m + r) / 4 == m + r / 4
  {
  }

  // ----- the present entries of the tables, as a map from places -----

  /** Entry j of the table at q, if there is such a table and the entry is present. */
  function PresentAt(mem: seq<byte>, root: nat, q: Path, j: nat): Option<nat> {
    match TableAt(mem, root, q)
    case None => None
    case Some(t) => if Present(Entry(mem, t, j)) then Some(Entry(mem, t, j)) else None
  }

  /** The tables on the way to a page, and the entry of each. */
  function WayTo(v: nat, depth: nat): Path {
    if depth == 0 then Root else if depth == 1 then Path1(v) else if depth == 2 then Path2(v) else Path3(v)
  }

  function WayIndex(v: nat, depth: nat): (i: nat)
    ensures i < 512
  {
    if depth == 0 then Index4(v) else if depth == 1 then Index3(v) else if depth == 2 then Index2(v) else Index1(v)
  }

  lemma WayFacts(v: nat, depth: nat)
    requires depth <= 3
    ensures TablePath(WayTo(v, depth)) && Depth(WayTo(v, depth)) == depth
    ensures depth < 3 ==> WayTo(v, depth + 1) == Child(WayTo(v, depth), WayIndex(v, depth))
  {
    PathFacts(v);
  }

  /** Place j of table q is on the way to v, above the given depth. */
  predicate OnWay(v: nat, depth: nat, q: Path, j: nat) {
    Depth(q) < depth && q == WayTo(v, Depth(q)) && j == WayIndex(v, Depth(q))
  }

  /** An entry made where there was none carries the flags; an old one stays. */
  predicate Made(old_: Option<nat>, new_: Option<nat>, flags: nat) {
    new_.Some? && if old_.Some? then new_ == old_ else new_.value % PAGE_SIZE == flags
  }

  predicate PlaceAfter(old_: Option<nat>, new_: Option<nat>, flags: nat, onWay: bool) {
    if onWay then Made(old_, new_, flags) else new_ == old_
  }

  /** Nothing but entries on the way to v was made. */
  ghost predicate LinksOnly(mem: seq<byte>, mem': seq<byte>, root: nat, v: nat, depth: nat, flags: nat) {
    forall q, j {:trigger PresentAt(mem', root, q, j)} :: TablePath(q) && j < 512 ==>
      PlaceAfter(PresentAt(mem, root, q, j), PresentAt(mem', root, q, j), flags, OnWay(v, depth, q, j))
  }

  // ----- one table -----

  /** Making sure of a table touches one place at most. */
  lemma EnsureTablePlace(s: Machine, root: nat, p: Path, i: nat, flags: uint64, q: Path, j: nat)
    requires Tree(s.mem, root, s.next) && Room(s, 1) && PageFlags(flags)
    requires TablePath(p) && Depth(p) <= 2 && i < 512 && TableAt(s.mem, root, p).Some?
    requires TablePath(q) && j < 512
    ensures var r := EnsureTable(s, TableAt(s.mem, root, p).value, i, flags);
            PlaceAfter(PresentAt(s.mem, root, q, j), PresentAt(r.mem, root, q, j), flags, q == p && j == i)
  {
    if !Present(Entry(s.mem, TableAt(s.mem, root, p).value, i)) {
      NewTablePlace(s, root, p, i, flags, q, j);
    }
  }

  lemma NewTablePlace(s: Machine, root: nat, p: Path, i: nat, flags: uint64, q: Path, j: nat)
    requires Tree(s.mem, root, s.next) && Room(s, 1) && PageFlags(flags)
    requires TablePath(p) && Depth(p) <= 2 && i < 512 && TableAt(s.mem, root, p).Some?
    requires !Present(Entry(s.mem, TableAt(s.mem, root, p).value, i)) && TablePath(q) && j < 512
    ensures var mem' := SetEntry(AllocPage(s).mem, TableAt(s.mem, root, p).value, i, MakeEntry(s.next, flags));
            PlaceAfter(PresentAt(s.mem, root, q, j), PresentAt(mem', root, q, j), flags, q == p && j == i)
  {
    var t, a, e := TableAt(s.mem, root, p).value, AllocPage(s), MakeEntry(s.next, flags);
    AllocKeepsTree(s, root);
    EntryOfTable(s.next, flags);
    EntryOfZeroFill(s.mem, s.next, t, i);
    assert CanLink(a.mem, root, a.next, p, i, s.next, e);
    FlagsOfEntry(s.next, flags);
    LinkPlace(a.mem, root, a.next, p, i, s.next, e, q, j);
    if TableAt(s.mem, root, q).Some? {
      EntryOfZeroFill(s.mem, s.next, TableAt(s.mem, root, q).value, j);
    }
  }

  /** Linking a zero page changes one place. */
  lemma LinkPlace(mem: seq<byte>, root: nat, next: nat, p: Path, i: nat, page: uint64, e: uint64, q: Path, j: nat)
    requires CanLink(mem, root, next, p, i, page, e) && TablePath(q) && j < 512
    ensures PresentAt(SetEntry(mem, TableAt(mem, root, p).value, i, e), root, q, j) ==
            if q == p && j == i then Some(e) else PresentAt(mem, root, q, j)
  {
    TablesOfLink(mem, root, next, p, i, page, e, q);
    if q == Child(p, i) {
      NoTableUnder(mem, root, p, i, q);
      NotUnderOwnChild(p, i);
      EntryOfSet(mem, TableAt(mem, root, p).value, i, e, page, j);
    } else if TableAt(mem, root, q).Some? {
      EntriesOfSet(mem, root, next, p, i, e, q, j);
    }
  }

  lemma FlagsOfEntry(page: uint64, flags: uint64)
    requires Aligned(page) && PageFlags(flags)
    ensures MakeEntry(page, flags) % PAGE_SIZE == flags
  {
    EntryOfTable(page, flags);
    SumOfAligned(page / PAGE_SIZE, flags);
    assert page == page / PAGE_SIZE * PAGE_SIZE;
  }

  // ----- three tables -----

  /** The tables on the way to v down to the given depth, the last of them at t. */
  ghost predicate Reached(s: Machine, root: nat, v: nat, flags: nat, a: Machine, depth: nat, t: nat) {
    && Tree(a.mem, root, a.next) && |a.mem| == |s.mem| && a.next <= s.next + depth * PAGE_SIZE
    && SameWalks(s.mem, a.mem, root)
    && TableAt(a.mem, root, WayTo(v, depth)) == Some(t)
    && LinksOnly(s.mem, a.mem, root, v, depth, flags)
  }

  lemma StartReached(s: Machine, root: nat, v: nat, flags: nat)
    requires Tree(s.mem, root, s.next)
    ensures Reached(s, root, v, flags, s, 0, root)
  {
  }

  lemma NextReached(s: Machine, root: nat, v: uint64, flags: uint64, a: Machine, depth: nat, t: nat)
    requires Reached(s, root, v, flags, a, depth, t) && depth <= 2 && Room(s, 3) && PageFlags(flags)
    requires Present(Entry(a.mem, t, WayIndex(v, depth))) ==> !Huge(Entry(a.mem, t, WayIndex(v, depth)))
    ensures var b := EnsureTable(a, t, WayIndex(v, depth), flags);
            Reached(s, root, v, flags, b, depth + 1, Frame(Entry(b.mem, t, WayIndex(v, depth))))
  {
    var p, i := WayTo(v, depth), WayIndex(v, depth);
    var b := EnsureTable(a, t, i, flags);
    WayFacts(v, depth);
    EnsureTableGrows(a, root, p, i, flags);
    forall w
      ensures Walk(b.mem, root, w) == Walk(s.mem, root, w)
    {
      assert Walk(a.mem, root, w) == Walk(s.mem, root, w);
    }
    forall q, j | TablePath(q) && j < 512
      ensures PlaceAfter(PresentAt(s.mem, root, q, j), PresentAt(b.mem, root, q, j), flags, OnWay(v, depth + 1, q, j))
    {
      EnsureTablePlace(a, root, p, i, flags, q, j);
      PlaceInTwoSteps(s, a, b, root, v, depth, flags, q, j);
    }
  }

  lemma PlaceInTwoSteps(s: Machine, a: Machine, b: Machine, root: nat, v: nat, depth: nat, flags: nat, q: Path, j: nat)
    requires LinksOnly(s.mem, a.mem, root, v, depth, flags) && depth <= 2 && TablePath(q) && j < 512
    requires PlaceAfter(PresentAt(a.mem, root, q, j), PresentAt(b.mem, root, q, j), flags,
                        q == WayTo(v, depth) && j == WayIndex(v, depth))
    ensures PlaceAfter(PresentAt(s.mem, root, q, j), PresentAt(b.mem, root, q, j), flags, OnWay(v, depth + 1, q, j))
  {
    WayFacts(v, depth);
    assert PlaceAfter(PresentAt(s.mem, root, q, j), PresentAt(a.mem, root, q, j), flags, OnWay(v, depth, q, j));
  }

  lemma DirectoryReached(s: Machine, root: nat, v: uint64, flags: uint64)
    requires Tree(s.mem, root, s.next) && Room(s, 3) && PageFlags(flags)
    ensures Reached(s, root, v, flags, DirectoryOf(s, root, v, flags).0, 2, DirectoryOf(s, root, v, flags).1)
  {
    StartReached(s, root, v, flags);
    UpperNotHuge(s, root, v, flags, s, 0, root);
    NextReached(s, root, v, flags, s, 0, root);
    var s1 := EnsureTable(s, root, Index4(v), flags);
    var pdp := Frame(Entry(s1.mem, root, Index4(v)));
    UpperNotHuge(s, root, v, flags, s1, 1, pdp);
    NextReached(s, root, v, flags, s1, 1, pdp);
  }

  lemma UpperNotHuge(s: Machine, root: nat, v: nat, flags: nat, a: Machine, depth: nat, t: nat)
    requires Reached(s, root, v, flags, a, depth, t) && depth <= 1
    ensures Present(Entry(a.mem, t, WayIndex(v, depth))) ==> !Huge(Entry(a.mem, t, WayIndex(v, depth)))
  {
    WayFacts(v, depth);
    ChildTable(a.mem, root, a.next, WayTo(v, depth), WayIndex(v, depth), t);
  }

  /** ... and the page table. */
  lemma PageTableReached(s: Machine, root: nat, phys: uint64, v: uint64, flags: uint64)
    requires Tree(s.mem, root, s.next) && Room(s, 3) && PageFlags(flags) && Mappable(s.mem, root, v)
    ensures exists a, pt :: Reached(s, root, v, flags, a, 3, pt) &&
              MapPage(s, root, phys, v, flags) == a.(mem := SetEntry(a.mem, pt, Index1(v), MakeEntry(phys, flags)))
  {
    var (s2, pd) := DirectoryOf(s, root, v, flags);
    DirectoryReached(s, root, v, flags);
    HugeEntry(s2.mem, root, s2.next, v);
    assert Walk(s2.mem, root, v) == Walk(s.mem, root, v);
    NextReached(s, root, v, flags, s2, 2, pd);
    var s3 := EnsureTable(s2, pd, Index2(v), flags);
    assert Reached(s, root, v, flags, s3, 3, Frame(Entry(s3.mem, pd, Index2(v))));
  }

  // ----- every place after mmu_map_page -----

  /** What the call leaves in every place of every table: in the page table the entry
      `phys | flags`, on the way there the old entries, and where there was none one that
      carries exactly the flags; anywhere else nothing changes. */
  ghost predicate MappedPlace(mem: seq<byte>, mem': seq<byte>, root: nat, phys: uint64, v: uint64, flags: uint64, q: Path, j: nat) {
    if q == Path3(v) && j == Index1(v) then PresentAt(mem', root, q, j) == Some(MakeEntry(phys, flags))
    else PlaceAfter(PresentAt(mem, root, q, j), PresentAt(mem', root, q, j), flags, OnWay(v, 3, q, j))
  }

  ghost predicate MappedPlaces(mem: seq<byte>, mem': seq<byte>, root: nat, phys: uint64, v: uint64, flags: uint64) {
    forall q, j {:trigger PresentAt(mem', root, q, j)} :: TablePath(q) && j < 512 ==>
      MappedPlace(mem, mem', root, phys, v, flags, q, j)
  }

  lemma MapPagePlaces(s: Machine, root: nat, phys: uint64, v: uint64, flags: uint64)
    requires Tree(s.mem, root, s.next) && Room(s, 3) && PageFlags(flags) && Mappable(s.mem, root, v)
    ensures MappedPlaces(s.mem, MapPage(s, root, phys, v, flags).mem, root, phys, v, flags)
  {
    PageTableReached(s, root, phys, v, flags);
    var a, pt :| Reached(s, root, v, flags, a, 3, pt) &&
      MapPage(s, root, phys, v, flags) == a.(mem := SetEntry(a.mem, pt, Index1(v), MakeEntry(phys, flags)));
    forall q, j | TablePath(q) && j < 512
      ensures MappedPlace(s.mem, SetEntry(a.mem, pt, Index1(v), MakeEntry(phys, flags)), root, phys, v, flags, q, j)
    {
      LeafPlace(s, root, phys, v, flags, a, pt, q, j);
    }
  }

  lemma LeafPlace(s: Machine, root: nat, phys: uint64, v: uint64, flags: uint64, a: Machine, pt: nat, q: Path, j: nat)
    requires Reached(s, root, v, flags, a, 3, pt) && PageFlags(flags) && TablePath(q) && j < 512
    ensures MappedPlace(s.mem, SetEntry(a.mem, pt, Index1(v), MakeEntry(phys, flags)), root, phys, v, flags, q, j)
  {
    var e := MakeEntry(phys, flags);
    PathFacts(v);
    TablesOfLeafWrite(a.mem, root, a.next, v, e, q);
    EntryIsPresent(phys, flags);
    assert PlaceAfter(PresentAt(s.mem, root, q, j), PresentAt(a.mem, root, q, j), flags, OnWay(v, 3, q, j));
    if TableAt(a.mem, root, q).Some? {
      EntriesOfSet(a.mem, root, a.next, Path3(v), Index1(v), e, q, j);
    }
  }

  // ----- rights, told by the places -----

  predicate GrantedAt(o: Option<nat>, right: Right) { o.Some? && Grants(o.value, right) }

  predicate TreeAllowed(mem: seq<byte>, root: nat, w: nat, right: Right) {
    && GrantedAt(PresentAt(mem, root, Root, Index4(w)), right)
    && GrantedAt(PresentAt(mem, root, Path1(w), Index3(w)), right)
    && GrantedAt(PresentAt(mem, root, Path2(w), Index2(w)), right)
    && (Huge(PresentAt(mem, root, Path2(w), Index2(w)).value)
        || GrantedAt(PresentAt(mem, root, Path3(w), Index1(w)), right))
  }

  lemma AllowedByPlaces(mem: seq<byte>, root: nat, next: nat, w: nat, right: Right)
    requires Tree(mem, root, next)
    ensures Allowed(mem, root, w, right) == TreeAllowed(mem, root, w, right)
  {
    assert TableAt(mem, root, Root) == Some(root);
    PathFacts(w);
    WalkDown(mem, root, next, w);
    ChildTable(mem, root, next, Root, Index4(w), root);
    match DirectoryAt(mem, root, w) {
      case None =>
      case Some(pd) => DirectoryEntry(mem, root, next, w, pd);
    }
  }

  /** The entries above the page table that are there give the right; where there is none,
      it is given if new ones give it. */
  predicate UpperGrants(mem: seq<byte>, root: nat, v: nat, right: Right, new_: bool) {
    var e4 := Entry(mem, root, Index4(v));
    if !Present(e4) then new_ else
    Grants(e4, right) &&
    var e3 := Entry(mem, Frame(e4), Index3(v));
    if !Present(e3) then new_ else
    Grants(e3, right) &&
    var e2 := Entry(mem, Frame(e3), Index2(v));
    if !Present(e2) then new_ else Grants(e2, right)
  }

  predicate OldOrNew(o: Option<nat>, right: Right, new_: bool) {
    match o case None => new_ case Some(e) => Grants(e, right)
  }

  lemma UpperByPlaces(mem: seq<byte>, root: nat, next: nat, v: nat, right: Right, new_: bool)
    requires Tree(mem, root, next) && !HugeCovered(mem, root, v)
    ensures UpperGrants(mem, root, v, right, new_) ==
            (&& OldOrNew(PresentAt(mem, root, Root, Index4(v)), right, new_)
             && OldOrNew(PresentAt(mem, root, Path1(v), Index3(v)), right, new_)
             && OldOrNew(PresentAt(mem, root, Path2(v), Index2(v)), right, new_))
  {
    assert TableAt(mem, root, Root) == Some(root);
    PathFacts(v);
    WalkDown(mem, root, next, v);
    ChildTable(mem, root, next, Root, Index4(v), root);
  }

  lemma MadeGrants(old_: Option<nat>, new_: Option<nat>, flags: nat, right: Right)
    requires Made(old_, new_, flags)
    ensures GrantedAt(new_, right) == OldOrNew(old_, right, Grants(flags, right))
  {
    LowBits(new_.value);
  }

  /** The page mapped. */
  lemma RightsOfMapped(mem: seq<byte>, mem': seq<byte>, root: nat, phys: uint64, v: uint64, flags: uint64, right: Right)
    requires MappedPlaces(mem, mem', root, phys, v, flags)
    ensures TreeAllowed(mem', root, v, right) ==
            (&& (Grants(phys, right) || Grants(flags, right))
             && OldOrNew(PresentAt(mem, root, Root, Index4(v)), right, Grants(flags, right))
             && OldOrNew(PresentAt(mem, root, Path1(v), Index3(v)), right, Grants(flags, right))
             && OldOrNew(PresentAt(mem, root, Path2(v), Index2(v)), right, Grants(flags, right)))
  {
    PathFacts(v);
    MadeGrants(PresentAt(mem, root, Root, Index4(v)), PresentAt(mem', root, Root, Index4(v)), flags, right);
    MadeGrants(PresentAt(mem, root, Path1(v), Index3(v)), PresentAt(mem', root, Path1(v), Index3(v)), flags, right);
    MadeGrants(PresentAt(mem, root, Path2(v), Index2(v)), PresentAt(mem', root, Path2(v), Index2(v)), flags, right);
    NotHugeAbove(mem', root, v, Index1(v));
    GrantsOfOr(phys, flags, right);
  }

  /** Above a page table there is no huge entry, ... */
  lemma NotHugeAbove(mem: seq<byte>, root: nat, v: nat, i: nat)
    requires PresentAt(mem, root, Path3(v), i).Some?
    ensures PresentAt(mem, root, Path2(v), Index2(v)).Some? && !Huge(PresentAt(mem, root, Path2(v), Index2(v)).value)
  {
  }

  /** ... and without a present entry there is nothing below it. */
  lemma NothingBelow(mem: seq<byte>, root: nat, q: Path, i: nat, j: nat)
    ensures PresentAt(mem, root, q, i).None? ==> PresentAt(mem, root, Child(q, i), j).None?
  {
  }

  /** A place of page w: as before, or made for v where there was none. */
  lemma PlaceOfOther(mem: seq<byte>, mem': seq<byte>, root: nat, phys: uint64, v: uint64, flags: uint64, w: nat, depth: nat)
    requires MappedPlaces(mem, mem', root, phys, v, flags) && depth <= 3
    requires !(Path3(w) == Path3(v) && Index1(w) == Index1(v))
    ensures var old_, new_ := PresentAt(mem, root, WayTo(w, depth), WayIndex(w, depth)), PresentAt(mem', root, WayTo(w, depth), WayIndex(w, depth));
            new_ == old_ || (old_.None? && depth < 3 && WayTo(w, depth) == WayTo(v, depth) && WayIndex(w, depth) == WayIndex(v, depth))
  {
    WayFacts(v, depth);
    WayFacts(w, depth);
    assert MappedPlace(mem, mem', root, phys, v, flags, WayTo(w, depth), WayIndex(w, depth));
  }

  /** Any other page: where it shares an entry that was made, there is nothing below for it. */
  lemma RightsOfOther(mem: seq<byte>, mem': seq<byte>, root: nat, phys: uint64, v: uint64, flags: uint64, w: nat, right: Right)
    requires MappedPlaces(mem, mem', root, phys, v, flags)
    requires !(Path3(w) == Path3(v) && Index1(w) == Index1(v))
    ensures TreeAllowed(mem', root, w, right) == TreeAllowed(mem, root, w, right)
  {
    PlaceOfOther(mem, mem', root, phys, v, flags, w, 0);
    PlaceOfOther(mem, mem', root, phys, v, flags, w, 1);
    PlaceOfOther(mem, mem', root, phys, v, flags, w, 2);
    PlaceOfOther(mem, mem', root, phys, v, flags, w, 3);
    NothingBelow(mem, root, Root, Index4(w), Index3(w));
    NothingBelow(mem, root, Path1(w), Index3(w), Index2(w));
    NothingBelow(mem, root, Path2(w), Index2(w), Index1(w));
    PathFacts(v);
    assert MappedPlace(mem, mem', root, phys, v, flags, Path3(v), Index1(v));
    NotHugeAbove(mem', root, v, Index1(v));
  }

  // ----- rights after each call -----

  /** What a page may be used for after mmu_map_page: the page mapped has the right exactly if
      the flags, or the physical address taken with its low bits, give it, the entries there
      were on the way give it, and those made give it; every other page keeps its rights. */
  lemma MapPageRights(s: Machine, root: nat, phys: uint64, v: uint64, flags: uint64, w: nat, right: Right)
    requires Tree(s.mem, root, s.next) && Room(s, 3) && PageFlags(flags)
    ensures Allowed(MapPage(s, root, phys, v, flags).mem, root, w, right) ==
            if Mappable(s.mem, root, v) && PageNumber(w) == PageNumber(v)
            then (Grants(phys, right) || Grants(flags, right)) && UpperGrants(s.mem, root, v, right, Grants(flags, right))
            else Allowed(s.mem, root, w, right)
  {
    var mem' := MapPage(s, root, phys, v, flags).mem;
    MapPageCorrect(s, root, phys, v, flags);
    if Mappable(s.mem, root, v) {
      MapPagePlaces(s, root, phys, v, flags);
      AllowedByPlaces(s.mem, root, s.next, w, right);
      AllowedByPlaces(mem', root, MapPage(s, root, phys, v, flags).next, w, right);
      SamePage(v, w);
      if PageNumber(w) == PageNumber(v) {
        RightsOfMapped(s.mem, mem', root, phys, v, flags, right);
        UpperByPlaces(s.mem, root, s.next, v, right, Grants(flags, right));
      } else {
        OtherLeaf(v, w);
        RightsOfOther(s.mem, mem', root, phys, v, flags, w, right);
      }
    }
  }

  lemma OtherLeaf(v: nat, w: nat)
    requires PageNumber(v) != PageNumber(w)
    ensures !(Path3(w) == Path3(v) && Index1(w) == Index1(v))
  {
    SamePage(v, w);
  }

  /** So for a page-aligned physical address the page is writable exactly if the flags and the
      entries that were there say so; the same for user access. */
  lemma MappedRightsIff(s: Machine, root: nat, phys: uint64, v: uint64, flags: uint64, right: Right)
    requires Tree(s.mem, root, s.next) && Room(s, 3) && PageFlags(flags) && Mappable(s.mem, root, v) && Aligned(phys)
    ensures Allowed(MapPage(s, root, phys, v, flags).mem, root, v, right) <==>
            Grants(flags, right) && UpperGrants(s.mem, root, v, right, true)
  {
    MapPageRights(s, root, phys, v, flags, v, right);
    AlignedGrantsNothing(phys, right);
  }

  lemma AlignedGrantsNothing(a: nat, right: Right)
    requires Aligned(a)
    ensures !Grants(a, right)
  {
    LowBits(a);
  }

  /** The entry made in the root table, in full. */
  lemma TopEntryMade(s: Machine, root: nat, phys: uint64, v: uint64, flags: uint64)
    requires Tree(s.mem, root, s.next) && Room(s, 3) && PageFlags(flags) && v >= 0x40_0000
    requires !Present(Entry(s.mem, root, Index4(v)))
    ensures Entry(MapPage(s, root, phys, v, flags).mem, root, Index4(v)) == s.next + flags
  {
    var mem' := MapPage(s, root, phys, v, flags).mem;
    assert TableAt(s.mem, root, Root) == Some(root) == TableAt(mem', root, Root);
    assert TableAt(s.mem, root, Path1(v)).None?;
    NotHugeWithoutTable(s.mem, root, s.next, v);
    MapPageTakesNext(s, root, phys, v, flags);
    MapPagePlaces(s, root, phys, v, flags);
    assert MappedPlace(s.mem, mem', root, phys, v, flags, Root, Index4(v));
  }

  // ----- the other operations -----

  lemma UntouchedKeepsRights(mem: seq<byte>, mem': seq<byte>, root: nat, next: nat, w: nat, right: Right)
    requires Tree(mem, root, next) && Untouched(mem, mem', root)
    ensures Allowed(mem', root, w, right) == Allowed(mem, root, w, right)
  {
    UntouchedKeepsTree(mem, mem', root, next);
    AllowedByPlaces(mem, root, next, w, right);
    AllowedByPlaces(mem', root, next, w, right);
    PathFacts(w);
    PlaceUntouched(mem, mem', root, Root, Index4(w));
    PlaceUntouched(mem, mem', root, Path1(w), Index3(w));
    PlaceUntouched(mem, mem', root, Path2(w), Index2(w));
    PlaceUntouched(mem, mem', root, Path3(w), Index1(w));
  }

  lemma PlaceUntouched(mem: seq<byte>, mem': seq<byte>, root: nat, q: Path, j: nat)
    requires Untouched(mem, mem', root) && TablePath(q) && j < 512
    ensures PresentAt(mem', root, q, j) == PresentAt(mem, root, q, j)
  {
    TableUntouched(mem, mem', root, q);
    if TableAt(mem, root, q).Some? {
      EntryUntouched(mem, mem', root, q, j);
    }
  }

  /** Unmapping from root 0x1000, off huge pages: the page loses all rights, no other any. */
  lemma UnmapRights(mem: seq<byte>, next: nat, v: nat, w: nat, right: Right)
    requires Tree(mem, 0x1000, next) && !HugeCovered(mem, 0x1000, v)
    ensures Allowed(UnmapPage(mem, v), 0x1000, w, right) ==
            (PageNumber(w) != PageNumber(v) && Allowed(mem, 0x1000, w, right))
  {
    var mem' := UnmapPage(mem, v);
    UnmapCorrect(mem, next, v);
    UnmapFindsLeafTable(mem, next, v);
    AllowedByPlaces(mem, 0x1000, next, w, right);
    AllowedByPlaces(mem', 0x1000, next, w, right);
    if PageNumber(w) == PageNumber(v) {
      NoRightsUnmapped(mem', 0x1000, w, right);
    } else if TableAt(mem, 0x1000, Path3(v)).Some? {
      OtherLeaf(v, w);
      PathFacts(w);
      PlaceOfUnmap(mem, next, v, Root, Index4(w));
      PlaceOfUnmap(mem, next, v, Path1(w), Index3(w));
      PlaceOfUnmap(mem, next, v, Path2(w), Index2(w));
      PlaceOfUnmap(mem, next, v, Path3(w), Index1(w));
    }
  }

  lemma NoRightsUnmapped(mem: seq<byte>, root: nat, w: nat, right: Right)
    requires Walk(mem, root, w) == NotMapped
    ensures !Allowed(mem, root, w, right)
  {
  }

  lemma PlaceOfUnmap(mem: seq<byte>, next: nat, v: nat, q: Path, j: nat)
    requires Tree(mem, 0x1000, next) && TableAt(mem, 0x1000, Path3(v)).Some? && TablePath(q) && j < 512
    requires !(q == Path3(v) && j == Index1(v))
    ensures var mem' := SetEntry(mem, TableAt(mem, 0x1000, Path3(v)).value, Index1(v), 0);
            PresentAt(mem', 0x1000, q, j) == PresentAt(mem, 0x1000, q, j)
  {
    PathFacts(v);
    TablesOfLeafWrite(mem, 0x1000, next, v, 0, q);
    if TableAt(mem, 0x1000, q).Some? {
      EntriesOfSet(mem, 0x1000, next, Path3(v), Index1(v), 0, q, j);
    }
  }

  // ----- every run -----

  /** A call on page w. */
  predicate On(op: Op, w: nat) {
    match op
    case Map(_, v, _) => PageNumber(v) == PageNumber(w)
    case Unmap(v) => PageNumber(v) == PageNumber(w)
    case _ => false
  }

  lemma ExecKeepsRights(s: Machine, root: nat, op: Op, w: nat, right: Right)
    requires Tree(s.mem, root, s.next) && Room(s, 3) && Legal(s, root, op) && !On(op, w)
    ensures Allowed(Exec(s, root, op).mem, root, w, right) == Allowed(s.mem, root, w, right)
  {
    match op
    case Alloc =>
      UntouchedKeepsRights(s.mem, AllocPage(s).mem, root, s.next, w, right);
    case Map(phys, v, flags) =>
      MapPageRights(s, root, phys, v, flags, w, right);
    case Unmap(v) =>
      UnmapRights(s.mem, s.next, v, w, right);
    case Poke(a, b) =>
      FrameIsAligned(a);
      WriteInUnusedPage(s.mem, Exec(s, root, op).mem, root, s.next, Frame(a));
      UntouchedKeepsRights(s.mem, Exec(s, root, op).mem, root, s.next, w, right);
  }

  /** On every run a page keeps its rights until a call maps or unmaps that page. */
  lemma {:induction false} RunKeepsRights(s: Machine, root: nat, ops: seq<Op>, w: nat, right: Right)
    requires Tree(s.mem, root, s.next) && Room(s, 3 * |ops|) && LegalRun(s, root, ops)
    requires forall i :: 0 <= i < |ops| ==> !On(ops[i], w)
    ensures Allowed(Run(s, root, ops).mem, root, w, right) == Allowed(s.mem, root, w, right)
    decreases |ops|
  {
    if ops != [] {
      ExecRefinesMap(s, root, ops[0]);
      ExecKeepsRights(s, root, ops[0], w, right);
      RunKeepsRights(Exec(s, root, ops[0]), root, ops[1..], w, right);
    }
  }

  // ----- at boot -----

  /** At boot the pages that are mapped are writable, and no page is open to user programs. */
  lemma BootRights(mem: seq<byte>, b: Tables, v: nat)
    requires Identity(mem, b)
    ensures Allowed(mem, b.l4, v, Write) <==> v % 0x1_0000_0000_0000 < 0x8000_0000
    ensures !Allowed(mem, b.l4, v, User)
  {
    IdentityIndices(v);
    LinkGrants(b.l3);
    LinkGrants(b.l2);
    LinkGrants(b.l2b);
    LinkEntryBits(b.l3);
    LinkEntryBits(b.l2);
    LinkEntryBits(b.l2b);
    if Index3(v) < 2 {
      HugeEntryBits(Index3(v), Index2(v));
      HugeGrants(Index3(v), Index2(v));
    }
  }

  lemma LinkGrants(t: uint64)
    requires Aligned(t)
    ensures Grants(LinkEntry(t), Write) && !Grants(LinkEntry(t), User)
  {
    SumOfAligned(t / PAGE_SIZE, 3);
    LowBits(LinkEntry(t));
    assert t == t / PAGE_SIZE * PAGE_SIZE;
  }

  lemma HugeGrants(g: nat, k: nat)
    ensures Grants(HugeEntryFor(g, k), Write) && !Grants(HugeEntryFor(g, k), User)
  {
    var n := 0x4_0000 * g + 0x200 * k;
    assert HugeEntryFor(g, k) == n * PAGE_SIZE + 0x83;
    SumOfAligned(n, 0x83);
    LowBits(HugeEntryFor(g, k));
  }
}
