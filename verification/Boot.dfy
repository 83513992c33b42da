/** The tables src/impl/x86_64/boot/main.asm builds before the kernel runs: an identity
    map of the first 2 GiB in huge pages. */
module Boot {
  import opened Memory
  import opened Wrappers
  import opened Paging
  import opened Mapping

  const IDENTITY_LIMIT: nat := 0x8000_0000

  /** The four pages of the .bss section. */
  datatype Tables = Tables(l4: nat, l3: nat, l2: nat, l2b: nat)

  ghost predicate Placed(b: Tables, size: nat) {
    && LOW_LIMIT <= size <= PHYSICAL_LIMIT
    && Aligned(b.l4) && Aligned(b.l3) && Aligned(b.l2) && Aligned(b.l2b)
    && b.l4 + PAGE_SIZE <= LOW_LIMIT && b.l3 + PAGE_SIZE <= LOW_LIMIT
    && b.l2 + PAGE_SIZE <= LOW_LIMIT && b.l2b + PAGE_SIZE <= LOW_LIMIT
    && b.l4 != b.l3 && b.l4 != b.l2 && b.l4 != b.l2b && b.l3 != b.l2 && b.l3 != b.l2b && b.l2 != b.l2b
  }

  /** Entry k of the page directory that identity-maps gibibyte g. */
  function HugeEntryFor(g: nat, k: nat): nat { 0x4000_0000 * g + 0x20_0000 * k + 0x83 }

  function LinkEntry(table: nat): nat { table + 3 }

  /** The tables part-way: links a, c and d stored, directories filled up to n and m. */
  ghost predicate Filled(mem: seq<byte>, b: Tables, a: nat, c: nat, d: nat, n: nat, m: nat) {
    && (forall j :: 0 <= j < 512 ==> Entry(mem, b.l4, j) == if j == 0 then a else 0)
    && (forall j :: 0 <= j < 512 ==> Entry(mem, b.l3, j) == if j == 0 then c else if j == 1 then d else 0)
    && (forall j :: 0 <= j < 512 ==> Entry(mem, b.l2, j) == if j < n then HugeEntryFor(0, j) else 0)
    && (forall j :: 0 <= j < 512 ==> Entry(mem, b.l2b, j) == if j < m then HugeEntryFor(1, j) else 0)
  }

  ghost predicate Identity(mem: seq<byte>, b: Tables) {
    Placed(b, |mem|) && Filled(mem, b, LinkEntry(b.l3), LinkEntry(b.l2), LinkEntry(b.l2b), 512, 512)
  }

  // ----- 32-bit stores into zero words -----

  lemma {:induction false} ZeroBytes(bs: seq<byte>)
    requires FromLE(bs) == 0
    ensures bs == Zeros(|bs|)
  {
    if bs != [] {
      ZeroBytes(bs[1..]);
    }
  }

  lemma Store32IsSetEntry(mem: seq<byte>, t: nat, i: nat, x: nat)
    requires t + 8 * i + 8 <= |mem| && Entry(mem, t, i) == 0 && x < 0x1_0000_0000
    ensures Patch(mem, t + 8 * i, ToLE(x, 4)) == SetEntry(mem, t, i, x)
  {
    var a := t + 8 * i;
    ZeroBytes(mem[a..a + 8]);
    Pow256Of8();
    ToLEPadded(x, 4, 4);
    forall k | a + 4 <= k < a + 8
      ensures mem[k] == 0
    {
      assert mem[k] == mem[a..a + 8][k - a];
    }
  }

  /** `mov [table + 8 * i], eax` on a word that is still zero. */
  method StoreEax(ram: array<byte>, table: nat, i: nat, eax: nat)
    requires table + PAGE_SIZE <= ram.Length && i < 512 && eax < 0x1_0000_0000
    requires Entry(ram[..], table, i) == 0
    modifies ram
    ensures ram[..] == SetEntry(old(ram[..]), table, i, eax)
  {
    Store32IsSetEntry(ram[..], table, i, eax);
    Store(ram, table + 8 * i, eax, 4);
  }

  lemma OrFlags(a: uint64, flags: uint64)
    requires Aligned(a) && flags < PAGE_SIZE
    ensures BitOr(a, flags) == a + flags
  {
    EntryOfTable(a, flags);
  }

  predicate IsTable(b: Tables, t: nat) { t == b.l4 || t == b.l3 || t == b.l2 || t == b.l2b }

  lemma StoredEntry(mem: seq<byte>, b: Tables, t: nat, i: nat, e: uint64)
    requires Placed(b, |mem|) && IsTable(b, t) && i < 512
    ensures forall s, j {:trigger Entry(SetEntry(mem, t, i, e), s, j)} :: IsTable(b, s) && 0 <= j < 512 ==>
              Entry(SetEntry(mem, t, i, e), s, j) == if s == t && j == i then e else Entry(mem, s, j)
  {
    forall s, j | IsTable(b, s) && 0 <= j < 512
      ensures Entry(SetEntry(mem, t, i, e), s, j) == if s == t && j == i then e else Entry(mem, s, j)
    {
      EntryOfSet(mem, t, i, e, s, j);
    }
  }

  /** `mov eax, table; or eax, 0b11; mov [slot], eax` */
  method StoreLink(ram: array<byte>, b: Tables, t: nat, i: nat, table: nat)
    requires Placed(b, ram.Length) && IsTable(b, t) && i < 512 && IsTable(b, table)
    requires Entry(ram[..], t, i) == 0
    modifies ram
    ensures forall s, j {:trigger Entry(ram[..], s, j)} :: IsTable(b, s) && 0 <= j < 512 ==>
              Entry(ram[..], s, j) == if s == t && j == i then LinkEntry(table) else old(Entry(ram[..], s, j))
  {
    OrFlags(table, 3);
    StoredEntry(ram[..], b, t, i, BitOr(table, 3));
    StoreEax(ram, t, i, BitOr(table, 3));
  }

  lemma HugeEntryIsOr(g: nat, k: nat)
    requires g < 2 && k < 512
    ensures BitOr(0x4000_0000 * g + 0x20_0000 * k, 0x83) == HugeEntryFor(g, k) < 0x1_0000_0000
  {
    var a := 0x4000_0000 * g + 0x20_0000 * k;
    assert a == PAGE_SIZE * (0x4_0000 * g + 0x200 * k);
    OrFlags(a, 0x83);
  }

  /** `or eax, 0b10000011; mov [table + ecx * 8], eax` */
  method StoreHuge(ram: array<byte>, b: Tables, t: nat, g: nat, ecx: nat, start: nat)
    requires Placed(b, ram.Length) && IsTable(b, t) && g < 2 && ecx < 512 && start == 0x4000_0000 * g + 0x20_0000 * ecx
    requires Entry(ram[..], t, ecx) == 0
    modifies ram
    ensures forall s, j {:trigger Entry(ram[..], s, j)} :: IsTable(b, s) && 0 <= j < 512 ==>
              Entry(ram[..], s, j) == if s == t && j == ecx then HugeEntryFor(g, ecx) else old(Entry(ram[..], s, j))
  {
    HugeEntryIsOr(g, ecx);
    StoredEntry(ram[..], b, t, ecx, BitOr(start, 0x83));
    StoreEax(ram, t, ecx, BitOr(start, 0x83));
  }

  method LinkTables(ram: array<byte>, b: Tables)
    requires Placed(b, ram.Length) && Filled(ram[..], b, 0, 0, 0, 0, 0)
    modifies ram
    ensures Filled(ram[..], b, LinkEntry(b.l3), LinkEntry(b.l2), LinkEntry(b.l2b), 0, 0)
  {
    StoreLink(ram, b, b.l4, 0, b.l3);
    assert Filled(ram[..], b, LinkEntry(b.l3), 0, 0, 0, 0);
    StoreLink(ram, b, b.l3, 0, b.l2);
    assert Filled(ram[..], b, LinkEntry(b.l3), LinkEntry(b.l2), 0, 0, 0);
    StoreLink(ram, b, b.l3, 1, b.l2b);
  }

  method MapP2Table1(ram: array<byte>, b: Tables, ghost a: nat, ghost c: nat, ghost d: nat)
    requires Placed(b, ram.Length) && Filled(ram[..], b, a, c, d, 0, 0)
    modifies ram
    ensures Filled(ram[..], b, a, c, d, 512, 0)
  {
    var ecx := 0;
    while ecx != 512
      invariant 0 <= ecx <= 512 && Filled(ram[..], b, a, c, d, ecx, 0)
      decreases 512 - ecx
    {
      StoreHuge(ram, b, b.l2, 0, ecx, 0x20_0000 * ecx);
      ecx := ecx + 1;
    }
  }

  method MapP2Table2(ram: array<byte>, b: Tables, ghost a: nat, ghost c: nat, ghost d: nat)
    requires Placed(b, ram.Length) && Filled(ram[..], b, a, c, d, 512, 0)
    modifies ram
    ensures Filled(ram[..], b, a, c, d, 512, 512)
  {
    var ecx := 0;
    while ecx != 512
      invariant 0 <= ecx <= 512 && Filled(ram[..], b, a, c, d, 512, ecx)
      decreases 512 - ecx
    {
      StoreHuge(ram, b, b.l2b, 1, ecx, 0x20_0000 * ecx + 0x4000_0000);
      ecx := ecx + 1;
    }
  }

  method SetUpPageTables(ram: array<byte>, b: Tables)
    requires Placed(b, ram.Length) && Filled(ram[..], b, 0, 0, 0, 0, 0)
    modifies ram
    ensures Identity(ram[..], b)
  {
    LinkTables(ram, b);
    MapP2Table1(ram, b, LinkEntry(b.l3), LinkEntry(b.l2), LinkEntry(b.l2b));
    MapP2Table2(ram, b, LinkEntry(b.l3), LinkEntry(b.l2), LinkEntry(b.l2b));
  }

  // ----- what the tables mean -----

  lemma LinkEntryBits(t: uint64)
    requires Aligned(t) && t < LOW_LIMIT
    ensures Links(LinkEntry(t)) && Frame(LinkEntry(t)) == t == TableAddress(LinkEntry(t))
  {
    EntryOfTable(t, 3);
    LowTable(LinkEntry(t));
  }

  lemma HugeEntryBits(g: nat, k: nat)
    ensures Present(HugeEntryFor(g, k)) && Huge(HugeEntryFor(g, k))
  {
    var m := 0x40_0000 * g + 0x2000 * k;
    assert HugeEntryFor(g, k) == 256 * m + 0x83;
    SumOfMultiple(m, 0x83);
    Odd(128 * m + 0x41);
  }

  lemma Odd(n: nat)
    ensures (2 * n + 1) % 2 == 1
  {
  }

  const L3: Path := Child(Root, 0)
  const L2: Path := Child(L3, 0)
  const L2B: Path := Child(L3, 1)

  function BootTable(b: Tables, q: Path): Option<nat> {
    if q == Root then Some(b.l4) else if q == L3 then Some(b.l3)
    else if q == L2 then Some(b.l2) else if q == L2B then Some(b.l2b) else None
  }

  /** Below entry i of a boot table. */
  lemma BootLink(mem: seq<byte>, b: Tables, p: Path, i: nat)
    requires Identity(mem, b) && BootTable(b, p).Some? && i < 512
    ensures var e := Entry(mem, BootTable(b, p).value, i);
            BootTable(b, Child(p, i)) == if Links(e) then Some(Frame(e)) else None
  {
    if p == Root || p == L3 {
      BootLinkOfUpper(mem, b, p, i);
    } else {
      HugeEntryBits(0, i);
      HugeEntryBits(1, i);
      assert p == L2 || p == L2B;
      assert Child(p, i) != L3 && Child(p, i) != L2 && Child(p, i) != L2B;
    }
  }

  lemma BootLinkOfUpper(mem: seq<byte>, b: Tables, p: Path, i: nat)
    requires Identity(mem, b) && (p == Root || p == L3) && i < 512
    ensures var e := Entry(mem, BootTable(b, p).value, i);
            BootTable(b, Child(p, i)) == if Links(e) then Some(Frame(e)) else None
  {
    if p == Root {
      LinkEntryBits(b.l3);
    } else {
      LinkEntryBits(b.l2);
      LinkEntryBits(b.l2b);
    }
  }

  lemma {:induction false} BootTables(mem: seq<byte>, b: Tables, q: Path)
    requires Identity(mem, b) && TablePath(q)
    ensures TableAt(mem, b.l4, q) == BootTable(b, q)
  {
    if q.Child? {
      BootTables(mem, b, q.parent);
      if BootTable(b, q.parent).Some? {
        BootLink(mem, b, q.parent, q.index);
      }
    }
  }

  lemma BootEntriesInOrder(mem: seq<byte>, b: Tables, q: Path, i: nat)
    requires Identity(mem, b) && BootTable(b, q).Some? && i < 512
    ensures EntryInOrder(q, Entry(mem, BootTable(b, q).value, i))
  {
    LinkEntryBits(b.l3);
    LinkEntryBits(b.l2);
    LinkEntryBits(b.l2b);
    if q == Root || q == L3 {
    } else {
      assert Depth(q.parent) == 1;
      HugeEntryBits(0, i);
      HugeEntryBits(1, i);
    }
  }

  lemma BootTablesApart(b: Tables, size: nat, p: Path, q: Path)
    requires Placed(b, size)
    ensures BootTable(b, p).Some? ==> Aligned(BootTable(b, p).value) && BootTable(b, p).value + PAGE_SIZE <= LOW_LIMIT
    ensures BootTable(b, p).Some? && BootTable(b, p) == BootTable(b, q) ==> p == q
  {
  }

  /** The boot tables are a separated tree. */
  lemma BootIsTree(mem: seq<byte>, b: Tables)
    requires Identity(mem, b)
    ensures Tree(mem, b.l4, LOW_LIMIT)
  {
    forall p, q | TablePath(p) && TablePath(q)
      ensures TableAt(mem, b.l4, p).Some? ==>
                Aligned(TableAt(mem, b.l4, p).value) && TableAt(mem, b.l4, p).value + PAGE_SIZE <= LOW_LIMIT
      ensures TableAt(mem, b.l4, p).Some? && TableAt(mem, b.l4, p) == TableAt(mem, b.l4, q) ==> p == q
    {
      BootTables(mem, b, p);
      BootTables(mem, b, q);
      BootTablesApart(b, |mem|, p, q);
    }
    forall q, i | TablePath(q) && Depth(q) <= 2 && TableAt(mem, b.l4, q).Some? && i < 512
      ensures EntryInOrder(q, Entry(mem, TableAt(mem, b.l4, q).value, i))
    {
      BootTables(mem, b, q);
      BootEntriesInOrder(mem, b, q, i);
    }
  }

  lemma Remainder48(v: nat, low: nat, q: nat)
    requires v == low + 0x1_0000_0000_0000 * q && low < 0x1_0000_0000_0000
    ensures v % 0x1_0000_0000_0000 == low
  {
  }

  lemma LowAddresses(r: nat, i2: nat, i3: nat, i4: nat)
    requires r < 0x20_0000 && i2 < 512 && i3 < 512 && i4 < 512
    ensures var low := r + 0x20_0000 * i2 + 0x4000_0000 * i3 + 0x80_0000_0000 * i4;
            low < 0x1_0000_0000_0000 && (low < IDENTITY_LIMIT <==> i4 == 0 && i3 < 2)
  {
  }

  lemma IdentityIndices(v: nat)
    ensures v % 0x1_0000_0000_0000 < IDENTITY_LIMIT <==> Index4(v) == 0 && Index3(v) < 2
    ensures v % 0x1_0000_0000_0000 ==
            v % 0x20_0000 + 0x20_0000 * Index2(v) + 0x4000_0000 * Index3(v) + 0x80_0000_0000 * Index4(v)
  {
    var a, b, c := v / 0x20_0000, v / 0x4000_0000, v / 0x80_0000_0000;
    Shift30(v);
    Shift39(v);
    assert a == 512 * b + Index2(v);
    assert b == 512 * c + Index3(v);
    assert c == 512 * (c / 512) + Index4(v);
    var r := v % 0x20_0000;
    LowAddresses(r, Index2(v), Index3(v), Index4(v));
    Remainder48(v, r + 0x20_0000 * Index2(v) + 0x4000_0000 * Index3(v) + 0x80_0000_0000 * Index4(v), c / 512);
  }

  lemma HugeEntryAddress(g: nat, k: nat, v: nat)
    requires g < 2 && k < 512
    ensures PhysicalAddress(HugeEntryFor(g, k), v, 0x20_0000) == 0x4000_0000 * g + 0x20_0000 * k + v % 0x20_0000
  {
    var e := HugeEntryFor(g, k);
    assert e == 0x20_0000 * (512 * g + k) + 0x83;
    assert e % 0x20_0000 == 0x83;
  }

  /** Where the walk of a virtual address ends at boot. */
  lemma BootWalk(mem: seq<byte>, b: Tables, v: nat)
    requires Identity(mem, b)
    ensures Walk(mem, b.l4, v) ==
            if Index4(v) == 0 && Index3(v) < 2 then Large(HugeEntryFor(Index3(v), Index2(v))) else NotMapped
  {
    if Index4(v) == 0 {
      LinkEntryBits(b.l3);
      if Index3(v) == 0 {
        LinkEntryBits(b.l2);
        HugeEntryBits(0, Index2(v));
      } else if Index3(v) == 1 {
        LinkEntryBits(b.l2b);
        HugeEntryBits(1, Index2(v));
      }
    }
  }

  lemma BootTranslation(mem: seq<byte>, b: Tables, v: nat)
    requires Identity(mem, b) && Index4(v) == 0 && Index3(v) < 2
    ensures HugeCovered(mem, b.l4, v)
    ensures Translate(mem, b.l4, v) == Some(0x4000_0000 * Index3(v) + 0x20_0000 * Index2(v) + v % 0x20_0000)
  {
    BootWalk(mem, b, v);
    TranslateHuge(mem, b.l4, v, Index3(v), Index2(v));
  }

  /** The boot tables are the identity on the low 2 GiB and nothing above. */
  lemma BootIsIdentity(mem: seq<byte>, b: Tables, v: nat)
    requires Identity(mem, b)
    ensures var low := v % 0x1_0000_0000_0000;
            if low < IDENTITY_LIMIT
            then HugeCovered(mem, b.l4, v) && Translate(mem, b.l4, v) == Some(low)
            else Walk(mem, b.l4, v) == NotMapped
  {
    IdentityIndices(v);
    if v % 0x1_0000_0000_0000 < IDENTITY_LIMIT {
      BootTranslation(mem, b, v);
    } else {
      BootWalk(mem, b, v);
    }
  }

  lemma TranslateHuge(mem: seq<byte>, root: nat, v: nat, g: nat, k: nat)
    requires g < 2 && k < 512 && Walk(mem, root, v) == Large(HugeEntryFor(g, k))
    ensures Translate(mem, root, v) == Some(0x4000_0000 * g + 0x20_0000 * k + v % 0x20_0000)
  {
    HugeEntryAddress(g, k, v);
  }

  /** The tables of a machine that has mapped nothing since boot; pages may have been taken. */
  ghost predicate JustBooted(s: Machine, b: Tables) {
    Identity(s.mem, b) && LOW_LIMIT <= s.next <= |s.mem| && Aligned(s.next)
  }

  lemma BootTreeOf(s: Machine, b: Tables)
    requires JustBooted(s, b)
    ensures Tree(s.mem, b.l4, s.next)
  {
    BootIsTree(s.mem, b);
  }

  /** At boot mmu_is_mapped knows exactly those addresses, and mmu_map_page leaves them
      alone. */
  lemma BootQueries(s: Machine, b: Tables, phys: uint64, v: uint64, flags: uint64)
    requires JustBooted(s, b)
    ensures IsMapped(s.mem, b.l4, v) <==> v % 0x1_0000_0000_0000 < IDENTITY_LIMIT
    ensures v % 0x1_0000_0000_0000 < IDENTITY_LIMIT ==> MapPage(s, b.l4, phys, v, flags) == s
  {
    BootTreeOf(s, b);
    BootIsIdentity(s.mem, b, v);
    IsMappedIsWalk(s.mem, b.l4, s.next, v);
    if v % 0x1_0000_0000_0000 < IDENTITY_LIMIT {
      MapOfHuge(s, b.l4, phys, v, flags);
    }
  }

  /** The three words that map a low page at boot. */
  predicate IdentityWord(b: Tables, v: nat, a: nat) {
    a == b.l4 || a == b.l3 + 8 * Index3(v) || a == (if Index3(v) == 0 then b.l2 else b.l2b) + 8 * Index2(v)
  }

  lemma IdentityReads(mem: seq<byte>, b: Tables, v: nat, a: nat)
    requires Identity(mem, b) && Index4(v) == 0 && Index3(v) < 2
    ensures QueryReads(mem, b.l4, v, a) == IdentityWord(b, v, a)
  {
    LinkEntryBits(b.l3);
    LinkEntryBits(b.l2);
    LinkEntryBits(b.l2b);
    HugeEntryBits(Index3(v), Index2(v));
  }

  /** The sequence of tests/test_mmu.c ends with the page unmapped only by accident: its
      address, 0x400000, is under a huge page, as is any other v below 2 GiB, so mapping it
      is a no-op, and unmapping it leaves it mapped, unless what lies at 0x1000 leads to one
      of the three words that map it. If CR3 is itself 0x1000 that never happens. */
  lemma VirtualMappingTestFails(s: Machine, b: Tables, phys: uint64, v: uint64, flags: uint64)
    requires JustBooted(s, b) && v < IDENTITY_LIMIT
    ensures MapPage(s, b.l4, phys, v, flags) == s && IsMapped(s.mem, b.l4, v)
    ensures IsMapped(UnmapPage(s.mem, v), b.l4, v) ==
            !(Cleared(s.mem, v).Some? && IdentityWord(b, v, Cleared(s.mem, v).value))
    ensures b.l4 == UNMAP_ROOT && v >= LOW_LIMIT ==> IsMapped(UnmapPage(s.mem, v), b.l4, v)
  {
    LowAddress(v);
    BootQueries(s, b, phys, v, flags);
    IdentityIndices(v);
    UnmapAtBoot(s.mem, b, v);
    if b.l4 == UNMAP_ROOT && v >= LOW_LIMIT {
      NoAccident(s.mem, b, v);
    }
  }

  lemma NoAccident(mem: seq<byte>, b: Tables, v: nat)
    requires Identity(mem, b) && b.l4 == UNMAP_ROOT && LOW_LIMIT <= v < IDENTITY_LIMIT
    ensures Cleared(mem, v).Some? && !IdentityWord(b, v, Cleared(mem, v).value)
  {
    HugeFrame(mem, b, v);
    StartOfHuge(v);
    NoIdentityWord(b, |mem|, v, Cleared(mem, v).value);
  }

  lemma StartOfHuge(v: nat)
    requires v >= LOW_LIMIT
    ensures v - v % 0x20_0000 >= LOW_LIMIT
  {
  }

  lemma UnmapAtBoot(mem: seq<byte>, b: Tables, v: nat)
    requires Identity(mem, b) && Index4(v) == 0 && Index3(v) < 2 && IsMapped(mem, b.l4, v)
    ensures IsMapped(UnmapPage(mem, v), b.l4, v) ==
            !(Cleared(mem, v).Some? && IdentityWord(b, v, Cleared(mem, v).value))
  {
    UnmapExactly(mem, b.l4, v, v);
    if Cleared(mem, v).Some? {
      IdentityReads(mem, b, v, Cleared(mem, v).value);
    }
  }

  lemma NoIdentityWord(b: Tables, size: nat, v: nat, a: nat)
    requires Placed(b, size) && a >= LOW_LIMIT
    ensures !IdentityWord(b, v, a)
  {
  }

  /** Walking from the boot root, the word cleared for a low page lies in the page's own
      2 MiB. */
  lemma HugeFrame(mem: seq<byte>, b: Tables, v: nat)
    requires Identity(mem, b) && b.l4 == UNMAP_ROOT && v < IDENTITY_LIMIT
    ensures Cleared(mem, v) == Some(v - v % 0x20_0000 + 8 * Index1(v))
  {
    LowAddress(v);
    IdentityIndices(v);
    HugeWord(mem, b, v);
    FrameOfHuge(Index3(v), Index2(v));
  }

  lemma HugeWord(mem: seq<byte>, b: Tables, v: nat)
    requires Identity(mem, b) && b.l4 == UNMAP_ROOT && Index4(v) == 0 && Index3(v) < 2
    ensures Cleared(mem, v) == Some(WordAt(Frame(HugeEntryFor(Index3(v), Index2(v))), Index1(v)))
  {
    LinkEntryBits(b.l3);
    LinkEntryBits(b.l2);
    LinkEntryBits(b.l2b);
    HugeEntryBits(Index3(v), Index2(v));
  }

  lemma FrameOfHuge(g: nat, k: nat)
    ensures Frame(HugeEntryFor(g, k)) == 0x4000_0000 * g + 0x20_0000 * k
  {
    var n := 0x4_0000 * g + 0x200 * k;
    assert HugeEntryFor(g, k) == n * PAGE_SIZE + 0x83;
    SumOfAligned(n, 0x83);
  }

  /** The page of the first 512 in the huge page at 0x400000 with a given number. */
  function LowPage(i: nat): uint64
    requires i < 512
  {
    LOW_LIMIT + PAGE_SIZE * i
  }

  lemma LowPageIndices(i: nat)
    requires i < 512
    ensures Index1(LowPage(i)) == i && Index2(LowPage(i)) == 2 && Index3(LowPage(i)) == 0 && Index4(LowPage(i)) == 0
  {
    assert LowPage(i) == 0x1000 * (1024 + i);
    assert LowPage(i) / 0x1000 == 1024 + i;
  }

  /** The low page in a machine that has mapped one page elsewhere since boot: its walk, ... */
  lemma LowPageWalk(s: Machine, b: Tables, phys: uint64, v: uint64, flags: uint64, i: nat)
    requires JustBooted(s, b) && Room(s, 3) && PageFlags(flags) && Index4(v) != 0 && i < 512
    ensures Walk(MapPage(s, b.l4, phys, v, flags).mem, b.l4, LowPage(i)) == Large(HugeEntryFor(0, 2))
  {
    LowPageIndices(i);
    BootTreeOf(s, b);
    BootWalk(s.mem, b, LowPage(i));
    MapPageCorrect(s, b.l4, phys, v, flags);
    SamePage(v, LowPage(i));
  }

  /** ... and the words its query reads. */
  lemma LowPageReads(s: Machine, b: Tables, phys: uint64, v: uint64, flags: uint64, i: nat, a: nat)
    requires JustBooted(s, b) && Room(s, 3) && PageFlags(flags) && Index4(v) != 0 && i < 512
    ensures QueryReads(MapPage(s, b.l4, phys, v, flags).mem, b.l4, LowPage(i), a) == IdentityWord(b, LowPage(i), a)
  {
    var r := MapPage(s, b.l4, phys, v, flags);
    BootTreeOf(s, b);
    MapPageCorrect(s, b.l4, phys, v, flags);
    LowPageWalk(s, b, phys, v, flags, i);
    LowPageTables(s, b, phys, v, flags, i);
    LowPageIndices(i);
    HugeReads(r.mem, b.l4, r.next, LowPage(i), b.l3, b.l2, a);
  }

  lemma LowPageTables(s: Machine, b: Tables, phys: uint64, v: uint64, flags: uint64, i: nat)
    requires JustBooted(s, b) && Room(s, 3) && PageFlags(flags) && i < 512
    ensures var r := MapPage(s, b.l4, phys, v, flags);
            TableAt(r.mem, b.l4, Path1(LowPage(i))) == Some(b.l3) && TableAt(r.mem, b.l4, Path2(LowPage(i))) == Some(b.l2)
  {
    LowPageIndices(i);
    PathFacts(LowPage(i));
    BootTreeOf(s, b);
    BootTables(s.mem, b, Path1(LowPage(i)));
    BootTables(s.mem, b, Path2(LowPage(i)));
    MapPageKeepsTable(s, b.l4, phys, v, flags, Path1(LowPage(i)));
    MapPageKeepsTable(s, b.l4, phys, v, flags, Path2(LowPage(i)));
  }

  /** Pages an unmapping harms: where CR3 is 0x1000, the first table made after boot is the
      page at 0x400000. Map any page of another 512 GiB area, then unmap the low page
      numbered by its third index: the word cleared is an entry of the table just made, so
      the page that goes is the wrong one. */
  lemma UnmapHitsTable(s: Machine, b: Tables, phys: uint64, v: uint64, flags: uint64)
    requires JustBooted(s, b) && Room(s, 3) && PageFlags(flags)
    requires b.l4 == UNMAP_ROOT && s.next == LOW_LIMIT && Index4(v) != 0
    ensures var low := LowPage(Index3(v));
            var r := MapPage(s, b.l4, phys, v, flags);
            && IsMapped(r.mem, b.l4, v) && IsMapped(r.mem, b.l4, low)
            && !IsMapped(UnmapPage(r.mem, low), b.l4, v) && IsMapped(UnmapPage(r.mem, low), b.l4, low)
  {
    var i := Index3(v);
    var r := MapPage(s, b.l4, phys, v, flags);
    HighAndLow(s, b, phys, v, flags);
    LowPageReads(s, b, phys, v, flags, i, WordAt(LOW_LIMIT, i));
    LowPageCleared(s, b, phys, v, flags, i);
    UnmapExactly(r.mem, b.l4, LowPage(i), v);
    UnmapExactly(r.mem, b.l4, LowPage(i), LowPage(i));
    NoIdentityWord(b, |s.mem|, LowPage(i), WordAt(LOW_LIMIT, i));
  }

  lemma HighAndLow(s: Machine, b: Tables, phys: uint64, v: uint64, flags: uint64)
    requires JustBooted(s, b) && Room(s, 3) && PageFlags(flags) && Index4(v) != 0
    ensures var r := MapPage(s, b.l4, phys, v, flags);
            && IsMapped(r.mem, b.l4, v) && IsMapped(r.mem, b.l4, LowPage(Index3(v)))
            && QueryReads(r.mem, b.l4, v, WordAt(s.next, Index3(v)))
  {
    BothMapped(s, b, phys, v, flags);
    BootTreeOf(s, b);
    HighAddress(v);
    PathFacts(v);
    BootTables(s.mem, b, Path1(v));
    MapPageTakesNext(s, b.l4, phys, v, flags);
    ReadsThroughTable(MapPage(s, b.l4, phys, v, flags).mem, b.l4, v, s.next);
  }

  lemma BothMapped(s: Machine, b: Tables, phys: uint64, v: uint64, flags: uint64)
    requires JustBooted(s, b) && Room(s, 3) && PageFlags(flags) && Index4(v) != 0
    ensures var r := MapPage(s, b.l4, phys, v, flags);
            IsMapped(r.mem, b.l4, v) && IsMapped(r.mem, b.l4, LowPage(Index3(v)))
  {
    var low := LowPage(Index3(v));
    BootTreeOf(s, b);
    HighAddress(v);
    LowPageIndices(Index3(v));
    SamePage(v, low);
    MapQueryUnmap(s, b.l4, phys, v, flags, low);
    LowPageIsLow(Index3(v));
    BootQueries(s, b, phys, low, flags);
  }

  lemma LowPageIsLow(i: nat)
    requires i < 512
    ensures LowPage(i) % 0x1_0000_0000_0000 < IDENTITY_LIMIT
  {
    LowAddress(LowPage(i));
  }

  lemma ReadsThroughTable(mem: seq<byte>, root: nat, v: nat, t: nat)
    requires LeadsTo(Entry(mem, root, Index4(v)), t)
    ensures QueryReads(mem, root, v, WordAt(t, Index3(v)))
  {
  }

  lemma LowPageCleared(s: Machine, b: Tables, phys: uint64, v: uint64, flags: uint64, i: nat)
    requires JustBooted(s, b) && Room(s, 3) && PageFlags(flags) && Index4(v) != 0 && i < 512 && b.l4 == UNMAP_ROOT
    ensures Cleared(MapPage(s, b.l4, phys, v, flags).mem, LowPage(i)) == Some(WordAt(LOW_LIMIT, i))
  {
    var r := MapPage(s, b.l4, phys, v, flags);
    BootTreeOf(s, b);
    MapPageCorrect(s, b.l4, phys, v, flags);
    LowPageWalk(s, b, phys, v, flags, i);
    LowPageIndices(i);
    UnmapOfHugeIff(r.mem, r.next, LowPage(i));
    FrameOfHuge(0, 2);
  }

  lemma HighAddress(v: nat)
    requires Index4(v) != 0
    ensures v >= LOW_LIMIT
  {
  }

  lemma LowAddress(v: nat)
    requires v < IDENTITY_LIMIT
    ensures v % 0x1_0000_0000_0000 == v
  {
  }
}
